/** The typed map of artmap: a codec in front of a tree. */
module OrderedMaps {
  import opened Bytes
  import opened Tries
  import opened Shapes
  import opened Listings
  import opened Feeds
  import opened Windows
  import opened Extremes
  import opened Codec
  import opened Trees
  import opened Walks

  // ---------- A map of keys, and the map of their encodings ----------

  /** `raw` holds the entries of `m`, under their encoded keys, and nothing else. */
  ghost predicate Represents<V>(kind: KeyKind, m: map<Item, V>, raw: map<Key, V>) {
    && (forall k | k in m :: OfKind(kind, k) && Encode(kind, k) in raw && raw[Encode(kind, k)] == m[k])
    && (forall bs | bs in raw :: Encoded(kind, bs) && Decode(kind, bs) in m)
  }

  lemma RepresentsKey<V>(kind: KeyKind, m: map<Item, V>, raw: map<Key, V>, k: Item)
    requires Represents(kind, m, raw) && OfKind(kind, k)
    ensures k in m <==> Encode(kind, k) in raw
    ensures k in m ==> raw[Encode(kind, k)] == m[k]
  {
    DecodeEncode(kind, k);
  }

  lemma RepresentsPut<V>(kind: KeyKind, m: map<Item, V>, raw: map<Key, V>, k: Item, value: V)
    requires Represents(kind, m, raw) && OfKind(kind, k)
    ensures Represents(kind, m[k := value], raw[Encode(kind, k) := value])
  {
    hide Encode, Decode, OfKind, Encoded;
    DecodeEncode(kind, k);
    var m', raw' := m[k := value], raw[Encode(kind, k) := value];
    forall l | l in m' ensures OfKind(kind, l) && Encode(kind, l) in raw' && raw'[Encode(kind, l)] == m'[l] {
      if l != k && Encode(kind, l) == Encode(kind, k) { EncodeInjective(kind, l, k); }
    }
    forall bs | bs in raw' ensures Encoded(kind, bs) && Decode(kind, bs) in m' {
      assert bs in raw || bs == Encode(kind, k);
    }
  }

  lemma RepresentsDelete<V>(kind: KeyKind, m: map<Item, V>, raw: map<Key, V>, k: Item)
    requires Represents(kind, m, raw) && OfKind(kind, k)
    ensures Represents(kind, m - {k}, raw - {Encode(kind, k)})
  {
    hide Encode, Decode, OfKind, Encoded;
    var m', raw' := m - {k}, raw - {Encode(kind, k)};
    forall l | l in m' ensures OfKind(kind, l) && Encode(kind, l) in raw' && raw'[Encode(kind, l)] == m'[l] {
      if Encode(kind, l) == Encode(kind, k) { EncodeInjective(kind, l, k); }
    }
    forall bs | bs in raw' ensures Encoded(kind, bs) && Decode(kind, bs) in m' {
      if Decode(kind, bs) == k { EncodeDecode(kind, bs); }
    }
  }

  /** An empty map is represented by an empty map only. */
  lemma RepresentsNothing<V>(kind: KeyKind, m: map<Item, V>, raw: map<Key, V>)
    requires Represents(kind, m, raw)
    ensures raw != map[] ==> m != map[]
  {
    if raw != map[] {
      var bs :| bs in raw;
      assert Decode(kind, bs) in m;
    }
  }

  lemma RepresentsOne<V>(kind: KeyKind, m: map<Item, V>, raw: map<Key, V>, k: Item)
    requires Represents(kind, m, raw) && k in m
    ensures OfKind(kind, k) && Encode(kind, k) in raw
    ensures |m - {k}| == |m| - 1 && |raw - {Encode(kind, k)}| == |raw| - 1
  {
    CardinalityWithout(m, k);
    CardinalityWithout(raw, Encode(kind, k));
  }

  lemma {:induction false} RepresentsCount<V>(kind: KeyKind, m: map<Item, V>, raw: map<Key, V>)
    requires Represents(kind, m, raw)
    ensures |m| == |raw|
    decreases |m|
  {
    hide Represents, Encode, OfKind;
    if m == map[] {
      RepresentsNothing(kind, m, raw);
    } else {
      var k :| k in m;
      RepresentsOne(kind, m, raw, k);
      RepresentsDelete(kind, m, raw, k);
      RepresentsCount(kind, m - {k}, raw - {Encode(kind, k)});
    }
  }

  // ---------- The order of keys ----------

  /** `o` is the first of the entries whose keys are `among`, or nothing when there are none. */
  ghost predicate First<V>(kind: KeyKind, o: Option<(Item, V)>, m: map<Item, V>, among: set<Item>) {
    match o
    case None => among == {}
    case Some(e) => e.0 in among && e.0 in m && e.1 == m[e.0] && forall k | k in among :: !Before(kind, k, e.0)
  }

  ghost predicate Last<V>(kind: KeyKind, o: Option<(Item, V)>, m: map<Item, V>, among: set<Item>) {
    match o
    case None => among == {}
    case Some(e) => e.0 in among && e.0 in m && e.1 == m[e.0] && forall k | k in among :: !Before(kind, e.0, k)
  }

  ghost function NotBelow<V>(kind: KeyKind, m: map<Item, V>, target: Item): set<Item> {
    set k | k in m && !Before(kind, k, target)
  }

  ghost function NotAbove<V>(kind: KeyKind, m: map<Item, V>, target: Item): set<Item> {
    set k | k in m && !Before(kind, target, k)
  }

  /** The keys in the half-open interval; a missing bound imposes no constraint. */
  ghost function Within<V>(kind: KeyKind, m: map<Item, V>, start: Option<Item>, end: Option<Item>): set<Item> {
    set k | k in m && (start.Some? ==> !Before(kind, k, start.value)) && (end.Some? ==> Before(kind, k, end.value))
  }

  /** `xs` lists the entries of `m` whose keys are `among`, once each, in ascending key order. */
  ghost predicate Lists<V>(kind: KeyKind, xs: seq<(Item, V)>, m: map<Item, V>, among: set<Item>) {
    && (forall i, j | 0 <= i < j < |xs| :: Before(kind, xs[i].0, xs[j].0))
    && (forall x | x in xs :: x.0 in among && x.0 in m && x.1 == m[x.0])
    && (forall k | k in among :: k in m && (k, m[k]) in xs)
  }

  // ---------- Decoding what the tree answers ----------

  predicate AllEncoded<V>(kind: KeyKind, xs: seq<Entry<V>>) {
    forall i | 0 <= i < |xs| :: Encoded(kind, xs[i].0)
  }

  function DecodeEntry<V>(kind: KeyKind, x: Entry<V>): (Item, V)
    requires Encoded(kind, x.0)
  {
    (Decode(kind, x.0), x.1)
  }

  function DecodeAll<V>(kind: KeyKind, xs: seq<Entry<V>>): (r: seq<(Item, V)>)
    requires AllEncoded(kind, xs)
    ensures |r| == |xs| && forall i | 0 <= i < |xs| :: r[i] == DecodeEntry(kind, xs[i])
  {
    seq(|xs|, i requires 0 <= i < |xs| => DecodeEntry(kind, xs[i]))
  }

  /** The entries of `raw` in `es` are the encodings of the entries of `m` with keys `among`. */
  ghost predicate Matches<V>(kind: KeyKind, m: map<Item, V>, among: set<Item>, raw: map<Key, V>, es: set<Entry<V>>) {
    && Represents(kind, m, raw) && among <= m.Keys && es <= Pairs(raw)
    && forall k | k in m :: k in among <==> (Encode(kind, k), m[k]) in es
  }

  lemma MatchedEntry<V>(kind: KeyKind, m: map<Item, V>, among: set<Item>, raw: map<Key, V>, es: set<Entry<V>>,
                        x: Entry<V>)
    requires Matches(kind, m, among, raw, es) && x in es
    ensures Encoded(kind, x.0) && OfKind(kind, Decode(kind, x.0)) && Encode(kind, Decode(kind, x.0)) == x.0
    ensures Decode(kind, x.0) in among && m[Decode(kind, x.0)] == x.1
  {
    assert x.0 in raw && x.1 == raw[x.0];
    EncodeDecode(kind, x.0);
  }

  lemma FirstFromLeast<V>(kind: KeyKind, m: map<Item, V>, among: set<Item>, raw: map<Key, V>, es: set<Entry<V>>,
                          e: Option<Entry<V>>)
    requires Matches(kind, m, among, raw, es) && Least(e, es)
    ensures e.Some? ==> Encoded(kind, e.value.0)
    ensures First(kind, if e.Some? then Some(DecodeEntry(kind, e.value)) else None, m, among)
  {
    if e.Some? {
      MatchedEntry(kind, m, among, raw, es, e.value);
      var d := Decode(kind, e.value.0);
      forall k | k in among ensures !Before(kind, k, d) {
        EncodeOrder(kind, k, d);
        assert (Encode(kind, k), m[k]) in es;
        LessOrAtMost(Encode(kind, k), e.value.0);
      }
    } else {
      assert forall k | k in m :: k !in among;
    }
  }

  lemma LastFromGreatest<V>(kind: KeyKind, m: map<Item, V>, among: set<Item>, raw: map<Key, V>, es: set<Entry<V>>,
                            e: Option<Entry<V>>)
    requires Matches(kind, m, among, raw, es) && Greatest(e, es)
    ensures e.Some? ==> Encoded(kind, e.value.0)
    ensures Last(kind, if e.Some? then Some(DecodeEntry(kind, e.value)) else None, m, among)
  {
    if e.Some? {
      MatchedEntry(kind, m, among, raw, es, e.value);
      var d := Decode(kind, e.value.0);
      forall k | k in among ensures !Before(kind, d, k) {
        EncodeOrder(kind, d, k);
        assert (Encode(kind, k), m[k]) in es;
        LessOrAtMost(e.value.0, Encode(kind, k));
      }
    } else {
      assert forall k | k in m :: k !in among;
    }
  }

  lemma DecodedEntry<V>(kind: KeyKind, m: map<Item, V>, among: set<Item>, raw: map<Key, V>, es: set<Entry<V>>,
                        xs: seq<Entry<V>>, i: nat)
    requires Matches(kind, m, among, raw, es) && Listing(xs, es) && i < |xs|
    ensures Encoded(kind, xs[i].0)
    ensures var k := Decode(kind, xs[i].0); k in among && k in m && xs[i].1 == m[k]
  {
    hide Encode, Decode, OfKind, Encoded;
    assert xs[i] in xs;
    MatchedEntry(kind, m, among, raw, es, xs[i]);
  }

  lemma DecodedPair<V>(kind: KeyKind, m: map<Item, V>, among: set<Item>, raw: map<Key, V>, es: set<Entry<V>>,
                       xs: seq<Entry<V>>, i: nat, j: nat)
    requires Matches(kind, m, among, raw, es) && Listing(xs, es) && i < j < |xs|
    ensures Encoded(kind, xs[i].0) && Encoded(kind, xs[j].0)
    ensures Before(kind, Decode(kind, xs[i].0), Decode(kind, xs[j].0))
  {
    hide Encode, Decode, OfKind, Encoded, Before;
    assert xs[i] in xs && xs[j] in xs;
    MatchedEntry(kind, m, among, raw, es, xs[i]);
    MatchedEntry(kind, m, among, raw, es, xs[j]);
    EncodeOrder(kind, Decode(kind, xs[i].0), Decode(kind, xs[j].0));
  }

  lemma ListedKey<V>(kind: KeyKind, m: map<Item, V>, among: set<Item>, raw: map<Key, V>, es: set<Entry<V>>,
                     xs: seq<Entry<V>>, k: Item)
    requires Matches(kind, m, among, raw, es) && Listing(xs, es) && AllEncoded(kind, xs) && k in among
    ensures k in m && (k, m[k]) in DecodeAll(kind, xs)
  {
    hide Encode, Decode, OfKind, Encoded;
    var e := (Encode(kind, k), m[k]);
    assert e in es;
    var i :| 0 <= i < |xs| && xs[i] == e;
    DecodeEncode(kind, k);
    assert DecodeAll(kind, xs)[i] == (k, m[k]);
  }

  /** Decoding an ascending enumeration of the tree's entries gives one of the map's entries. */
  lemma ListsFromListing<V>(kind: KeyKind, m: map<Item, V>, among: set<Item>, raw: map<Key, V>, es: set<Entry<V>>,
                            xs: seq<Entry<V>>)
    requires Matches(kind, m, among, raw, es) && Listing(xs, es)
    ensures AllEncoded(kind, xs) && Lists(kind, DecodeAll(kind, xs), m, among)
  {
    hide Encode, Decode, OfKind, Encoded, Before, Matches, Listing;
    forall i | 0 <= i < |xs| ensures Encoded(kind, xs[i].0) { DecodedEntry(kind, m, among, raw, es, xs, i); }
    var ys := DecodeAll(kind, xs);
    forall i, j | 0 <= i < j < |ys| ensures Before(kind, ys[i].0, ys[j].0) {
      DecodedPair(kind, m, among, raw, es, xs, i, j);
    }
    forall i | 0 <= i < |ys| ensures ys[i].0 in among && ys[i].0 in m && ys[i].1 == m[ys[i].0] {
      DecodedEntry(kind, m, among, raw, es, xs, i);
    }
    forall k | k in among ensures k in m && (k, m[k]) in ys { ListedKey(kind, m, among, raw, es, xs, k); }
  }

  // ---------- The part of the tree that a typed query is about ----------

  function EncodeBound(kind: KeyKind, bound: Option<Item>): Option<Key>
    requires bound.Some? ==> OfKind(kind, bound.value)
  {
    if bound.Some? then Some(Encode(kind, bound.value)) else None
  }

  lemma RawEntry<V>(kind: KeyKind, m: map<Item, V>, raw: map<Key, V>, k: Item)
    requires Represents(kind, m, raw) && k in m
    ensures OfKind(kind, k) && (Encode(kind, k), m[k]) in Pairs(raw)
  {
    assert Encode(kind, k) in raw;
  }

  lemma MatchesAll<V>(kind: KeyKind, m: map<Item, V>, raw: map<Key, V>)
    requires Represents(kind, m, raw)
    ensures Matches(kind, m, m.Keys, raw, Pairs(raw))
  {
    forall k | k in m ensures (Encode(kind, k), m[k]) in Pairs(raw) { RawEntry(kind, m, raw, k); }
  }

  lemma KeyNotBelow<V>(kind: KeyKind, m: map<Item, V>, raw: map<Key, V>, target: Item, k: Item, es: set<Entry<V>>)
    requires Represents(kind, m, raw) && OfKind(kind, target) && k in m
    requires es == AtOrAbove(Pairs(raw), Encode(kind, target))
    ensures k in NotBelow(kind, m, target) <==> (Encode(kind, k), m[k]) in es
  {
    RawEntry(kind, m, raw, k);
    EncodeOrder(kind, k, target);
    LessOrAtMost(Encode(kind, k), Encode(kind, target));
  }

  lemma NotBelowIsPart<V>(kind: KeyKind, m: map<Item, V>, raw: map<Key, V>, target: Item, es: set<Entry<V>>)
    requires OfKind(kind, target) && es == AtOrAbove(Pairs(raw), Encode(kind, target))
    ensures NotBelow(kind, m, target) <= m.Keys && es <= Pairs(raw)
  {
  }

  lemma MatchesNotBelow<V>(kind: KeyKind, m: map<Item, V>, raw: map<Key, V>, target: Item)
    requires Represents(kind, m, raw) && OfKind(kind, target)
    ensures Matches(kind, m, NotBelow(kind, m, target), raw, AtOrAbove(Pairs(raw), Encode(kind, target)))
  {
    hide Encode, Decode, OfKind, Encoded, Before, Pairs, AtOrAbove, NotBelow;
    var es := AtOrAbove(Pairs(raw), Encode(kind, target));
    NotBelowIsPart(kind, m, raw, target, es);
    forall k | k in m ensures k in NotBelow(kind, m, target) <==> (Encode(kind, k), m[k]) in es {
      KeyNotBelow(kind, m, raw, target, k, es);
    }
  }

  lemma KeyNotAbove<V>(kind: KeyKind, m: map<Item, V>, raw: map<Key, V>, target: Item, k: Item, es: set<Entry<V>>)
    requires Represents(kind, m, raw) && OfKind(kind, target) && k in m
    requires es == AtOrBelow(Pairs(raw), Encode(kind, target))
    ensures k in NotAbove(kind, m, target) <==> (Encode(kind, k), m[k]) in es
  {
    RawEntry(kind, m, raw, k);
    EncodeOrder(kind, target, k);
    LessOrAtMost(Encode(kind, target), Encode(kind, k));
  }

  lemma NotAboveIsPart<V>(kind: KeyKind, m: map<Item, V>, raw: map<Key, V>, target: Item, es: set<Entry<V>>)
    requires OfKind(kind, target) && es == AtOrBelow(Pairs(raw), Encode(kind, target))
    ensures NotAbove(kind, m, target) <= m.Keys && es <= Pairs(raw)
  {
  }

  lemma MatchesNotAbove<V>(kind: KeyKind, m: map<Item, V>, raw: map<Key, V>, target: Item)
    requires Represents(kind, m, raw) && OfKind(kind, target)
    ensures Matches(kind, m, NotAbove(kind, m, target), raw, AtOrBelow(Pairs(raw), Encode(kind, target)))
  {
    hide Encode, Decode, OfKind, Encoded, Before, Pairs, AtOrBelow, NotAbove;
    var es := AtOrBelow(Pairs(raw), Encode(kind, target));
    NotAboveIsPart(kind, m, raw, target, es);
    forall k | k in m ensures k in NotAbove(kind, m, target) <==> (Encode(kind, k), m[k]) in es {
      KeyNotAbove(kind, m, raw, target, k, es);
    }
  }

  ghost predicate BoundsOfKind(kind: KeyKind, start: Option<Item>, end: Option<Item>) {
    (start.Some? ==> OfKind(kind, start.value)) && (end.Some? ==> OfKind(kind, end.value))
  }

  lemma KeyWithin<V>(kind: KeyKind, m: map<Item, V>, raw: map<Key, V>, start: Option<Item>, end: Option<Item>,
                     k: Item, es: set<Entry<V>>)
    requires Represents(kind, m, raw) && BoundsOfKind(kind, start, end) && k in m
    requires es == EntriesWithin(Pairs(raw), EncodeBound(kind, start), EncodeBound(kind, end))
    ensures k in Within(kind, m, start, end) <==> (Encode(kind, k), m[k]) in es
  {
    RawEntry(kind, m, raw, k);
    if start.Some? { EncodeOrder(kind, k, start.value); }
    if end.Some? { EncodeOrder(kind, k, end.value); }
    hide Encode, OfKind, Before, Represents, Pairs, Less;
  }

  lemma WithinIsPart<V>(kind: KeyKind, m: map<Item, V>, raw: map<Key, V>, start: Option<Item>, end: Option<Item>,
                        es: set<Entry<V>>)
    requires BoundsOfKind(kind, start, end)
    requires es == EntriesWithin(Pairs(raw), EncodeBound(kind, start), EncodeBound(kind, end))
    ensures Within(kind, m, start, end) <= m.Keys && es <= Pairs(raw)
  {
  }

  lemma MatchesWithin<V>(kind: KeyKind, m: map<Item, V>, raw: map<Key, V>, start: Option<Item>, end: Option<Item>)
    requires Represents(kind, m, raw) && BoundsOfKind(kind, start, end)
    ensures Matches(kind, m, Within(kind, m, start, end), raw,
                    EntriesWithin(Pairs(raw), EncodeBound(kind, start), EncodeBound(kind, end)))
  {
    hide Encode, Decode, OfKind, Encoded, Before, Pairs, EntriesWithin, EncodeBound, Within;
    var es := EntriesWithin(Pairs(raw), EncodeBound(kind, start), EncodeBound(kind, end));
    WithinIsPart(kind, m, raw, start, end, es);
    forall k | k in m ensures k in Within(kind, m, start, end) <==> (Encode(kind, k), m[k]) in es {
      KeyWithin(kind, m, raw, start, end, k, es);
    }
  }

  // ---------- Passing the tree's entries on to a typed consumer ----------

  /** The answers of a consumer of decoded entries, as answers to what the tree offers */
  function Relay<V>(kind: KeyKind, accept: seq<(Item, V)> -> bool, log: seq<(Item, V)>): seq<Entry<V>> -> bool {
    xs => AllEncoded(kind, xs) && accept(log + DecodeAll(kind, xs))
  }

  lemma {:induction false} FeedRelayed<V>(kind: KeyKind, accept: seq<(Item, V)> -> bool, log: seq<(Item, V)>,
                                          sofar: seq<Entry<V>>, xs: seq<Entry<V>>)
    requires AllEncoded(kind, sofar) && AllEncoded(kind, xs)
    ensures var raw := Feed(Relay(kind, accept, log), sofar, xs);
            AllEncoded(kind, raw.log) &&
            Feed(accept, log + DecodeAll(kind, sofar), DecodeAll(kind, xs)) ==
            Fed(log + DecodeAll(kind, raw.log), raw.more)
    decreases |xs|
  {
    if xs != [] {
      var sofar' := sofar + [xs[0]];
      var typed, typed' := log + DecodeAll(kind, sofar), log + DecodeAll(kind, sofar');
      assert typed' == typed + [DecodeAll(kind, xs)[0]];
      assert DecodeAll(kind, xs)[1..] == DecodeAll(kind, xs[1..]);
      if accept(typed') { FeedRelayed(kind, accept, log, sofar', xs[1..]); }
    }
  }

  lemma DecodeReverse<V>(kind: KeyKind, xs: seq<Entry<V>>)
    requires AllEncoded(kind, xs)
    ensures AllEncoded(kind, Reverse(xs)) && DecodeAll(kind, Reverse(xs)) == Reverse(DecodeAll(kind, xs))
  {
    forall i | 0 <= i < |xs| ensures Reverse(xs)[i] == xs[|xs| - 1 - i] { ReverseAt(xs, i); }
    forall i | 0 <= i < |xs| ensures Reverse(DecodeAll(kind, xs))[i] == DecodeAll(kind, xs)[|xs| - 1 - i] {
      ReverseAt(DecodeAll(kind, xs), i);
    }
  }

  lemma TreeIsSeparate<V>(tree: Tree<V>)
    requires tree.Valid()
    ensures tree !in Foot(tree.shape) && Foot(tree.shape) !! Bufs(tree.shape)
  {
  }

  lemma EncodedAt<V>(kind: KeyKind, xs: seq<Entry<V>>, i: nat)
    requires AllEncoded(kind, xs) && i < |xs|
    ensures Encoded(kind, xs[i].0) && DecodeAll(kind, xs)[i] == DecodeEntry(kind, xs[i])
  {
  }

  lemma NoneEncoded<V>(kind: KeyKind)
    ensures AllEncoded<V>(kind, []) && DecodeAll<V>(kind, []) == []
  {
  }

  /** The entries that `among` selects, under their encoded keys */
  ghost function EncodeEntries<V>(kind: KeyKind, m: map<Item, V>, among: set<Item>): set<Entry<V>>
    requires forall k | k in among :: k in m && OfKind(kind, k)
  {
    set k | k in among :: (Encode(kind, k), m[k])
  }

  function EncodeAll<V>(kind: KeyKind, xs: seq<(Item, V)>): (r: seq<Entry<V>>)
    requires forall i | 0 <= i < |xs| :: OfKind(kind, xs[i].0)
    ensures |r| == |xs| && forall i | 0 <= i < |xs| :: r[i] == (Encode(kind, xs[i].0), xs[i].1)
  {
    seq(|xs|, i requires 0 <= i < |xs| => (Encode(kind, xs[i].0), xs[i].1))
  }

  lemma EncodedListing<V>(kind: KeyKind, xs: seq<(Item, V)>, m: map<Item, V>, among: set<Item>)
    requires Lists(kind, xs, m, among) && forall k | k in among :: k in m && OfKind(kind, k)
    ensures forall i | 0 <= i < |xs| :: OfKind(kind, xs[i].0)
    ensures Listing(EncodeAll(kind, xs), EncodeEntries(kind, m, among))
  {
    hide Encode, OfKind, Before;
    forall i | 0 <= i < |xs| ensures OfKind(kind, xs[i].0) { assert xs[i] in xs; }
    var ys, es := EncodeAll(kind, xs), EncodeEntries(kind, m, among);
    forall i, j | 0 <= i < j < |ys| ensures Less(ys[i].0, ys[j].0) { EncodeOrder(kind, xs[i].0, xs[j].0); }
    forall i | 0 <= i < |ys| ensures ys[i] in es { assert xs[i] in xs; }
    forall e | e in es ensures e in ys {
      var k :| k in among && e == (Encode(kind, k), m[k]);
      var i :| 0 <= i < |xs| && xs[i] == (k, m[k]);
      assert ys[i] == e;
    }
  }

  /** The enumeration a typed walk yields is determined by the map and the interval. */
  lemma ListsIsUnique<V>(kind: KeyKind, xs: seq<(Item, V)>, ys: seq<(Item, V)>, m: map<Item, V>, among: set<Item>)
    requires Lists(kind, xs, m, among) && Lists(kind, ys, m, among)
    requires forall k | k in among :: k in m && OfKind(kind, k)
    ensures xs == ys
  {
    hide Encode, OfKind, Before, Lists;
    EncodedListing(kind, xs, m, among);
    EncodedListing(kind, ys, m, among);
    ListingIsUnique(EncodeAll(kind, xs), EncodeAll(kind, ys), EncodeEntries(kind, m, among));
    forall i | 0 <= i < |xs| ensures xs[i] == ys[i] {
      assert EncodeAll(kind, xs)[i] == EncodeAll(kind, ys)[i];
      EncodeInjective(kind, xs[i].0, ys[i].0);
    }
  }

  /** Nothing is listed between equal bounds, and nothing offered. */
  lemma NothingBetween<V>(kind: KeyKind, xs: seq<(Item, V)>, m: map<Item, V>, bound: Item, y: Consumer<(Item, V)>)
    requires Lists(kind, xs, m, Within(kind, m, Some(bound), Some(bound)))
    ensures xs == [] && Feed(y.accept, y.log, xs).log == Feed(y.accept, y.log, Reverse(xs)).log == y.log
  {
    ListedIsAmong(kind, xs, m, Within(kind, m, Some(bound), Some(bound)));
  }

  lemma ListedIsAmong<V>(kind: KeyKind, xs: seq<(Item, V)>, m: map<Item, V>, among: set<Item>)
    requires Lists(kind, xs, m, among)
    ensures xs != [] ==> among != {}
  {
    if xs != [] { assert xs[0] in xs; }
  }

  class Ordered<V> {
    const kind: KeyKind
    const tree: Tree<V>
    /** The map this object stands for */
    ghost var contents: map<Item, V>

    /** The objects that operations on this map may write */
    ghost function Objects(): set<object>
      reads this, tree
    {
      {this, tree} + Foot(tree.shape)
    }

    /** Those, and the prefix buffers it reads */
    ghost function Reach(): set<object>
      reads this, tree
    {
      Objects() + Bufs(tree.shape)
    }

    ghost predicate Valid()
      reads this, tree, Reach()
    {
      tree.Valid() && (this as object) !in Foot(tree.shape) && Represents(kind, contents, tree.contents)
    }

    constructor (kind: KeyKind)
      ensures Valid() && contents == map[] && this.kind == kind && fresh(tree) && Foot(tree.shape) == {}
    {
      hide Tree.Valid;
      this.kind := kind;
      this.tree := new Tree();
      this.contents := map[];
      new;
      NotABuffer();
    }

    /** An object of this class is no part of its tree. */
    lemma NotABuffer()
      ensures {this as object} !! Bufs(tree.shape) && (this as object) != tree
    {
    }

    /** `o.encode(key, buf[:])`, into a buffer of the caller's */
    method Encoding(key: Item) returns (kb: Key)
      requires OfKind(kind, key)
      ensures kb == Encode(kind, key)
    {
      var buf := new byte[8];
      kb := EncodeKey(kind, key, buf);
    }

    method Len() returns (n: int)
      requires Valid()
      ensures n == |contents|
    {
      RepresentsCount(kind, contents, tree.contents);
      n := tree.Len();
    }

    method Put(key: Item, value: V)
      requires Valid() && OfKind(kind, key)
      modifies this, tree, Foot(tree.shape)
      ensures Valid() && contents == old(contents)[key := value]
      ensures fresh(Foot(tree.shape) - old(Foot(tree.shape)))
    {
      hide Tree.Valid, Represents;
      NotABuffer();
      RepresentsPut(kind, contents, tree.contents, key, value);
      TreeIsSeparate(tree);
      var kb := Encoding(key);
      tree.Put(kb, value);
      NotABuffer();
      contents := contents[key := value];
    }

    method Get(key: Item) returns (value: Option<V>)
      requires Valid() && OfKind(kind, key)
      ensures value == if key in contents then Some(contents[key]) else None
    {
      hide Tree.Valid, Represents;
      RepresentsKey(kind, contents, tree.contents, key);
      ghost var visits;
      TreeIsSeparate(tree);
      var kb := Encoding(key);
      value, visits := tree.Get(kb);
    }

    method Delete(key: Item) returns (present: bool)
      requires Valid() && OfKind(kind, key)
      modifies this, tree, Foot(tree.shape)
      ensures Valid() && contents == old(contents) - {key} && (present <==> key in old(contents))
      ensures fresh(Foot(tree.shape) - old(Foot(tree.shape)))
    {
      hide Tree.Valid, Represents;
      RepresentsKey(kind, contents, tree.contents, key);
      RepresentsDelete(kind, contents, tree.contents, key);
      TreeIsSeparate(tree);
      var kb := Encoding(key);
      present := tree.Delete(kb);
      NotABuffer();
      contents := contents - {key};
    }

    method Min() returns (e: Option<(Item, V)>)
      requires Valid()
      ensures First(kind, e, contents, contents.Keys)
    {
      hide Tree.Valid, Represents, Least, First, Matches;
      var raw := tree.Min();
      MatchesAll(kind, contents, tree.contents);
      FirstFromLeast(kind, contents, contents.Keys, tree.contents, Pairs(tree.contents), raw);
      e := if raw.Some? then Some(DecodeEntry(kind, raw.value)) else None;
    }

    method Max() returns (e: Option<(Item, V)>)
      requires Valid()
      ensures Last(kind, e, contents, contents.Keys)
    {
      hide Tree.Valid, Represents, Greatest, Last, Matches;
      var raw := tree.Max();
      MatchesAll(kind, contents, tree.contents);
      LastFromGreatest(kind, contents, contents.Keys, tree.contents, Pairs(tree.contents), raw);
      e := if raw.Some? then Some(DecodeEntry(kind, raw.value)) else None;
    }

    method Ceiling(target: Item) returns (e: Option<(Item, V)>)
      requires Valid() && OfKind(kind, target)
      ensures First(kind, e, contents, NotBelow(kind, contents, target))
    {
      hide Tree.Valid, Represents, Least, First, Matches;
      TreeIsSeparate(tree);
      var kb := Encoding(target);
      var raw := tree.Ceiling(kb);
      ghost var es := AtOrAbove(Pairs(tree.contents), Encode(kind, target));
      MatchesNotBelow(kind, contents, tree.contents, target);
      FirstFromLeast(kind, contents, NotBelow(kind, contents, target), tree.contents, es, raw);
      e := if raw.Some? then Some(DecodeEntry(kind, raw.value)) else None;
    }

    method Floor(target: Item) returns (e: Option<(Item, V)>)
      requires Valid() && OfKind(kind, target)
      ensures Last(kind, e, contents, NotAbove(kind, contents, target))
    {
      hide Tree.Valid, Represents, Greatest, Last, Matches;
      TreeIsSeparate(tree);
      var kb := Encoding(target);
      var raw := tree.Floor(kb);
      ghost var es := AtOrBelow(Pairs(tree.contents), Encode(kind, target));
      MatchesNotAbove(kind, contents, tree.contents, target);
      LastFromGreatest(kind, contents, NotAbove(kind, contents, target), tree.contents, es, raw);
      e := if raw.Some? then Some(DecodeEntry(kind, raw.value)) else None;
    }

    // ---------- Iteration ----------

    /** What the tree lists between two bounds, decoded */
    lemma RangeIsListed(start: Option<Item>, end: Option<Item>, raw: seq<Entry<V>>)
      requires Valid() && BoundsOfKind(kind, start, end)
      requires raw == Window(SortedPairs(tree.contents), EncodeBound(kind, start), EncodeBound(kind, end))
      ensures AllEncoded(kind, raw) && Lists(kind, DecodeAll(kind, raw), contents, Within(kind, contents, start, end))
    {
      hide Tree.Valid, Represents, Lists, Matches, Listing, Within, EncodeBound, Encode, OfKind, AllEncoded;
      var s, e := EncodeBound(kind, start), EncodeBound(kind, end);
      WindowIsListing(SortedPairs(tree.contents), Pairs(tree.contents), s, e);
      MatchesWithin(kind, contents, tree.contents, start, end);
      ListsFromListing(kind, contents, Within(kind, contents, start, end), tree.contents,
                       EntriesWithin(Pairs(tree.contents), s, e), raw);
    }

    /** Everything is the range without bounds. */
    lemma AllIsListed(raw: seq<Entry<V>>)
      requires Valid() && raw == SortedPairs(tree.contents)
      ensures AllEncoded(kind, raw) && Lists(kind, DecodeAll(kind, raw), contents, contents.Keys)
    {
      WindowUnbounded(raw);
      RangeIsListed(None, None, raw);
      assert Within(kind, contents, None, None) == contents.Keys;
    }

    /** The loop over what the tree's iterator gives: each pair is yielded decoded, and a refusal ends the loop. */
    method PassOn(y: Consumer<(Item, V)>, inner: Consumer<Entry<V>>, ghost raw: seq<Entry<V>>)
      requires AllEncoded(kind, raw) && inner.log == Feed(Relay(kind, y.accept, y.log), [], raw).log
      modifies y
      ensures y.log == Feed(y.accept, old(y.log), DecodeAll(kind, raw)).log
    {
      hide Feed, AllEncoded, Relay;
      var offered := inner.log;
      NoneEncoded<V>(kind);
      FeedRelayed(kind, y.accept, y.log, [], raw);
      ghost var typed := DecodeAll(kind, offered);
      assert y.log + [] == y.log;
      FeedAgain(y.accept, y.log, DecodeAll(kind, raw), typed);
      assert typed[0..] == typed;
      for i := 0 to |offered|
        invariant AllEncoded(kind, offered)
        invariant Feed(y.accept, y.log, typed[i..]) == Feed(y.accept, old(y.log), DecodeAll(kind, raw))
      {
        EncodedAt(kind, offered, i);
        assert typed[i..] == [typed[i]] + typed[i + 1..];
        FeedHead(y.accept, y.log, typed[i], typed[i + 1..]);
        var more := y.Yield(DecodeEntry(kind, offered[i]));
        if !more { return; }
      }
      FeedNone(y.accept, y.log);
    }

    /** Every pair, in ascending key order, up to the first refusal */
    method All(y: Consumer<(Item, V)>) returns (ghost xs: seq<(Item, V)>)
      requires Valid() && y !in Foot(tree.shape)
      modifies y
      ensures Lists(kind, xs, contents, contents.Keys)
      ensures y.log == Feed(y.accept, old(y.log), xs).log
    {
      hide Tree.Valid, Represents, Lists, AllEncoded, Feed, Relay, SortedPairs;
      ghost var raw := SortedPairs(tree.contents);
      AllIsListed(raw);
      TreeIsSeparate(tree);
      var inner := new Consumer(Relay(kind, y.accept, y.log));
      tree.All(inner);
      PassOn(y, inner, raw);
      xs := DecodeAll(kind, raw);
    }

    /** Every pair, in descending key order, up to the first refusal */
    method AllDescending(y: Consumer<(Item, V)>) returns (ghost xs: seq<(Item, V)>)
      requires Valid() && y !in Foot(tree.shape)
      modifies y
      ensures Lists(kind, xs, contents, contents.Keys)
      ensures y.log == Feed(y.accept, old(y.log), Reverse(xs)).log
    {
      hide Tree.Valid, Represents, Lists, AllEncoded, Feed, Relay, SortedPairs, Reverse;
      ghost var raw := SortedPairs(tree.contents);
      AllIsListed(raw);
      DecodeReverse(kind, raw);
      TreeIsSeparate(tree);
      var inner := new Consumer(Relay(kind, y.accept, y.log));
      tree.AllDescending(inner);
      PassOn(y, inner, Reverse(raw));
      xs := DecodeAll(kind, raw);
    }

    /** The pairs from `start` up to and without `end`, in ascending key order, up to the first refusal */
    method Range(start: Item, end: Item, y: Consumer<(Item, V)>) returns (ghost xs: seq<(Item, V)>)
      requires Valid() && y !in Foot(tree.shape)
      requires OfKind(kind, start) && OfKind(kind, end) && !Before(kind, end, start)
      modifies y
      ensures Lists(kind, xs, contents, Within(kind, contents, Some(start), Some(end)))
      ensures y.log == Feed(y.accept, old(y.log), xs).log
      ensures start == end ==> y.log == old(y.log)
    {
      hide Tree.Valid, Represents, Lists, AllEncoded, Feed, Relay, Encode, OfKind, Within;
      TreeIsSeparate(tree);
      var sb := Encoding(start);
      var eb := Encoding(end);
      EncodeOrder(kind, end, start);
      LessOrAtMost(eb, sb);
      ghost var raw := Window(SortedPairs(tree.contents), Some(sb), Some(eb));
      RangeIsListed(Some(start), Some(end), raw);
      xs := DecodeAll(kind, raw);
      if start == end { NothingBetween(kind, xs, contents, start, y); }
      var inner := new Consumer(Relay(kind, y.accept, y.log));
      tree.Range(Some(sb), Some(eb), inner);
      PassOn(y, inner, raw);
    }

    method RangeFrom(start: Item, y: Consumer<(Item, V)>) returns (ghost xs: seq<(Item, V)>)
      requires Valid() && y !in Foot(tree.shape) && OfKind(kind, start)
      modifies y
      ensures Lists(kind, xs, contents, Within(kind, contents, Some(start), None))
      ensures y.log == Feed(y.accept, old(y.log), xs).log
    {
      hide Tree.Valid, Represents, Lists, AllEncoded, Feed, Relay, Encode, OfKind, Within;
      TreeIsSeparate(tree);
      var sb := Encoding(start);
      ghost var raw := Window(SortedPairs(tree.contents), Some(sb), None);
      RangeIsListed(Some(start), None, raw);
      var inner := new Consumer(Relay(kind, y.accept, y.log));
      tree.RangeFrom(Some(sb), inner);
      PassOn(y, inner, raw);
      xs := DecodeAll(kind, raw);
    }

    method RangeTo(end: Item, y: Consumer<(Item, V)>) returns (ghost xs: seq<(Item, V)>)
      requires Valid() && y !in Foot(tree.shape) && OfKind(kind, end)
      modifies y
      ensures Lists(kind, xs, contents, Within(kind, contents, None, Some(end)))
      ensures y.log == Feed(y.accept, old(y.log), xs).log
    {
      hide Tree.Valid, Represents, Lists, AllEncoded, Feed, Relay, Encode, OfKind, Within;
      TreeIsSeparate(tree);
      var eb := Encoding(end);
      ghost var raw := Window(SortedPairs(tree.contents), None, Some(eb));
      RangeIsListed(None, Some(end), raw);
      var inner := new Consumer(Relay(kind, y.accept, y.log));
      tree.RangeTo(Some(eb), inner);
      PassOn(y, inner, raw);
      xs := DecodeAll(kind, raw);
    }

    /** The pairs from `start` up to and without `end`, in descending key order, up to the first refusal */
    method RangeDescending(start: Item, end: Item, y: Consumer<(Item, V)>) returns (ghost xs: seq<(Item, V)>)
      requires Valid() && y !in Foot(tree.shape)
      requires OfKind(kind, start) && OfKind(kind, end) && !Before(kind, end, start)
      modifies y
      ensures Lists(kind, xs, contents, Within(kind, contents, Some(start), Some(end)))
      ensures y.log == Feed(y.accept, old(y.log), Reverse(xs)).log
      ensures start == end ==> y.log == old(y.log)
    {
      hide Tree.Valid, Represents, Lists, AllEncoded, Feed, Relay, Encode, OfKind, Within;
      TreeIsSeparate(tree);
      var sb := Encoding(start);
      var eb := Encoding(end);
      EncodeOrder(kind, end, start);
      LessOrAtMost(eb, sb);
      ghost var raw := Window(SortedPairs(tree.contents), Some(sb), Some(eb));
      RangeIsListed(Some(start), Some(end), raw);
      DecodeReverse(kind, raw);
      xs := DecodeAll(kind, raw);
      if start == end { NothingBetween(kind, xs, contents, start, y); }
      var inner := new Consumer(Relay(kind, y.accept, y.log));
      tree.RangeDescending(Some(sb), Some(eb), inner);
      PassOn(y, inner, Reverse(raw));
    }

    method Clone() returns (copy: Ordered<V>)
      requires Valid()
      ensures copy.Valid() && copy.kind == kind && copy.contents == contents && fresh(copy.Objects())
    {
      hide Tree.Valid, Represents;
      var t := tree.Clone();
      copy := new Ordered.Over(kind, t, contents);
    }

    /** `&Ordered[K, V]{tree: tree, kind: kind}` */
    constructor Over(kind: KeyKind, tree: Tree<V>, ghost contents: map<Item, V>)
      requires tree.Valid() && Represents(kind, contents, tree.contents)
      ensures Valid() && this.kind == kind && this.tree == tree && this.contents == contents
    {
      hide Tree.Valid, Represents;
      this.kind := kind;
      this.tree := tree;
      this.contents := contents;
      TreeIsSeparate(tree);
      new;
      NotABuffer();
    }
  }
}
