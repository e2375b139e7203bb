/** Least and greatest entries, and how a node's children determine them. */
module Extremes {
  import opened Bytes
  import opened Tries
  import opened Edits
  import opened Listings
  import opened Windows

  /** `o` is the entry with the least key, or nothing when there is none. */
  ghost predicate Least<V>(o: Option<Entry<V>>, es: set<Entry<V>>) {
    match o
    case None => es == {}
    case Some(e) => e in es && forall f | f in es :: AtMost(e.0, f.0)
  }

  /** `o` is the entry with the greatest key, or nothing when there is none. */
  ghost predicate Greatest<V>(o: Option<Entry<V>>, es: set<Entry<V>>) {
    match o
    case None => es == {}
    case Some(e) => e in es && forall f | f in es :: AtMost(f.0, e.0)
  }

  ghost function AtOrAbove<V>(es: set<Entry<V>>, target: Key): set<Entry<V>> {
    set e | e in es && AtMost(target, e.0)
  }

  ghost function AtOrBelow<V>(es: set<Entry<V>>, target: Key): set<Entry<V>> {
    set e | e in es && AtMost(e.0, target)
  }

  /** `low` holds some entries of `all`, and the rest come after them. */
  ghost predicate LowPart<V>(low: set<Entry<V>>, all: set<Entry<V>>) {
    && low <= all && (low == {} ==> all == {})
    && forall e, f | e in low && f in all && f !in low :: Less(e.0, f.0)
  }

  ghost predicate HighPart<V>(high: set<Entry<V>>, all: set<Entry<V>>) {
    && high <= all && (high == {} ==> all == {})
    && forall e, f | e in high && f in all && f !in high :: Less(f.0, e.0)
  }

  lemma LeastOfLowPart<V>(o: Option<Entry<V>>, low: set<Entry<V>>, all: set<Entry<V>>)
    requires LowPart(low, all) && Least(o, low)
    ensures Least(o, all)
  {
  }

  lemma GreatestOfHighPart<V>(o: Option<Entry<V>>, high: set<Entry<V>>, all: set<Entry<V>>)
    requires HighPart(high, all) && Greatest(o, high)
    ensures Greatest(o, all)
  {
  }

  lemma LowPartTransitive<V>(a: set<Entry<V>>, b: set<Entry<V>>, c: set<Entry<V>>)
    requires LowPart(a, b) && LowPart(b, c)
    ensures LowPart(a, c)
  {
    forall e, f | e in a && f in c && f !in a ensures Less(e.0, f.0) {
      if f in b { assert Less(e.0, f.0); } else { assert e in b; }
    }
  }

  lemma HighPartTransitive<V>(a: set<Entry<V>>, b: set<Entry<V>>, c: set<Entry<V>>)
    requires HighPart(a, b) && HighPart(b, c)
    ensures HighPart(a, c)
  {
    forall e, f | e in a && f in c && f !in a ensures Less(f.0, e.0) {
      if f in b { assert Less(f.0, e.0); } else { assert e in b; }
    }
  }

  // ---------- Inside one node ----------

  lemma AfterTerm<A, V>(t: Trie<A, V>, path: Key, f: Entry<V>)
    requires t.Inner? && Canonical(t, path) && f in Entries(t)
    ensures f in Entries(t.term) || Less(path + t.prefix, f.0)
  {
    EntriesUnderKey(t, path, f);
    PrefixAtMost(path + t.prefix, f.0);
  }

  lemma TermEntry<A, V>(t: Trie<A, V>, path: Key)
    requires t.Inner? && Canonical(t, path) && t.term.Leaf?
    ensures t.term.key == path + t.prefix && Entries(t.term) == {(t.term.key, t.term.value)} <= Entries(t)
  {
  }

  /** The terminal comes before everything below the node. */
  lemma TermIsLow<A, V>(t: Trie<A, V>, path: Key, all: set<Entry<V>>)
    requires t.Inner? && Canonical(t, path) && t.term.Leaf? && all == Entries(t)
    ensures LowPart({(t.term.key, t.term.value)}, all)
  {
    hide Canonical, Entries;
    TermEntry(t, path);
    forall f | f in all && f !in Entries(t.term) ensures Less(t.term.key, f.0) { AfterTerm(t, path, f); }
  }

  /** Where an entry of a node sits */
  lemma EntrySlot<A, V>(t: Trie<A, V>, path: Key, f: Entry<V>)
    requires t.Inner? && Canonical(t, path) && f in Entries(t)
    ensures path + t.prefix <= f.0
    ensures |f.0| == |path + t.prefix| ==> f in Entries(t.term) && t.term.Leaf?
    ensures |f.0| > |path + t.prefix| ==> var c := f.0[|path + t.prefix|]; c in t.kids && f in Entries(t.kids[c])
  {
    EntriesUnderKey(t, path, f);
  }

  lemma KidSlot<A, V>(t: Trie<A, V>, path: Key, b: byte, e: Entry<V>)
    requires t.Inner? && Canonical(t, path) && b in t.kids && e in Entries(t.kids[b])
    ensures path + t.prefix <= e.0 && |e.0| > |path + t.prefix| && e.0[|path + t.prefix|] == b
  {
    EntriesOfKid(t, path, b);
  }

  lemma KidBeforeRest<A, V>(t: Trie<A, V>, path: Key, b: byte, e: Entry<V>, f: Entry<V>)
    requires t.Inner? && Canonical(t, path) && b in t.kids && e in Entries(t.kids[b])
    requires f in Entries(t) && f !in Entries(t.kids[b])
    ensures t.term.Nil? && (forall c | c in t.kids :: b <= c) ==> Less(e.0, f.0)
    ensures (forall c | c in t.kids :: c <= b) ==> Less(f.0, e.0)
  {
    hide Canonical, Entries;
    var here := path + t.prefix;
    EntrySlot(t, path, f);
    KidSlot(t, path, b, e);
    if |f.0| == |here| {
      LessByBranch(here, f.0, e.0);
    } else {
      var c := f.0[|here|];
      if b < c { KidsInOrder(t, path, b, c, e, f); } else if c < b { KidsInOrder(t, path, c, b, f, e); }
    }
  }

  lemma KidEntriesAreSome<A, V>(t: Trie<A, V>, path: Key, b: byte)
    requires t.Inner? && Canonical(t, path) && b in t.kids
    ensures {} != Entries(t.kids[b]) <= Entries(t)
  {
    NonEmpty(t.kids[b], path + t.prefix + [b]);
  }

  /** Without a terminal, the first child's entries come first. */
  lemma FirstKidIsLow<A, V>(t: Trie<A, V>, path: Key, b: byte, low: set<Entry<V>>, all: set<Entry<V>>)
    requires t.Inner? && Canonical(t, path) && t.term.Nil? && b in t.kids && (forall c | c in t.kids :: b <= c)
    requires low == Entries(t.kids[b]) && all == Entries(t)
    ensures LowPart(low, all)
  {
    hide Canonical, Entries;
    KidEntriesAreSome(t, path, b);
    forall e, f | e in low && f in all && f !in low ensures Less(e.0, f.0) { KidBeforeRest(t, path, b, e, f); }
  }

  /** The last child's entries come last. */
  lemma LastKidIsHigh<A, V>(t: Trie<A, V>, path: Key, b: byte, high: set<Entry<V>>, all: set<Entry<V>>)
    requires t.Inner? && Canonical(t, path) && b in t.kids && (forall c | c in t.kids :: c <= b)
    requires high == Entries(t.kids[b]) && all == Entries(t)
    ensures HighPart(high, all)
  {
    hide Canonical, Entries;
    KidEntriesAreSome(t, path, b);
    forall e, f | e in high && f in all && f !in high ensures Less(f.0, e.0) { KidBeforeRest(t, path, b, e, f); }
  }

  // ---------- Around a target ----------

  /** Below a node whose path the target extends, the next byte decides, except under the target's own. */
  lemma AroundTarget<A, V>(t: Trie<A, V>, path: Key, target: Key, e: Entry<V>)
    requires t.Inner? && Canonical(t, path) && path + t.prefix <= target && |path + t.prefix| < |target|
    requires e in Entries(t) && e !in KidEntries(t, target[|path + t.prefix|])
    ensures path + t.prefix <= e.0
    ensures |e.0| == |path + t.prefix| ==> e in Entries(t.term) && Less(e.0, target)
    ensures |e.0| > |path + t.prefix| ==>
              var b, c := target[|path + t.prefix|], e.0[|path + t.prefix|];
              c in t.kids && e in Entries(t.kids[c]) && c != b &&
              (if c < b then Less(e.0, target) else Less(target, e.0))
  {
    hide Canonical, Entries;
    var here := path + t.prefix;
    EntrySlot(t, path, e);
    if |e.0| == |here| || e.0[|here|] < target[|here|] {
      LessByBranch(here, e.0, target);
    } else {
      LessByBranch(here, target, e.0);
    }
  }

  /** Sides of the target, for a node whose path the target properly extends */
  ghost predicate Towards<A, V>(t: Trie<A, V>, path: Key, target: Key, b: byte) {
    && t.Inner? && Canonical(t, path)
    && path + t.prefix <= target && |path + t.prefix| < |target| && b == target[|path + t.prefix|]
  }

  lemma KidOfTowards<A, V>(t: Trie<A, V>, path: Key, target: Key, b: byte, c: byte, e: Entry<V>)
    requires Towards(t, path, target, b) && c in t.kids && e in Entries(t.kids[c])
    ensures e in Entries(t)
    ensures c > b ==> Less(target, e.0)
    ensures c < b ==> Less(e.0, target)
  {
    var here := path + t.prefix;
    EntriesOfKid(t, path, c);
    if c > b { LessByBranch(here, target, e.0); }
    if c < b { LessByBranch(here, e.0, target); }
  }

  /** The ceiling under the target's own edge is the node's ceiling. */
  lemma CeilingInKid<A, V>(t: Trie<A, V>, path: Key, target: Key, b: byte, o: Option<Entry<V>>,
                           kid: set<Entry<V>>, all: set<Entry<V>>)
    requires Towards(t, path, target, b) && kid == KidEntries(t, b) && all == Entries(t)
    requires o.Some? && Least(o, AtOrAbove(kid, target))
    ensures Least(o, AtOrAbove(all, target))
  {
    assert o.value in all;
    forall f | f in AtOrAbove(all, target) ensures AtMost(o.value.0, f.0) {
      if f !in kid {
        AroundTarget(t, path, target, f);
        LessOrAtMost(f.0, target);
        KidsInOrder(t, path, b, f.0[|path + t.prefix|], o.value, f);
      }
    }
  }

  /** With no ceiling under the target's own edge, the next edge's least entry is the ceiling. */
  lemma CeilingInSibling<A, V>(t: Trie<A, V>, path: Key, target: Key, b: byte, c: byte, o: Option<Entry<V>>,
                               kid: set<Entry<V>>, all: set<Entry<V>>)
    requires Towards(t, path, target, b) && kid == KidEntries(t, b) && all == Entries(t)
    requires AtOrAbove(kid, target) == {}
    requires c in t.kids && b < c && (forall d | d in t.kids && b < d :: c <= d) && Least(o, Entries(t.kids[c]))
    ensures Least(o, AtOrAbove(all, target))
  {
    KidEntriesAreSome(t, path, c);
    KidOfTowards(t, path, target, b, c, o.value);
    forall f | f in AtOrAbove(all, target) ensures AtMost(o.value.0, f.0) {
      assert f in kid <==> f in AtOrAbove(kid, target);
      AroundTarget(t, path, target, f);
      LessOrAtMost(f.0, target);
      var d := f.0[|path + t.prefix|];
      if d != c { KidsInOrder(t, path, c, d, o.value, f); }
    }
  }

  lemma NoCeiling<A, V>(t: Trie<A, V>, path: Key, target: Key, b: byte, kid: set<Entry<V>>, all: set<Entry<V>>)
    requires Towards(t, path, target, b) && kid == KidEntries(t, b) && all == Entries(t)
    requires AtOrAbove(kid, target) == {} && forall d | d in t.kids :: d <= b
    ensures AtOrAbove(all, target) == {}
  {
    forall f | f in AtOrAbove(all, target) ensures false {
      assert f in kid <==> f in AtOrAbove(kid, target);
      AroundTarget(t, path, target, f);
      LessOrAtMost(f.0, target);
    }
  }

  /** The floor under the target's own edge is the node's floor. */
  lemma FloorInKid<A, V>(t: Trie<A, V>, path: Key, target: Key, b: byte, o: Option<Entry<V>>,
                         kid: set<Entry<V>>, all: set<Entry<V>>)
    requires Towards(t, path, target, b) && kid == KidEntries(t, b) && all == Entries(t)
    requires o.Some? && Greatest(o, AtOrBelow(kid, target))
    ensures Greatest(o, AtOrBelow(all, target))
  {
    assert o.value in all;
    forall f | f in AtOrBelow(all, target) ensures AtMost(f.0, o.value.0) {
      if f !in kid {
        AroundTarget(t, path, target, f);
        LessOrAtMost(target, f.0);
        if |f.0| == |path + t.prefix| {
          AfterTerm(t, path, o.value);
          KidEntryIsLonger(t, path, b, o.value);
        } else {
          KidsInOrder(t, path, f.0[|path + t.prefix|], b, f, o.value);
        }
      }
    }
  }

  lemma KidEntryIsLonger<A, V>(t: Trie<A, V>, path: Key, b: byte, e: Entry<V>)
    requires t.Inner? && Canonical(t, path) && b in t.kids && e in Entries(t.kids[b])
    ensures e !in Entries(t.term) && Less(path + t.prefix, e.0)
  {
    EntriesOfKid(t, path, b);
    PrefixAtMost(path + t.prefix, e.0);
  }

  /** With no floor under the target's own edge, the previous edge's greatest entry is the floor. */
  lemma FloorInSibling<A, V>(t: Trie<A, V>, path: Key, target: Key, b: byte, c: byte, o: Option<Entry<V>>,
                             kid: set<Entry<V>>, all: set<Entry<V>>)
    requires Towards(t, path, target, b) && kid == KidEntries(t, b) && all == Entries(t)
    requires AtOrBelow(kid, target) == {}
    requires c in t.kids && c < b && (forall d | d in t.kids && d < b :: d <= c) && Greatest(o, Entries(t.kids[c]))
    ensures Greatest(o, AtOrBelow(all, target))
  {
    KidEntriesAreSome(t, path, c);
    KidOfTowards(t, path, target, b, c, o.value);
    KidEntryIsLonger(t, path, c, o.value);
    forall f | f in AtOrBelow(all, target) ensures AtMost(f.0, o.value.0) {
      assert f in kid <==> f in AtOrBelow(kid, target);
      AroundTarget(t, path, target, f);
      LessOrAtMost(target, f.0);
      if |f.0| > |path + t.prefix| {
        var d := f.0[|path + t.prefix|];
        if d != c { KidsInOrder(t, path, d, c, f, o.value); }
      }
    }
  }

  /** With nothing under the edges up to the target's own, only the terminal can be the floor. */
  lemma FloorAtTerm<A, V>(t: Trie<A, V>, path: Key, target: Key, b: byte, kid: set<Entry<V>>, all: set<Entry<V>>)
    requires Towards(t, path, target, b) && kid == KidEntries(t, b) && all == Entries(t)
    requires AtOrBelow(kid, target) == {} && forall d | d in t.kids :: d >= b
    ensures Greatest(if t.term.Leaf? then Some((t.term.key, t.term.value)) else None, AtOrBelow(all, target))
  {
    forall f | f in AtOrBelow(all, target) ensures f in Entries(t.term) {
      assert f in kid <==> f in AtOrBelow(kid, target);
      AroundTarget(t, path, target, f);
      LessOrAtMost(target, f.0);
    }
    if t.term.Leaf? {
      TermEntry(t, path);
      PrefixAtMost(path + t.prefix, target);
    }
  }

  /** A node on the target's own path: its terminal is the only entry at or below the target. */
  lemma FloorHere<A, V>(t: Trie<A, V>, path: Key, target: Key, all: set<Entry<V>>)
    requires t.Inner? && Canonical(t, path) && target == path + t.prefix && all == Entries(t)
    ensures Greatest(if t.term.Leaf? then Some((t.term.key, t.term.value)) else None, AtOrBelow(all, target))
  {
    forall f | f in AtOrBelow(all, target) ensures f in Entries(t.term) {
      AfterTerm(t, path, f);
      LessOrAtMost(target, f.0);
    }
    if t.term.Leaf? { TermEntry(t, path); }
  }

  // ---------- Whole subtrees on one side of the target ----------

  lemma AllAbove<A, V>(t: Trie<A, V>, path: Key, target: Key, all: set<Entry<V>>)
    requires t.Inner? && Canonical(t, path) && all == Entries(t)
    requires target <= path + t.prefix || (Less(target, path + t.prefix) && !(target <= path + t.prefix))
    ensures AtOrAbove(all, target) == all
    ensures target != path + t.prefix ==> AtOrBelow(all, target) == {}
  {
    forall f | f in all ensures AtMost(target, f.0) && (target != path + t.prefix ==> Less(target, f.0)) {
      EntriesUnderKey(t, path, f);
      if target <= path + t.prefix {
        PrefixAtMost(target, f.0);
      } else {
        LessStaysUnderExtension(target, path + t.prefix, target, f.0);
      }
    }
    forall f | f in AtOrBelow(all, target) ensures target == path + t.prefix { LessOrAtMost(target, f.0); }
  }

  lemma AllBelow<A, V>(t: Trie<A, V>, path: Key, target: Key, all: set<Entry<V>>)
    requires t.Inner? && Canonical(t, path) && all == Entries(t)
    requires Less(path + t.prefix, target) && !(path + t.prefix <= target)
    ensures AtOrBelow(all, target) == all && AtOrAbove(all, target) == {}
  {
    forall f | f in all ensures Less(f.0, target) {
      EntriesUnderKey(t, path, f);
      LessStaysUnderExtension(path + t.prefix, target, f.0, target);
    }
    forall f | f in AtOrAbove(all, target) ensures false { LessOrAtMost(f.0, target); }
  }

  // ---------- Extremes and enumerations ----------

  /** Min and Max are the first and the last entry of an enumeration. */
  lemma MinIsFirst<V>(xs: seq<Entry<V>>, es: set<Entry<V>>, o: Option<Entry<V>>)
    requires Listing(xs, es) && Least(o, es)
    ensures o == if xs == [] then None else Some(xs[0])
  {
    if xs != [] {
      assert xs[0] in es;
      AtMostLater(xs, o.value);
      LessOrAtMost(xs[0].0, o.value.0);
      SameKeySameEntry(xs, xs[0], o.value);
    }
  }

  lemma MaxIsLast<V>(xs: seq<Entry<V>>, es: set<Entry<V>>, o: Option<Entry<V>>)
    requires Listing(xs, es) && Greatest(o, es)
    ensures o == if xs == [] then None else Some(xs[|xs| - 1])
  {
    if xs != [] {
      assert xs[|xs| - 1] in es;
      AtMostLater(xs, o.value);
      LessOrAtMost(o.value.0, xs[|xs| - 1].0);
      SameKeySameEntry(xs, xs[|xs| - 1], o.value);
    }
  }

  lemma SameKeySameEntry<V>(xs: seq<Entry<V>>, e: Entry<V>, f: Entry<V>)
    requires KeysAscend(xs) && e in xs && f in xs && e.0 == f.0
    ensures e == f
  {
    LessIrreflexive(e.0);
  }

  /** Ceiling is the first entry of the range from the target on. */
  lemma CeilingIsFirstInRange<V>(xs: seq<Entry<V>>, es: set<Entry<V>>, target: Key, o: Option<Entry<V>>)
    requires Listing(xs, es) && Least(o, AtOrAbove(es, target))
    ensures var ys := Window(xs, Some(target), None); o == if ys == [] then None else Some(ys[0])
  {
    WindowIsListing(xs, es, Some(target), None);
    var inside := EntriesWithin(es, Some(target), None);
    forall e | e in es ensures e in inside <==> e in AtOrAbove(es, target) { LessOrAtMost(e.0, target); }
    assert inside == AtOrAbove(es, target);
    MinIsFirst(Window(xs, Some(target), None), inside, o);
  }

  /** Floor is the target's own entry, or else the last entry of the range up to the target. */
  lemma FloorIsLastInRange<V>(xs: seq<Entry<V>>, es: set<Entry<V>>, target: Key, o: Option<Entry<V>>)
    requires Listing(xs, es) && Greatest(o, AtOrBelow(es, target))
    ensures (exists e :: e in es && e.0 == target) <==> o.Some? && o.value.0 == target
    ensures !(o.Some? && o.value.0 == target) ==>
              var ys := Window(xs, None, Some(target)); o == if ys == [] then None else Some(ys[|ys| - 1])
  {
    forall e | e in es && e.0 == target ensures o.Some? && o.value.0 == target {
      assert e in AtOrBelow(es, target);
      LessOrAtMost(o.value.0, target);
    }
    if !(o.Some? && o.value.0 == target) {
      WindowIsListing(xs, es, None, Some(target));
      var inside := EntriesWithin(es, None, Some(target));
      forall e | e in es ensures e in inside <==> e in AtOrBelow(es, target) { assert e.0 != target; }
      assert inside == AtOrBelow(es, target);
      MaxIsLast(Window(xs, None, Some(target)), inside, o);
    }
  }
}
