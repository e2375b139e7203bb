/**
 * In-order enumeration, and what it is an enumeration of.
 *
 * `Flat` is the order in which the forward walk meets the entries. A `Listing` is the plain
 * specification: every entry once, keys strictly ascending.
 */
module Listings {
  import opened Bytes
  import opened Tries

  // ---------- Listings ----------

  /** Keys strictly ascending */
  ghost predicate KeysAscend<V>(xs: seq<Entry<V>>) {
    forall i, j | 0 <= i < j < |xs| :: Less(xs[i].0, xs[j].0)
  }

  ghost predicate Listing<V>(xs: seq<Entry<V>>, es: set<Entry<V>>) {
    KeysAscend(xs) && (forall e | e in xs :: e in es) && (forall e | e in es :: e in xs)
  }

  lemma {:induction false} ListingLength<V>(xs: seq<Entry<V>>, es: set<Entry<V>>)
    requires Listing(xs, es)
    ensures |xs| == |es|
  {
    if xs == [] {
      assert forall e :: e !in es;
    } else {
      var last := |xs| - 1;
      forall i | 0 <= i < last ensures xs[i] != xs[last] { LessIrreflexive(xs[i].0); }
      assert xs == xs[..last] + [xs[last]];
      ListingLength(xs[..last], es - {xs[last]});
    }
  }

  /** A set of entries has only one listing. */
  lemma {:induction false} ListingIsUnique<V>(xs: seq<Entry<V>>, ys: seq<Entry<V>>, es: set<Entry<V>>)
    requires Listing(xs, es) && Listing(ys, es)
    ensures xs == ys
  {
    ListingLength(xs, es);
    ListingLength(ys, es);
    if xs != [] {
      assert xs[0] in es && ys[0] in es;
      var i :| 0 <= i < |xs| && xs[i] == ys[0];
      var j :| 0 <= j < |ys| && ys[j] == xs[0];
      if i > 0 && j > 0 { LessAsymmetric(xs[0].0, xs[i].0); }
      ListingTail(xs, es);
      ListingTail(ys, es);
      ListingIsUnique(xs[1..], ys[1..], es - {xs[0]});
    }
  }

  lemma ListingTail<V>(xs: seq<Entry<V>>, es: set<Entry<V>>)
    requires Listing(xs, es) && xs != []
    ensures Listing(xs[1..], es - {xs[0]})
  {
    forall i | 0 < i < |xs| ensures xs[i] != xs[0] { LessIrreflexive(xs[i].0); }
    assert xs == [xs[0]] + xs[1..];
  }

  ghost predicate UniqueKeys<V>(es: set<Entry<V>>) {
    forall e, f | e in es && f in es && e.0 == f.0 :: e == f
  }

  /** `e` put in its place among `xs` */
  ghost function Placed<V>(xs: seq<Entry<V>>, e: Entry<V>): seq<Entry<V>> {
    if xs == [] then [e]
    else if Less(e.0, xs[0].0) then [e] + xs
    else [xs[0]] + Placed(xs[1..], e)
  }

  lemma {:induction false} PlacedLists<V>(xs: seq<Entry<V>>, e: Entry<V>)
    requires KeysAscend(xs) && forall x | x in xs :: x.0 != e.0
    ensures KeysAscend(Placed(xs, e)) && e in Placed(xs, e)
    ensures forall x | x in Placed(xs, e) :: x in xs || x == e
    ensures forall x | x in xs :: x in Placed(xs, e)
  {
    if xs != [] {
      var rest := Placed(xs[1..], e);
      PlacedLists(xs[1..], e);
      assert xs == [xs[0]] + xs[1..];
      if Less(e.0, xs[0].0) {
        forall x | x in xs ensures Less(e.0, x.0) { AtMostLater(xs, x); LessAtMost(e.0, xs[0].0, x.0); }
        AscendConcat([e], xs);
      } else {
        LessTotal(e.0, xs[0].0);
        forall x | x in rest ensures Less(xs[0].0, x.0) {
          if x != e { LaterIsGreater(xs, x); }
        }
        AscendConcat([xs[0]], rest);
      }
    }
  }

  lemma LaterIsGreater<V>(xs: seq<Entry<V>>, x: Entry<V>)
    requires KeysAscend(xs) && xs != [] && x in xs[1..]
    ensures Less(xs[0].0, x.0)
  {
    var i :| 0 <= i < |xs[1..]| && xs[1..][i] == x;
    assert xs[i + 1] == x;
  }

  lemma AtMostLater<V>(xs: seq<Entry<V>>, x: Entry<V>)
    requires KeysAscend(xs) && x in xs
    ensures AtMost(xs[0].0, x.0) && AtMost(x.0, xs[|xs| - 1].0)
  {
    var i :| 0 <= i < |xs| && xs[i] == x;
  }

  lemma AscendConcat<V>(xs: seq<Entry<V>>, ys: seq<Entry<V>>)
    requires KeysAscend(xs) && KeysAscend(ys)
    requires forall x, y | x in xs && y in ys :: Less(x.0, y.0)
    ensures KeysAscend(xs + ys)
  {
  }

  lemma {:induction false} ListingExists<V>(es: set<Entry<V>>)
    requires UniqueKeys(es)
    ensures exists xs :: Listing(xs, es)
  {
    if es == {} {
      assert Listing<V>([], es);
    } else {
      var e :| e in es;
      ListingExists(es - {e});
      var xs :| Listing(xs, es - {e});
      PlacedLists(xs, e);
      assert Listing(Placed(xs, e), es);
    }
  }

  /** The entries of a map in ascending key order, each once */
  ghost function InOrder<V>(es: set<Entry<V>>): (xs: seq<Entry<V>>)
    requires UniqueKeys(es)
    ensures Listing(xs, es)
  {
    ListingExists(es);
    var xs :| Listing(xs, es);
    xs
  }

  /** The entries of `m`, sorted by key */
  ghost function SortedPairs<V>(m: map<Key, V>): (xs: seq<Entry<V>>)
    ensures Listing(xs, Pairs(m)) && |xs| == |m|
  {
    var es := Pairs(m);
    assert UniqueKeys(es);
    ListingLength(InOrder(es), es);
    PairsCount(m);
    InOrder(es)
  }

  lemma {:induction false} PairsCount<V>(m: map<Key, V>)
    ensures |Pairs(m)| == |m|
  {
    var es := Pairs(m);
    if m.Keys == {} {
      assert es == {};
    } else {
      var k :| k in m.Keys;
      var rest := m - {k};
      PairsCount(rest);
      assert rest.Keys == m.Keys - {k};
      assert es == Pairs(rest) + {(k, m[k])} by {
        forall e | e in es ensures e in Pairs(rest) + {(k, m[k])} {
          if e.0 != k { assert e.0 in rest && e == (e.0, rest[e.0]); }
        }
        forall e | e in Pairs(rest) ensures e in es { assert e.0 in m && e == (e.0, m[e.0]); }
        assert k in m;
      }
    }
  }

  // ---------- The order of the walk ----------

  ghost function TermEntries<A, V>(term: Trie<A, V>): seq<Entry<V>> {
    if term.Leaf? then [(term.key, term.value)] else []
  }

  /** The entries of `t` in the order of the forward walk: terminal first, then children by edge */
  ghost function Flat<A, V>(t: Trie<A, V>): seq<Entry<V>>
    decreases t, 1, 0
  {
    match t
    case Nil => []
    case Leaf(_, key, value) => [(key, value)]
    case Inner(_, _, _, term, kids) => TermEntries(term) + FlatOver(t, Sorted(kids.Keys))
  }

  ghost function FlatOver<A, V>(t: Trie<A, V>, bs: seq<byte>): seq<Entry<V>>
    requires t.Inner?
    decreases t, 0, |bs|
  {
    if bs == [] then [] else (if bs[0] in t.kids then Flat(t.kids[bs[0]]) else []) + FlatOver(t, bs[1..])
  }

  lemma {:induction false} FlatOverAppend<A, V>(t: Trie<A, V>, bs: seq<byte>, cs: seq<byte>)
    requires t.Inner?
    ensures FlatOver(t, bs + cs) == FlatOver(t, bs) + FlatOver(t, cs)
    decreases |bs|
  {
    if bs == [] {
      assert bs + cs == cs;
    } else {
      assert (bs + cs)[1..] == bs[1..] + cs;
      FlatOverAppend(t, bs[1..], cs);
    }
  }

  // ---------- The walk lists the entries ----------

  lemma {:induction false} FlatMembers<A, V>(t: Trie<A, V>, path: Key)
    requires Canonical(t, path)
    ensures forall e :: e in Flat(t) <==> e in Entries(t)
    decreases t, 1, 0
  {
    if t.Inner? {
      var bs := Sorted(t.kids.Keys);
      SortedFromMembers(t.kids.Keys, 0);
      forall e ensures e in FlatOver(t, bs) <==> exists b :: b in t.kids && e in Entries(t.kids[b]) {
        FlatOverMembers(t, path, bs, e);
      }
      hide Canonical, FlatOver;
    }
  }

  lemma {:induction false} FlatOverMembers<A, V>(t: Trie<A, V>, path: Key, bs: seq<byte>, e: Entry<V>)
    requires t.Inner? && Canonical(t, path)
    ensures e in FlatOver(t, bs) <==> exists b :: b in bs && b in t.kids && e in Entries(t.kids[b])
    decreases t, 0, |bs|
  {
    if bs != [] {
      FlatOverMembers(t, path, bs[1..], e);
      if bs[0] in t.kids { FlatMembers(t.kids[bs[0]], path + t.prefix + [bs[0]]); }
      assert forall b :: b in bs <==> b == bs[0] || b in bs[1..];
    }
  }

  lemma {:induction false} FlatAscends<A, V>(t: Trie<A, V>, path: Key)
    requires Canonical(t, path)
    ensures KeysAscend(Flat(t))
    decreases t, 1, 0
  {
    if t.Inner? {
      var bs := Sorted(t.kids.Keys);
      SortedFromAscending(t.kids.Keys, 0);
      FlatOverAscends(t, path, bs);
      forall x, y | x in TermEntries(t.term) && y in FlatOver(t, bs) ensures Less(x.0, y.0) {
        TermIsFirst(t, path, bs, y);
      }
      AscendConcat(TermEntries(t.term), FlatOver(t, bs));
    }
  }

  lemma TermIsFirst<A, V>(t: Trie<A, V>, path: Key, bs: seq<byte>, y: Entry<V>)
    requires t.Inner? && Canonical(t, path) && y in FlatOver(t, bs)
    ensures Less(path + t.prefix, y.0)
  {
    var here := path + t.prefix;
    FlatOverMembers(t, path, bs, y);
    var b :| b in bs && b in t.kids && y in Entries(t.kids[b]);
    EntriesOfKid(t, path, b);
    PrefixAtMost(here, y.0);
  }

  /** Everything under edge `b` comes before everything under a later edge. */
  lemma KidsInOrder<A, V>(t: Trie<A, V>, path: Key, b: byte, c: byte, x: Entry<V>, y: Entry<V>)
    requires t.Inner? && Canonical(t, path) && b in t.kids && c in t.kids && b < c
    requires x in Entries(t.kids[b]) && y in Entries(t.kids[c])
    ensures Less(x.0, y.0)
  {
    EntriesOfKid(t, path, b);
    EntriesOfKid(t, path, c);
    LessByBranch(path + t.prefix, x.0, y.0);
  }

  lemma {:induction false} FlatOverAscends<A, V>(t: Trie<A, V>, path: Key, bs: seq<byte>)
    requires t.Inner? && Canonical(t, path) && Ascending(bs)
    ensures KeysAscend(FlatOver(t, bs))
    decreases t, 0, |bs|
  {
    if bs != [] {
      FlatOverAscends(t, path, bs[1..]);
      if bs[0] in t.kids {
        var first, rest := Flat(t.kids[bs[0]]), FlatOver(t, bs[1..]);
        FlatAscends(t.kids[bs[0]], path + t.prefix + [bs[0]]);
        forall x, y | x in first && y in rest ensures Less(x.0, y.0) { FirstKidFirst(t, path, bs, x, y); }
        AscendConcat(first, rest);
      }
    }
  }

  lemma FirstKidFirst<A, V>(t: Trie<A, V>, path: Key, bs: seq<byte>, x: Entry<V>, y: Entry<V>)
    requires t.Inner? && Canonical(t, path) && Ascending(bs) && bs != [] && bs[0] in t.kids
    requires x in Flat(t.kids[bs[0]]) && y in FlatOver(t, bs[1..])
    ensures Less(x.0, y.0)
  {
    FlatMembers(t.kids[bs[0]], path + t.prefix + [bs[0]]);
    FlatOverMembers(t, path, bs[1..], y);
    var c :| c in bs[1..] && c in t.kids && y in Entries(t.kids[c]);
    var i :| 1 <= i < |bs| && bs[i] == c;
    AscendingPair(bs, 0, i);
    KidsInOrder(t, path, bs[0], c, x, y);
  }

  lemma AscendingMembers<V>(xs: seq<Entry<V>>, es: set<Entry<V>>)
    requires KeysAscend(xs) && forall e :: e in xs <==> e in es
    ensures Listing(xs, es) && |xs| == |es|
  {
    ListingLength(xs, es);
  }

  /** The forward walk enumerates the entries exactly once each, in ascending key order. */
  lemma FlatIsListing<A, V>(t: Trie<A, V>, path: Key)
    requires Canonical(t, path)
    ensures Listing(Flat(t), Entries(t)) && |Flat(t)| == |Entries(t)|
  {
    FlatMembers(t, path);
    FlatAscends(t, path);
    hide Flat, Entries, Canonical;
    AscendingMembers(Flat(t), Entries(t));
  }

  // ---------- Space ----------

  /** The number of inner nodes */
  ghost function InnerNodes<A, V>(t: Trie<A, V>): nat
    decreases t, 1, 0
  {
    if t.Inner? then 1 + InnerNodesOver(t, Sorted(t.kids.Keys)) else 0
  }

  ghost function InnerNodesOver<A, V>(t: Trie<A, V>, bs: seq<byte>): nat
    requires t.Inner?
    decreases t, 0, |bs|
  {
    if bs == [] then 0 else (if bs[0] in t.kids then InnerNodes(t.kids[bs[0]]) else 0) + InnerNodesOver(t, bs[1..])
  }

  lemma {:induction false} SortedFromLength(s: set<byte>, lo: nat)
    requires lo <= 256
    ensures |SortedFrom(s, lo)| == |set b | b in s && b >= lo|
    decreases 256 - lo
  {
    if lo == 256 {
      assert (set b | b in s && b >= lo) == {};
    } else {
      SortedFromLength(s, lo + 1);
      var above := set b | b in s && b >= lo + 1;
      assert (set b | b in s && b >= lo) == above + (if lo in s then {lo} else {});
    }
  }

  lemma SortedLength(s: set<byte>)
    ensures |Sorted(s)| == |s|
  {
    SortedFromLength(s, 0);
    assert (set b | b in s && b >= 0) == s;
  }

  /** At most one inner node fewer than entries, in every canonical tree. */
  lemma {:induction false} SpaceBound<A, V>(t: Trie<A, V>, path: Key)
    requires Canonical(t, path) && t != Nil
    ensures InnerNodes(t) <= |Flat(t)| - 1
    decreases t, 1, 0
  {
    if t.Inner? {
      var bs := Sorted(t.kids.Keys);
      SortedFromMembers(t.kids.Keys, 0);
      SpaceBoundOver(t, path, bs);
      SortedLength(t.kids.Keys);
      assert |t.kids.Keys| == |t.kids|;
      assert |bs| + |TermEntries(t.term)| >= 2;
      hide Canonical, FlatOver, InnerNodesOver, SortedFrom;
    }
  }

  lemma {:induction false} SpaceBoundOver<A, V>(t: Trie<A, V>, path: Key, bs: seq<byte>)
    requires t.Inner? && Canonical(t, path) && forall b | b in bs :: b in t.kids
    ensures InnerNodesOver(t, bs) + |bs| <= |FlatOver(t, bs)|
    decreases t, 0, |bs|
  {
    if bs != [] {
      assert bs[0] in t.kids;
      SpaceBound(t.kids[bs[0]], path + t.prefix + [bs[0]]);
      SpaceBoundOver(t, path, bs[1..]);
    }
  }

  // ---------- Size classes ----------

  predicate InClass(kind: Kind, n: nat) {
    match kind
    case K4 => 1 <= n <= 4
    case K16 => 5 <= n <= 16
    case K48 => 17 <= n <= 48
    case K256 => 49 <= n <= 256
  }

  /** Every inner node holds as many children as its kind is for, and separates at least two keys. */
  ghost predicate Sized<A, V>(t: Trie<A, V>) {
    t.Inner? ==>
      && InClass(t.kind, |t.kids|) && |t.kids| + TermCount(t.term) >= 2
      && forall b | b in t.kids :: Sized(t.kids[b])
  }

  lemma {:induction false} CanonicalIsSized<A, V>(t: Trie<A, V>, path: Key)
    requires Canonical(t, path)
    ensures Sized(t)
    decreases t
  {
    if t.Inner? {
      BytesAreFew(t.kids.Keys);
      assert |t.kids| == |t.kids.Keys|;
      forall b | b in t.kids ensures Sized(t.kids[b]) { CanonicalIsSized(t.kids[b], path + t.prefix + [b]); }
    }
  }
}
