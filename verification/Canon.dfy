/**
 * The shape of a tree is a function of its entries.
 *
 * `Describes` is the canonical trie of a set of entries, told without reference to any operation:
 * longest common prefixes, a terminal where that prefix is itself a key, one child per next byte,
 * and the smallest node kind that fits.
 */
module Canon {
  import opened Bytes
  import opened Tries
  import opened Edits
  import opened Listings

  ghost predicate CommonPrefix<V>(p: Key, es: set<Entry<V>>) {
    forall e | e in es :: p <= e.0
  }

  ghost predicate LongestCommonPrefixOf<V>(p: Key, es: set<Entry<V>>) {
    CommonPrefix(p, es) && forall q | CommonPrefix(q, es) :: |q| <= |p|
  }

  /** The entries below `p` */
  ghost function Group<V>(es: set<Entry<V>>, p: Key): set<Entry<V>> {
    set e | e in es && p <= e.0
  }

  /** The bytes with which keys continue after `p` */
  ghost function NextBytes<V>(es: set<Entry<V>>, p: Key): set<byte> {
    set e | e in es && p <= e.0 && |e.0| > |p| :: e.0[|p|]
  }

  /** `t` is the canonical trie of the entries `es`, all of which lie below `path`. */
  ghost predicate Describes<A, V>(t: Trie<A, V>, es: set<Entry<V>>, path: Key) {
    match t
    case Nil => es == {}
    case Leaf(_, key, value) => es == {(key, value)} && path <= key
    case Inner(_, kind, prefix, term, kids) =>
      var here := path + prefix;
      && |es| >= 2
      && LongestCommonPrefixOf(here, es)
      && (term.Nil? || (term.Leaf? && term.key == here))
      && (forall e | e in es && e.0 == here :: term.Leaf? && term.value == e.1)
      && (term.Leaf? ==> (here, term.value) in es)
      && kids.Keys == NextBytes(es, here)
      && kind == KindFor(|NextBytes(es, here)|)
      && forall b | b in kids :: Describes(kids[b], Group(es, here + [b]), here + [b])
  }

  /** Equal up to the annotations */
  ghost predicate SameShape<A, B, V>(t: Trie<A, V>, u: Trie<B, V>) {
    match t
    case Nil => u.Nil?
    case Leaf(_, key, value) => u.Leaf? && u.key == key && u.value == value
    case Inner(_, kind, prefix, term, kids) =>
      && u.Inner? && u.kind == kind && u.prefix == prefix
      && SameShape(term, u.term)
      && u.kids.Keys == kids.Keys
      && forall b | b in kids :: SameShape(kids[b], u.kids[b])
  }

  // ---------- Canonical tries are described by their entries ----------

  lemma TwoEntries<V>(es: set<Entry<V>>, e: Entry<V>, f: Entry<V>)
    requires e in es && f in es && e != f
    ensures |es| >= 2
  {
    assert |{e, f}| == 2;
    assert {e, f} <= es;
    SubsetCard({e, f}, es);
  }

  lemma SubsetCard<T>(s: set<T>, r: set<T>)
    requires s <= r
    ensures |s| <= |r|
  {
    assert r == s + (r - s);
  }

  /** Some entry of an inner node does not continue with `b`. */
  lemma NotAllUnder<A, V>(t: Trie<A, V>, path: Key, b: byte) returns (e: Entry<V>)
    requires t.Inner? && Canonical(t, path)
    ensures e in Entries(t) && !(path + t.prefix + [b] <= e.0)
  {
    var here := path + t.prefix;
    if t.term.Leaf? {
      e := (t.term.key, t.term.value);
    } else {
      assert |t.kids.Keys| == |t.kids| >= 2;
      assert t.kids.Keys - {b} != {} by {
        if t.kids.Keys - {b} == {} { SubsetCard(t.kids.Keys, {b}); }
      }
      var c :| c in t.kids.Keys - {b};
      NonEmpty(t.kids[c], here + [c]);
      e :| e in Entries(t.kids[c]);
      EntriesOfKid(t, path, c);
      NextByte(here, e.0);
    }
  }

  lemma LongerIsNotCommon<A, V>(t: Trie<A, V>, path: Key, q: Key)
    requires t.Inner? && Canonical(t, path) && |q| > |path + t.prefix|
    ensures exists e :: e in Entries(t) && !(q <= e.0)
  {
    var here := path + t.prefix;
    var b := q[|here|];
    var e := NotAllUnder(t, path, b);
    EntriesUnderNode(t, path, e);
    hide Canonical, Entries;
    if q <= e.0 { NextByte(here, e.0); }
  }

  lemma NodePathIsLongest<A, V>(t: Trie<A, V>, path: Key, es: set<Entry<V>>)
    requires t.Inner? && Canonical(t, path) && es == Entries(t)
    ensures LongestCommonPrefixOf(path + t.prefix, es)
  {
    hide Canonical, Entries;
    forall e | e in es ensures path + t.prefix <= e.0 { EntriesUnderNode(t, path, e); }
    forall q | CommonPrefix(q, es) ensures |q| <= |path + t.prefix| {
      if |q| > |path + t.prefix| { LongerIsNotCommon(t, path, q); }
    }
  }

  lemma EntriesUnderNode<A, V>(t: Trie<A, V>, path: Key, e: Entry<V>)
    requires t.Inner? && Canonical(t, path) && e in Entries(t)
    ensures path + t.prefix <= e.0
  {
    EntriesUnderKey(t, path, e);
  }

  lemma GroupIsKid<A, V>(t: Trie<A, V>, path: Key, b: byte, es: set<Entry<V>>, kid: set<Entry<V>>)
    requires t.Inner? && Canonical(t, path) && b in t.kids && es == Entries(t) && kid == Entries(t.kids[b])
    ensures Group(es, path + t.prefix + [b]) == kid
  {
    var p := path + t.prefix + [b];
    forall e: Entry<V> ensures e in es && p <= e.0 <==> e in kid {
      EntriesOfKid(t, path, b);
      if p <= e.0 { KeyInKid(t, path, b, e); }
    }
  }

  lemma NextBytesAreKids<A, V>(t: Trie<A, V>, path: Key, es: set<Entry<V>>)
    requires t.Inner? && Canonical(t, path) && es == Entries(t)
    ensures NextBytes(es, path + t.prefix) == t.kids.Keys
  {
    var here := path + t.prefix;
    forall b | b in NextBytes(es, here) ensures b in t.kids {
      var e :| e in es && here <= e.0 && |e.0| > |here| && e.0[|here|] == b;
      EntriesUnderKey(t, path, e);
    }
    forall b | b in t.kids ensures b in NextBytes(es, here) {
      NonEmpty(t.kids[b], here + [b]);
      var e :| e in Entries(t.kids[b]);
      EntriesOfKid(t, path, b);
      assert e in es && here <= e.0 && |e.0| > |here| && e.0[|here|] == b;
    }
  }

  lemma AtLeastTwoEntries<A, V>(t: Trie<A, V>, path: Key)
    requires t.Inner? && Canonical(t, path)
    ensures |Entries(t)| >= 2
  {
    var here := path + t.prefix;
    assert |t.kids.Keys| == |t.kids| >= 1;
    var b :| b in t.kids.Keys;
    NonEmpty(t.kids[b], here + [b]);
    var e :| e in Entries(t.kids[b]);
    EntriesOfKid(t, path, b);
    var f := NotAllUnder(t, path, b);
    TwoEntries(Entries(t), e, f);
  }

  lemma {:induction false} CanonicalIsDescribed<A, V>(t: Trie<A, V>, path: Key)
    requires Canonical(t, path)
    ensures Describes(t, Entries(t), path)
    decreases t
  {
    if t.Inner? {
      var here, es := path + t.prefix, Entries(t);
      NodeIsDescribed(t, path, es);
      forall b | b in t.kids ensures Describes(t.kids[b], Group(es, here + [b]), here + [b]) {
        CanonicalIsDescribed(t.kids[b], here + [b]);
        GroupIsKid(t, path, b, es, Entries(t.kids[b]));
      }
      hide Canonical, Entries, LongestCommonPrefixOf, NextBytes, Group;
    }
  }

  lemma NodeIsDescribed<A, V>(t: Trie<A, V>, path: Key, es: set<Entry<V>>)
    requires t.Inner? && Canonical(t, path) && es == Entries(t)
    ensures |es| >= 2 && LongestCommonPrefixOf(path + t.prefix, es)
    ensures t.term.Nil? || (t.term.Leaf? && t.term.key == path + t.prefix)
    ensures forall e | e in es && e.0 == path + t.prefix :: t.term.Leaf? && t.term.value == e.1
    ensures t.term.Leaf? ==> (path + t.prefix, t.term.value) in es
    ensures t.kids.Keys == NextBytes(es, path + t.prefix) && t.kind == KindFor(|NextBytes(es, path + t.prefix)|)
  {
    AtLeastTwoEntries(t, path);
    NodePathIsLongest(t, path, es);
    NextBytesAreKids(t, path, es);
    TermIsDescribed(t, path);
    assert |t.kids| == |t.kids.Keys| && t.kind == KindFor(|t.kids|);
    hide Canonical, Entries, LongestCommonPrefixOf, NextBytes;
    forall e | e in es && e.0 == path + t.prefix ensures t.term.Leaf? && t.term.value == e.1 {
      EntryIsTerm(t, path, e);
    }
  }

  lemma TermIsDescribed<A, V>(t: Trie<A, V>, path: Key)
    requires t.Inner? && Canonical(t, path)
    ensures t.term.Nil? || (t.term.Leaf? && t.term.key == path + t.prefix)
    ensures t.term.Leaf? ==> (path + t.prefix, t.term.value) in Entries(t)
  {
  }

  lemma EntryIsTerm<A, V>(t: Trie<A, V>, path: Key, e: Entry<V>)
    requires t.Inner? && Canonical(t, path) && e in Entries(t) && e.0 == path + t.prefix
    ensures t.term.Leaf? && t.term.value == e.1
  {
    KeyInTerm(t, path, e);
  }

  // ---------- The description determines the trie ----------

  lemma LongestIsUnique<V>(p: Key, q: Key, es: set<Entry<V>>)
    requires es != {} && LongestCommonPrefixOf(p, es) && LongestCommonPrefixOf(q, es)
    ensures p == q
  {
    var e :| e in es;
    assert p == e.0[..|p|] && q == e.0[..|q|];
  }

  lemma {:induction false} DescriptionIsUnique<A, B, V>(t: Trie<A, V>, u: Trie<B, V>, es: set<Entry<V>>, path: Key)
    requires Describes(t, es, path) && Describes(u, es, path)
    ensures SameShape(t, u)
    decreases t
  {
    if t.Leaf? {
      assert (t.key, t.value) in es && |es| == 1;
    } else if t.Inner? {
      assert es != {} && (u.Leaf? ==> |es| == 1);
      var here := path + t.prefix;
      LongestIsUnique(here, path + u.prefix, es);
      assert t.prefix == here[|path|..] == u.prefix;
      forall b | b in t.kids ensures SameShape(t.kids[b], u.kids[b]) {
        DescriptionIsUnique(t.kids[b], u.kids[b], Group(es, here + [b]), here + [b]);
      }
    }
  }

  // ---------- The description is met by canonical tries only ----------

  /** Where an entry of a described inner node belongs: in its terminal, or in the group of one child */
  lemma DescribedEntry<A, V>(t: Trie<A, V>, es: set<Entry<V>>, path: Key, e: Entry<V>)
    requires t.Inner? && Describes(t, es, path) && UniqueKeys(es) && e in es
    ensures path + t.prefix <= e.0
    ensures |e.0| == |path + t.prefix| ==> t.term.Leaf? && e == (t.term.key, t.term.value)
    ensures |e.0| > |path + t.prefix| ==>
              var b := e.0[|path + t.prefix|]; b in t.kids && e in Group(es, path + t.prefix + [b])
  {
    var here := path + t.prefix;
    if |e.0| > |here| {
      assert e.0[|here|] in NextBytes(es, here);
      NextByte(here, e.0);
    }
  }

  /** Described entries are the trie's own, when that holds of the children. */
  lemma DescribedEntries<A, V>(t: Trie<A, V>, es: set<Entry<V>>, path: Key, e: Entry<V>)
    requires t.Inner? && Describes(t, es, path) && UniqueKeys(es)
    requires forall b | b in t.kids :: Entries(t.kids[b]) == Group(es, path + t.prefix + [b])
    ensures e in es <==> e in Entries(t)
  {
    if e in es { DescribedEntry(t, es, path, e); }
  }

  lemma NextOfEntry<V>(es: set<Entry<V>>, here: Key, e: Entry<V>)
    requires e in es && here <= e.0
    ensures e.0 == here || (e.0[|here|] in NextBytes(es, here) && here + [e.0[|here|]] <= e.0)
  {
    if |e.0| > |here| { NextByte(here, e.0); }
  }

  lemma NoNextByte<V>(es: set<Entry<V>>, here: Key)
    requires CommonPrefix(here, es) && UniqueKeys(es) && NextBytes(es, here) == {}
    ensures |es| <= 1
  {
    if es != {} {
      var e :| e in es;
      forall f | f in es ensures f == e { NextOfEntry(es, here, e); NextOfEntry(es, here, f); }
      assert es == {e};
    }
  }

  lemma OneNextByte<V>(es: set<Entry<V>>, here: Key, b: byte)
    requires CommonPrefix(here, es) && NextBytes(es, here) == {b} && forall e | e in es :: e.0 != here
    ensures CommonPrefix(here + [b], es)
  {
    forall e | e in es ensures here + [b] <= e.0 { NextOfEntry(es, here, e); }
  }

  /** At its longest common prefix, a set of two or more entries branches or ends. */
  lemma Branching<V>(es: set<Entry<V>>, here: Key, next: set<byte>)
    requires |es| >= 2 && UniqueKeys(es) && LongestCommonPrefixOf(here, es) && next == NextBytes(es, here)
    ensures |next| >= 2 || (|next| == 1 && exists e :: e in es && e.0 == here)
  {
    if |next| == 0 {
      NoNextByte(es, here);
    } else if |next| == 1 && !exists e :: e in es && e.0 == here {
      var b :| b in next;
      assert next == {b} by { assert |next - {b}| == 0; }
      var longer := here + [b];
      assert |longer| > |here|;
      OneNextByte(es, here, b);
    }
  }

  lemma DescribedSplits<A, V>(t: Trie<A, V>, es: set<Entry<V>>, path: Key)
    requires t.Inner? && Describes(t, es, path) && UniqueKeys(es)
    ensures |t.kids| + TermCount(t.term) >= 2
  {
    assert |t.kids| == |t.kids.Keys|;
    Branching(es, path + t.prefix, t.kids.Keys);
  }

  lemma DescribedKidIsNotNil<A, V>(t: Trie<A, V>, es: set<Entry<V>>, path: Key, b: byte)
    requires t.Inner? && Describes(t, es, path) && b in t.kids
    ensures t.kids[b] != Nil
  {
    var here := path + t.prefix;
    assert b in NextBytes(es, here);
    var e :| e in es && here <= e.0 && |e.0| > |here| && e.0[|here|] == b;
    NextByte(here, e.0);
    assert e in Group(es, here + [b]);
  }

  lemma {:induction false} DescribedIsCanonical<A, V>(t: Trie<A, V>, es: set<Entry<V>>, path: Key)
    requires Describes(t, es, path) && UniqueKeys(es)
    ensures Canonical(t, path) && Entries(t) == es
    decreases t
  {
    if t.Inner? {
      var here := path + t.prefix;
      forall b | b in t.kids
        ensures t.kids[b] != Nil && Canonical(t.kids[b], here + [b])
        ensures Entries(t.kids[b]) == Group(es, here + [b])
      {
        DescribedIsCanonical(t.kids[b], Group(es, here + [b]), here + [b]);
        DescribedKidIsNotNil(t, es, path, b);
      }
      hide Describes, Canonical, Entries, UniqueKeys, Group;
      DescribedNode(t, es, path);
    }
  }

  lemma DescribedNode<A, V>(t: Trie<A, V>, es: set<Entry<V>>, path: Key)
    requires t.Inner? && Describes(t, es, path) && UniqueKeys(es)
    requires forall b | b in t.kids :: t.kids[b] != Nil && Canonical(t.kids[b], path + t.prefix + [b])
    requires forall b | b in t.kids :: Entries(t.kids[b]) == Group(es, path + t.prefix + [b])
    ensures Canonical(t, path) && Entries(t) == es
  {
    hide Entries, LongestCommonPrefixOf, NextBytes, UniqueKeys;
    DescribedSplits(t, es, path);
    SameEntries(t, es, path, Entries(t));
    DescribedHeader(t, es, path);
    hide Describes, Group;
  }

  lemma DescribedHeader<A, V>(t: Trie<A, V>, es: set<Entry<V>>, path: Key)
    requires t.Inner? && Describes(t, es, path)
    ensures TermAt(t.term, path + t.prefix) && t.kind == KindFor(|t.kids|)
  {
    assert |t.kids| == |t.kids.Keys|;
  }

  lemma SameEntries<A, V>(t: Trie<A, V>, es: set<Entry<V>>, path: Key, entries: set<Entry<V>>)
    requires t.Inner? && Describes(t, es, path) && UniqueKeys(es) && entries == Entries(t)
    requires forall b | b in t.kids :: Entries(t.kids[b]) == Group(es, path + t.prefix + [b])
    ensures entries == es
  {
    hide Describes;
    forall e: Entry<V> ensures e in es <==> e in entries { DescribedEntries(t, es, path, e); }
  }

  /** History independence: the entries alone determine the shape. */
  lemma HistoryIndependence<A, B, V>(t: Trie<A, V>, u: Trie<B, V>, path: Key)
    requires Canonical(t, path) && Canonical(u, path) && Entries(t) == Entries(u)
    ensures SameShape(t, u)
  {
    CanonicalIsDescribed(t, path);
    CanonicalIsDescribed(u, path);
    DescriptionIsUnique(t, u, Entries(t), path);
  }

  /** Equal shapes hold equal entries. */
  lemma {:induction false} SameShapeSameEntries<A, B, V>(t: Trie<A, V>, u: Trie<B, V>, path: Key)
    requires Canonical(t, path) && SameShape(t, u)
    ensures Canonical(u, path) && Entries(u) == Entries(t)
    decreases t
  {
    if t.Inner? {
      assert t.term.Leaf? ==> Entries(u.term) == Entries(t.term);
      assert |u.kids| == |u.kids.Keys| && |t.kids| == |t.kids.Keys|;
      forall b | b in t.kids
        ensures Canonical(u.kids[b], path + u.prefix + [b]) && Entries(u.kids[b]) == Entries(t.kids[b])
      {
        SameShapeSameEntries(t.kids[b], u.kids[b], path + t.prefix + [b]);
      }
    }
  }
}
