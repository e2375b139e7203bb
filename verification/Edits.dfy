/** How single steps of Put and Delete change the entries of a trie. */
module Edits {
  import opened Bytes
  import opened Tries

  ghost function KidEntries<A, V>(t: Trie<A, V>, b: byte): set<Entry<V>>
    requires t.Inner?
  {
    if b in t.kids then Entries(t.kids[b]) else {}
  }

  ghost function WithKid<A, V>(t: Trie<A, V>, b: byte, kid: Trie<A, V>): Trie<A, V>
    requires t.Inner?
  {
    t.(kids := t.kids[b := kid])
  }

  ghost function WithoutKid<A, V>(t: Trie<A, V>, b: byte): Trie<A, V>
    requires t.Inner?
  {
    t.(kids := t.kids - {b})
  }

  /** A key that continues with `b` below an inner node occurs only in that child. */
  lemma KeyInKid<A, V>(t: Trie<A, V>, path: Key, b: byte, e: Entry<V>)
    requires t.Inner? && Fits(t, path) && path + t.prefix + [b] <= e.0
    ensures e in Entries(t) <==> e in KidEntries(t, b)
  {
    var here := path + t.prefix;
    assert e.0[|here|] == (here + [b])[|here|] == b;
    if e in Entries(t) {
      EntriesUnderKey(t, path, e);
    }
  }

  lemma FitsWithKid<A, V>(t: Trie<A, V>, path: Key, b: byte, kid: Trie<A, V>)
    requires t.Inner? && Fits(t, path) && kid != Nil && Canonical(kid, path + t.prefix + [b])
    ensures Fits(WithKid(t, b, kid), path)
  {
  }

  /** Entries under other keys do not notice a change that only concerns `key` in slot `b`. */
  lemma OtherKeysKept<A, V>(t: Trie<A, V>, t': Trie<A, V>, b: byte, key: Key, e: Entry<V>)
    requires t.Inner? && t'.Inner? && t'.term == t.term
    requires forall c: byte | c != b :: (c in t'.kids <==> c in t.kids) && (c in t.kids ==> t'.kids[c] == t.kids[c])
    requires Without(KidEntries(t', b), key) == Without(KidEntries(t, b), key)
    requires e.0 != key
    ensures e in Entries(t') <==> e in Entries(t)
  {
    assert e in Without(KidEntries(t', b), key) <==> e in KidEntries(t', b);
    assert e in Without(KidEntries(t, b), key) <==> e in KidEntries(t, b);
    if c :| c in t.kids && e in Entries(t.kids[c]) {
      if c != b { assert c in t'.kids && e in Entries(t'.kids[c]); }
    }
    if c :| c in t'.kids && e in Entries(t'.kids[c]) {
      if c != b { assert c in t.kids && e in Entries(t.kids[c]); }
    }
  }

  /** The entries of `t'` are those of `t`, except that `key` is as slot `b` of `t'` has it. */
  ghost predicate ChangedAt<A, V>(t: Trie<A, V>, t': Trie<A, V>, path: Key, b: byte, key: Key) {
    && t.Inner? && t'.Inner? && t'.term == t.term && t'.prefix == t.prefix
    && Fits(t, path) && Fits(t', path) && path + t.prefix + [b] <= key
    && (forall c: byte | c != b :: (c in t'.kids <==> c in t.kids) && (c in t.kids ==> t'.kids[c] == t.kids[c]))
    && Without(KidEntries(t', b), key) == Without(KidEntries(t, b), key)
  }

  lemma ChangedEntry<A, V>(t: Trie<A, V>, t': Trie<A, V>, path: Key, b: byte, key: Key, e: Entry<V>)
    requires ChangedAt(t, t', path, b, key)
    ensures e.0 == key ==> (e in Entries(t') <==> e in KidEntries(t', b))
    ensures e.0 != key ==> (e in Entries(t') <==> e in Entries(t))
  {
    if e.0 == key { KeyInKid(t', path, b, e); } else { OtherKeysKept(t, t', b, key, e); }
  }

  lemma ChangedEntries<A, V>(t: Trie<A, V>, t': Trie<A, V>, path: Key, b: byte, key: Key,
                             before: set<Entry<V>>, after: set<Entry<V>>, inKid: set<Entry<V>>)
    requires ChangedAt(t, t', path, b, key)
    requires before == Entries(t) && after == Entries(t') && inKid == KidEntries(t', b)
    ensures after == Without(before, key) + set e | e in inKid && e.0 == key
  {
    forall e: Entry<V> ensures e in after <==> (e in before && e.0 != key) || (e in inKid && e.0 == key) {
      ChangedEntry(t, t', path, b, key, e);
    }
  }

  lemma UpsertParts<V>(es: set<Entry<V>>, key: Key, value: V)
    ensures Without(Upsert(es, key, value), key) == Without(es, key)
    ensures (set e | e in Upsert(es, key, value) && e.0 == key) == {(key, value)}
  {
  }

  lemma WithoutParts<V>(es: set<Entry<V>>, key: Key)
    ensures Without(Without(es, key), key) == Without(es, key)
    ensures (set e | e in Without(es, key) && e.0 == key) == {}
  {
  }

  /** Setting `key` inside child `b` sets it in the whole trie. */
  lemma UpsertInKid<A, V>(t: Trie<A, V>, path: Key, b: byte, kid: Trie<A, V>, key: Key, value: V)
    requires t.Inner? && Fits(t, path) && path + t.prefix + [b] <= key
    requires kid != Nil && Canonical(kid, path + t.prefix + [b])
    requires Entries(kid) == Upsert(KidEntries(t, b), key, value)
    ensures Fits(WithKid(t, b, kid), path)
    ensures Entries(WithKid(t, b, kid)) == Upsert(Entries(t), key, value)
  {
    var t' := WithKid(t, b, kid);
    FitsWithKid(t, path, b, kid);
    UpsertParts(KidEntries(t, b), key, value);
    ChangedEntries(t, t', path, b, key, Entries(t), Entries(t'), Entries(kid));
  }

  /** Removing `key` from child `b` removes it from the whole trie. */
  lemma RemoveInKid<A, V>(t: Trie<A, V>, path: Key, b: byte, kid: Trie<A, V>, key: Key)
    requires t.Inner? && Fits(t, path) && path + t.prefix + [b] <= key
    requires kid != Nil && Canonical(kid, path + t.prefix + [b])
    requires Entries(kid) == Without(KidEntries(t, b), key)
    ensures Fits(WithKid(t, b, kid), path)
    ensures Entries(WithKid(t, b, kid)) == Without(Entries(t), key)
  {
    var t' := WithKid(t, b, kid);
    FitsWithKid(t, path, b, kid);
    WithoutParts(KidEntries(t, b), key);
    ChangedEntries(t, t', path, b, key, Entries(t), Entries(t'), Entries(kid));
  }

  /** A child that held nothing but `key` can be dropped. */
  lemma DropKid<A, V>(t: Trie<A, V>, path: Key, b: byte, key: Key)
    requires t.Inner? && Fits(t, path) && path + t.prefix + [b] <= key
    requires Without(KidEntries(t, b), key) == {}
    ensures Fits(WithoutKid(t, b), path)
    ensures Entries(WithoutKid(t, b)) == Without(Entries(t), key)
  {
    var t' := WithoutKid(t, b);
    assert Without(KidEntries(t', b), key) == {};
    ChangedEntries(t, t', path, b, key, Entries(t), Entries(t'), {});
  }

  /** The terminal slot holds the node's own path and nothing else. */
  lemma KeyInTerm<A, V>(t: Trie<A, V>, path: Key, e: Entry<V>)
    requires t.Inner? && Fits(t, path) && e.0 == path + t.prefix
    ensures e in Entries(t) <==> e in Entries(t.term)
  {
    if e in Entries(t) { EntriesUnderKey(t, path, e); }
  }

  lemma TermOnly<A, V>(t: Trie<A, V>, path: Key, term: Trie<A, V>, e: Entry<V>)
    requires t.Inner? && Fits(t, path) && TermAt(term, path + t.prefix) && e.0 != path + t.prefix
    ensures e in Entries(t.(term := term)) <==> e in Entries(t)
  {
  }

  lemma ChangedTerm<A, V>(t: Trie<A, V>, path: Key, term: Trie<A, V>, before: set<Entry<V>>, after: set<Entry<V>>)
    requires t.Inner? && Fits(t, path) && TermAt(term, path + t.prefix)
    requires before == Entries(t) && after == Entries(t.(term := term))
    ensures after == Without(before, path + t.prefix) + Entries(term)
  {
    var t' := t.(term := term);
    forall e: Entry<V> ensures e in after <==> (e in before && e.0 != path + t.prefix) || e in Entries(term) {
      if e.0 == path + t.prefix { KeyInTerm(t', path, e); } else { TermOnly(t, path, term, e); }
    }
  }

  lemma UpsertTerm<A, V>(t: Trie<A, V>, path: Key, term: Trie<A, V>)
    requires t.Inner? && Fits(t, path) && term.Leaf? && term.key == path + t.prefix
    ensures Fits(t.(term := term), path)
    ensures Entries(t.(term := term)) == Upsert(Entries(t), term.key, term.value)
  {
    ChangedTerm(t, path, term, Entries(t), Entries(t.(term := term)));
  }

  lemma ClearTerm<A, V>(t: Trie<A, V>, path: Key)
    requires t.Inner? && Fits(t, path)
    ensures Fits(t.(term := Nil), path)
    ensures Entries(t.(term := Nil)) == Without(Entries(t), path + t.prefix)
  {
    ChangedTerm(t, path, Nil, Entries(t), Entries(t.(term := Nil)));
  }

  // ---------- Reshaping keeps the entries ----------

  /** A node left with only its terminal is replaced by it. */
  lemma CollapseToTerm<A, V>(t: Trie<A, V>, path: Key)
    requires t.Inner? && Fits(t, path) && t.kids == map[]
    ensures Canonical(t.term, path) && Entries(t.term) == Entries(t)
  {
  }

  /** A node left with only a leaf is replaced by it. */
  lemma HoistLeaf<A, V>(t: Trie<A, V>, path: Key, b: byte)
    requires t.Inner? && Fits(t, path) && t.term.Nil? && t.kids.Keys == {b} && t.kids[b].Leaf?
    ensures Canonical(t.kids[b], path) && Entries(t.kids[b]) == Entries(t)
  {
    assert path <= path + t.prefix + [b];
  }

  /** A node left with only an inner child is replaced by it, under the joined prefix. */
  lemma MergePrefix<A, V>(t: Trie<A, V>, path: Key, b: byte, merged: Key, t': Trie<A, V>)
    requires t.Inner? && Fits(t, path) && t.term.Nil? && t.kids.Keys == {b} && t.kids[b].Inner?
    requires merged == t.prefix + [b] + t.kids[b].prefix
    requires t'.Inner? && t'.prefix == merged && t'.kind == t.kids[b].kind
    requires t'.term == t.kids[b].term && t'.kids == t.kids[b].kids
    ensures Canonical(t', path) && Entries(t') == Entries(t)
  {
    var kid := t.kids[b];
    assert path + merged == path + t.prefix + [b] + kid.prefix;
    assert Entries(t') == Entries(kid);
    assert b in t.kids;
  }

  // ---------- Small nodes built by Put ----------

  lemma OneKid<A, V>(t: Trie<A, V>, b: byte)
    requires t.Inner? && t.kids.Keys == {b}
    ensures Entries(t) == Entries(t.term) + Entries(t.kids[b])
  {
    assert b in t.kids;
  }

  lemma TwoKids<A, V>(t: Trie<A, V>, b: byte, c: byte)
    requires t.Inner? && t.kids.Keys == {b, c}
    ensures Entries(t) == Entries(t.term) + Entries(t.kids[b]) + Entries(t.kids[c])
  {
    assert b in t.kids && c in t.kids;
  }

  /** A node4 with a terminal and one child is canonical. */
  lemma CanonicalTermAndKid<A, V>(t: Trie<A, V>, path: Key, b: byte)
    requires t.Inner? && t.kind.K4? && t.kids.Keys == {b} && t.kids[b] != Nil
    requires t.term.Leaf? && t.term.key == path + t.prefix && Canonical(t.kids[b], path + t.prefix + [b])
    ensures Canonical(t, path) && Entries(t) == Entries(t.term) + Entries(t.kids[b])
  {
    OneKid(t, b);
    assert |t.kids| == |t.kids.Keys| == 1;
  }

  lemma TwoKeys<X, Y>(m: map<X, Y>, b: X, c: X)
    requires b != c && m.Keys == {b, c}
    ensures |m| == 2
  {
    assert |m| == |m.Keys| == |{b, c}|;
  }

  lemma NilHoldsNothing<A, V>(t: Trie<A, V>)
    requires t.Nil?
    ensures Entries(t) == {}
  {
  }

  lemma TwoKidsFit<A, V>(t: Trie<A, V>, path: Key, b: byte, c: byte)
    requires t.Inner? && t.kids.Keys == {b, c}
    requires t.kids[b] != Nil && Canonical(t.kids[b], path + t.prefix + [b])
    requires t.kids[c] != Nil && Canonical(t.kids[c], path + t.prefix + [c])
    ensures forall d | d in t.kids :: t.kids[d] != Nil && Canonical(t.kids[d], path + t.prefix + [d])
  {
    hide Canonical;
    forall d | d in t.kids ensures t.kids[d] != Nil && Canonical(t.kids[d], path + t.prefix + [d]) {
      assert d in t.kids.Keys;
    }
  }

  /** A node4 with two children is canonical. */
  lemma CanonicalTwoKids<A, V>(t: Trie<A, V>, path: Key, b: byte, c: byte)
    requires t.Inner? && t.kind.K4? && t.term.Nil? && b != c && t.kids.Keys == {b, c}
    requires t.kids[b] != Nil && Canonical(t.kids[b], path + t.prefix + [b])
    requires t.kids[c] != Nil && Canonical(t.kids[c], path + t.prefix + [c])
    ensures Canonical(t, path) && Entries(t) == Entries(t.kids[b]) + Entries(t.kids[c])
  {
    hide Entries;
    TwoKids(t, b, c);
    TwoKeys(t.kids, b, c);
    assert Entries(t.term) == {} by { NilHoldsNothing(t.term); }
    TwoKidsFit(t, path, b, c);
  }

  /** The part of a split node below the split stays canonical under its own branch byte. */
  lemma CanonicalAdoptee<A, V>(t: Trie<A, V>, path: Key, i: nat, t0: Trie<A, V>)
    requires t.Inner? && Canonical(t, path) && i < |t.prefix|
    requires t0.Inner? && t0.kind == t.kind && t0.term == t.term && t0.kids == t.kids && t0.prefix == t.prefix[i + 1..]
    ensures Canonical(t0, path + t.prefix[..i] + [t.prefix[i]])
    ensures Entries(t0) == Entries(t)
  {
    SplitPath(path, t.prefix, i);
    EntriesOfParts(t0, t);
  }

  lemma SplitPath(path: Key, prefix: Key, i: nat)
    requires i < |prefix|
    ensures path + prefix == path + prefix[..i] + [prefix[i]] + prefix[i + 1..]
  {
  }

  /** A key that leaves the node's prefix early is not below the node. */
  lemma NotBelowPrefix<A, V>(t: Trie<A, V>, path: Key, key: Key)
    requires t.Inner? && Canonical(t, path) && !(path + t.prefix <= key)
    ensures Without(Entries(t), key) == Entries(t) && !HasKey(t, key)
  {
    forall e | e in Entries(t) ensures e.0 != key {
      EntriesUnderKey(t, path, e);
    }
  }

  // ---------- Canonical form after an edit ----------

  /** `t'` is `t` with `kid` in slot `b` (annotations aside), of the kind its child count asks for. */
  ghost predicate KidSet<A, V>(t: Trie<A, V>, b: byte, kid: Trie<A, V>, t': Trie<A, V>) {
    && t.Inner? && t'.Inner?
    && t'.prefix == t.prefix && t'.term == t.term && t'.kids == t.kids[b := kid]
    && t'.kind == KindFor(|t'.kids|)
  }

  lemma HasKeyInKid<A, V>(t: Trie<A, V>, path: Key, b: byte, key: Key)
    requires t.Inner? && Canonical(t, path) && path + t.prefix + [b] <= key
    ensures HasKey(t, key) <==> b in t.kids && HasKey(t.kids[b], key)
  {
    if e :| e in Entries(t) && e.0 == key { KeyInKid(t, path, b, e); }
    if b in t.kids && HasKey(t.kids[b], key) {
      var e :| e in Entries(t.kids[b]) && e.0 == key;
      KeyInKid(t, path, b, e);
    }
  }

  lemma CanonicalUpsert<A, V>(t: Trie<A, V>, path: Key, b: byte, kid: Trie<A, V>, t': Trie<A, V>, key: Key, value: V)
    requires KidSet(t, b, kid, t') && Canonical(t, path) && path + t.prefix + [b] <= key
    requires kid != Nil && Canonical(kid, path + t.prefix + [b])
    requires Entries(kid) == Upsert(KidEntries(t, b), key, value)
    ensures Canonical(t', path) && Entries(t') == Upsert(Entries(t), key, value)
  {
    UpsertInKid(t, path, b, kid, key, value);
    assert Entries(t') == Entries(WithKid(t, b, kid));
    assert |t'.kids| >= |t.kids|;
  }

  /** `t'` is `t` with a terminal leaf (annotations aside). */
  lemma CanonicalUpsertTerm<A, V>(t: Trie<A, V>, path: Key, term: Trie<A, V>, t': Trie<A, V>)
    requires t.Inner? && Canonical(t, path) && term.Leaf? && term.key == path + t.prefix
    requires t'.Inner? && t'.kind == t.kind && t'.prefix == t.prefix && t'.kids == t.kids && t'.term == term
    ensures Canonical(t', path) && Entries(t') == Upsert(Entries(t), term.key, term.value)
    ensures HasKey(t, term.key) <==> t.term.Leaf?
  {
    UpsertTerm(t, path, term);
    assert Entries(t') == Entries(t.(term := term));
    if t.term.Leaf? { assert (t.term.key, t.term.value) in Entries(t); }
    if e :| e in Entries(t) && e.0 == term.key { KeyInTerm(t, path, e); }
  }

  /** An inner node that lost one child or its terminal: reshaping makes it canonical again. */
  ghost predicate Reshapable<A, V>(t: Trie<A, V>, path: Key) {
    && t.Inner? && Fits(t, path)
    && |t.kids| + TermCount(t.term) >= 1
    && (t.kind == KindFor(|t.kids|) || t.kind == KindFor(|t.kids| + 1))
  }

  /** `t'` is `t` with `kid` in slot `b`, or with the slot emptied when `kid` is nil. */
  ghost predicate KidReplaced<A, V>(t: Trie<A, V>, b: byte, kid: Trie<A, V>, t': Trie<A, V>) {
    && t.Inner? && t'.Inner? && b in t.kids
    && t'.kind == t.kind && t'.prefix == t.prefix && t'.term == t.term
    && t'.kids == if kid.Nil? then t.kids - {b} else t.kids[b := kid]
  }

  lemma CanonicalDrop<A, V>(t: Trie<A, V>, path: Key, b: byte, t': Trie<A, V>, key: Key)
    requires KidReplaced(t, b, Nil, t') && Canonical(t, path) && path + t.prefix + [b] <= key
    requires Without(Entries(t.kids[b]), key) == {}
    ensures Reshapable(t', path) && Entries(t') == Without(Entries(t), key)
  {
    DropKid(t, path, b, key);
    EntriesOfParts(t', WithoutKid(t, b));
    CardinalityWithout(t.kids, b);
    hide Entries, Without;
  }

  lemma CanonicalRemove<A, V>(t: Trie<A, V>, path: Key, b: byte, kid: Trie<A, V>, t': Trie<A, V>, key: Key)
    requires KidReplaced(t, b, kid, t') && Canonical(t, path) && path + t.prefix + [b] <= key
    requires Canonical(kid, path + t.prefix + [b]) && Entries(kid) == Without(Entries(t.kids[b]), key)
    ensures Reshapable(t', path) && Entries(t') == Without(Entries(t), key)
    ensures kid != Nil ==> Canonical(t', path)
  {
    if kid.Nil? {
      CanonicalDrop(t, path, b, t', key);
    } else {
      RemoveInKid(t, path, b, kid, key);
      EntriesOfParts(t', WithKid(t, b, kid));
      assert t'.kids.Keys == t.kids.Keys;
      assert |t'.kids| == |t'.kids.Keys| && |t.kids| == |t.kids.Keys|;
    }
  }

  lemma EntriesOfParts<A, V>(t: Trie<A, V>, t': Trie<A, V>)
    requires t.Inner? && t'.Inner? && t.term == t'.term && t.kids == t'.kids
    ensures Entries(t) == Entries(t')
  {
  }

  lemma WithoutAbsent<A, V>(t: Trie<A, V>, key: Key)
    requires !HasKey(t, key)
    ensures Without(Entries(t), key) == Entries(t)
  {
  }

  lemma CanonicalClearTerm<A, V>(t: Trie<A, V>, path: Key, t': Trie<A, V>)
    requires t.Inner? && Canonical(t, path)
    requires t'.Inner? && t'.kind == t.kind && t'.prefix == t.prefix && t'.kids == t.kids && t'.term == Nil
    ensures Reshapable(t', path) && Entries(t') == Without(Entries(t), path + t.prefix)
  {
    ClearTerm(t, path);
    assert Entries(t') == Entries(t.(term := Nil));
  }

  /** Skipping reshape is sound: a canonical node is already in the shape reshape would give it. */
  lemma CanonicalNeedsNoReshape<A, V>(t: Trie<A, V>, path: Key)
    requires t.Inner? && Canonical(t, path)
    ensures |t.kids| >= 1
    ensures t.kind.K4? ==> !(|t.kids| == 1 && t.term.Nil?)
    ensures t.kind.K16? ==> |t.kids| != Capacity(K4)
    ensures t.kind.K48? ==> |t.kids| != Capacity(K16)
    ensures t.kind.K256? ==> |t.kids| != Capacity(K48)
  {
  }
}
