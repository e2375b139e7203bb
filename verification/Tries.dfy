/**
 * The abstract tree: a path-compressed trie with one node kind per size class.
 *
 * A node carries an annotation of type `A`. The trie that describes the heap annotates each node
 * with the object that implements it; the trie `Erase` gives back carries `()` and is pure shape.
 */
module Tries {
  import opened Bytes

  datatype Kind = K4 | K16 | K48 | K256

  function Capacity(kind: Kind): nat {
    match kind
    case K4 => 4
    case K16 => 16
    case K48 => 48
    case K256 => 256
  }

  /** The smallest kind with room for `n` children. */
  function KindFor(n: nat): Kind {
    if n <= 4 then K4 else if n <= 16 then K16 else if n <= 48 then K48 else K256
  }

  datatype Trie<A, V> =
    | Nil
    | Leaf(id: A, key: Key, value: V)
    | Inner(id: A, kind: Kind, prefix: Key, term: Trie<A, V>, kids: map<byte, Trie<A, V>>)

  type Entry<V> = (Key, V)

  /** The key-value pairs stored anywhere in `t`, whatever their position. */
  ghost function Entries<A, V>(t: Trie<A, V>): set<Entry<V>> {
    match t
    case Nil => {}
    case Leaf(_, key, value) => {(key, value)}
    case Inner(_, _, _, term, kids) =>
      Entries(term) + set b, e | b in kids && e in Entries(kids[b]) :: e
  }

  /** A map as a set of pairs */
  ghost function Pairs<V>(m: map<Key, V>): set<Entry<V>> {
    set k | k in m :: (k, m[k])
  }

  ghost predicate HasKey<A, V>(t: Trie<A, V>, key: Key) {
    exists e :: e in Entries(t) && e.0 == key
  }

  /** The pairs left when `key` is removed. */
  ghost function Without<V>(es: set<Entry<V>>, key: Key): set<Entry<V>> {
    set e | e in es && e.0 != key
  }

  /** The pairs after `key` is bound to `value`. */
  ghost function Upsert<V>(es: set<Entry<V>>, key: Key, value: V): set<Entry<V>> {
    Without(es, key) + {(key, value)}
  }

  /** A terminal slot is empty or holds the leaf whose key is exactly the node's path. */
  predicate TermAt<A, V>(term: Trie<A, V>, here: Key) {
    term.Nil? || (term.Leaf? && term.key == here)
  }

  function TermCount<A, V>(term: Trie<A, V>): nat {
    if term.Nil? then 0 else 1
  }

  /**
   * The whole-run invariant: below `path`, keys agree with their position, every inner node
   * separates at least two keys, and its kind is determined by its number of children.
   */
  ghost predicate Canonical<A, V>(t: Trie<A, V>, path: Key) {
    match t
    case Nil => true
    case Leaf(_, key, _) => path <= key
    case Inner(_, kind, prefix, term, kids) =>
      && TermAt(term, path + prefix)
      && (forall b | b in kids :: kids[b] != Nil && Canonical(kids[b], path + prefix + [b]))
      && |kids| + TermCount(term) >= 2
      && kind == KindFor(|kids|)
  }

  /** An inner node whose parts are canonical, whatever its own child count and kind. */
  ghost predicate Fits<A, V>(t: Trie<A, V>, path: Key)
    requires t.Inner?
  {
    && TermAt(t.term, path + t.prefix)
    && (forall b | b in t.kids :: t.kids[b] != Nil && Canonical(t.kids[b], path + t.prefix + [b]))
  }

  lemma CardinalityWithout<X, Y>(m: map<X, Y>, x: X)
    requires x in m
    ensures |m - {x}| == |m| - 1
  {
    assert (m - {x}).Keys == m.Keys - {x};
  }

  // ---------- Where entries live ----------

  lemma {:induction false} EntriesExtendPath<A, V>(t: Trie<A, V>, path: Key)
    requires Canonical(t, path)
    ensures forall e | e in Entries(t) :: path <= e.0
    decreases t
  {
    if t.Inner? {
      forall b | b in t.kids ensures forall e | e in Entries(t.kids[b]) :: path <= e.0 {
        EntriesExtendPath(t.kids[b], path + t.prefix + [b]);
        assert path <= path + t.prefix + [b];
      }
    }
  }

  /** Below an inner node, the byte after the node's path says which child holds an entry. */
  lemma EntriesOfKid<A, V>(t: Trie<A, V>, path: Key, b: byte)
    requires t.Inner? && Fits(t, path) && b in t.kids
    ensures forall e | e in Entries(t.kids[b]) :: path + t.prefix + [b] <= e.0
    ensures forall e | e in Entries(t.kids[b]) ::
              path + t.prefix <= e.0 && |e.0| > |path + t.prefix| && e.0[|path + t.prefix|] == b
  {
    var here := path + t.prefix;
    EntriesExtendPath(t.kids[b], here + [b]);
    forall e | e in Entries(t.kids[b])
      ensures here <= e.0 && |e.0| > |here| && e.0[|here|] == b
    {
      assert e.0[..|here| + 1] == here + [b];
      assert e.0[..|here|] == (here + [b])[..|here|] == here;
      assert e.0[|here|] == e.0[..|here| + 1][|here|];
    }
  }

  /** The entries of an inner node under one key all sit in that key's own slot. */
  lemma EntriesUnderKey<A, V>(t: Trie<A, V>, path: Key, e: Entry<V>)
    requires t.Inner? && Fits(t, path) && e in Entries(t)
    ensures path + t.prefix <= e.0
    ensures |e.0| == |path + t.prefix| ==> e in Entries(t.term) && e.0 == path + t.prefix
    ensures |e.0| > |path + t.prefix| ==>
              var b := e.0[|path + t.prefix|]; b in t.kids && e in Entries(t.kids[b])
  {
    if e !in Entries(t.term) {
      var b :| b in t.kids && e in Entries(t.kids[b]);
      EntriesOfKid(t, path, b);
    }
  }

  lemma {:induction false} NonEmpty<A, V>(t: Trie<A, V>, path: Key)
    requires Canonical(t, path) && t != Nil
    ensures Entries(t) != {}
    decreases t
  {
    if t.Inner? {
      if t.term.Nil? {
        assert |t.kids.Keys| >= 2;
        var b :| b in t.kids.Keys;
        NonEmpty(t.kids[b], path + t.prefix + [b]);
        var e :| e in Entries(t.kids[b]);
        assert e in Entries(t);
      } else {
        assert (t.term.key, t.term.value) in Entries(t);
      }
    }
  }
}
