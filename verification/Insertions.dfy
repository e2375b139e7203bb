/** What one Put may do to the inner nodes: change one of them, or put a new one above it. */
module Insertions {
  import opened Bytes
  import opened Tries
  import opened Shapes
  import opened Grafts
  import opened Reshapes

  ghost predicate NewLeaf<V>(u: Shape<V>, key: Key, value: V) {
    u.Leaf? && u.key == key && u.value == value
  }

  /** The terminal or child of a node at `here` under which `key` belongs */
  ghost function SlotAt<V>(u: Shape<V>, here: Key, key: Key): Shape<V>
    requires u.Inner? && here <= key
  {
    if key == here then u.term else if key[|here|] in u.kids then u.kids[key[|here|]] else Nil
  }

  ghost function NextOf(here: Key, key: Key): set<byte>
    requires here <= key
  {
    if key == here then {} else {key[|here|]}
  }

  /** `r` is a node4 at `here` with two entries: `was`, under `oldKey`, and a leaf for `key`. */
  ghost predicate Forks<V>(r: Shape<V>, here: Key, was: Shape<V>, oldKey: Key, key: Key, value: V) {
    && r.Inner? && r.kind.K4? && here <= oldKey && here <= key && NextOf(here, oldKey) != NextOf(here, key)
    && SlotAt(r, here, oldKey) == was && NewLeaf(SlotAt(r, here, key), key, value)
    && r.kids.Keys == NextOf(here, oldKey) + NextOf(here, key)
    && (r.term.Nil? <==> here != oldKey && here != key)
  }

  /** `u` is `t` on the same object, with the first `n` bytes of its prefix cut off by a slice of the same buffer. */
  ghost predicate Shortened<V>(t: Shape<V>, u: Shape<V>, n: nat)
    requires t.Inner? && n <= |t.prefix|
  {
    && u.Inner? && u.id.node == t.id.node && u.kind == t.kind && u.term == t.term && u.kids == t.kids
    && u.prefix == t.prefix[n..] && u.id.slice.Bufs() == t.id.slice.Bufs()
  }

  /** A new node4 takes the place of `t`, with `t` and the new leaf below it. */
  ghost predicate BranchesOff<V>(t: Shape<V>, r: Shape<V>, path: Key, key: Key, value: V) {
    r.Inner? &&
    var here := path + r.prefix;
    match t
    case Nil => false
    case Leaf(_, k, _) => Forks(r, here, t, k, key, value)
    case Inner(_, _, prefix, _, _) =>
      && r.prefix < prefix
      && Forks(r, here, SlotAt(r, here, path + prefix), path + prefix, key, value)
      && Shortened(t, SlotAt(r, here, path + prefix), |r.prefix| + 1)
  }

  /** The terminal is set, or its value replaced; the rest of the node stays as it is. */
  ghost predicate TermPut<V>(t: Shape<V>, r: Shape<V>, key: Key, value: V)
    requires t.Inner?
  {
    && r.Inner? && HeaderOf(r) == HeaderOf(t) && r.prefix == t.prefix && r.kids == t.kids
    && (if t.term.Leaf? then r.term == t.term.(value := value) else NewLeaf(r.term, key, value))
  }

  /** The node gains a leaf under `b`, on its own object unless it was full. */
  ghost predicate GainsKid<V>(t: Shape<V>, b: byte, r: Shape<V>, key: Key, value: V)
    requires t.Inner?
  {
    && r.Inner? && r.id.slice == t.id.slice && r.prefix == t.prefix && r.term == t.term
    && r.kind == KindFor(|t.kids| + 1) && (|t.kids| < Capacity(t.kind) ==> r.id.node == t.id.node)
    && b in r.kids && NewLeaf(r.kids[b], key, value) && r.kids == t.kids[b := r.kids[b]]
  }

  /**
   * Putting `key` below `path`: along the key's path every inner node stays as it is but for one child, down to the
   * one place that changes. There a leaf appears or gets its value, a terminal is set, a node gains a child, or a new
   * node branches off.
   */
  ghost predicate OneInsertion<V>(t: Shape<V>, r: Shape<V>, path: Key, key: Key, value: V) {
    match t
    case Nil => NewLeaf(r, key, value)
    case Leaf(_, k, _) => if k == key then r == t.(value := value) else BranchesOff(t, r, path, key, value)
    case Inner(_, _, prefix, _, kids) =>
      var here := path + prefix;
      if !(here <= key) then BranchesOff(t, r, path, key, value)
      else if key == here then TermPut(t, r, key, value)
      else
        var b := key[|here|];
        if b !in kids then GainsKid(t, b, r, key, value)
        else OnlyKidDiffers(t, b, r) && OneInsertion(kids[b], r.kids[b], here + [b], key, value)
  }

  lemma InsertedBelow<V>(t: Shape<V>, b: byte, kid: Shape<V>, r: Shape<V>, path: Key, key: Key, value: V)
    requires t.Inner? && b in t.kids && r == Grafted(t, b, kid) && path + t.prefix + [b] <= key
    requires OneInsertion(t.kids[b], kid, path + t.prefix + [b], key, value)
    ensures OneInsertion(t, r, path, key, value)
  {
    var here := path + t.prefix;
    assert here <= here + [b] <= key && key[|here|] == (here + [b])[|here|] == b;
  }

  // ---------- How many inner nodes that touches ----------

  lemma ForkHeaders<V>(r: Shape<V>, here: Key, was: Shape<V>, oldKey: Key, key: Key, value: V)
    requires Forks(r, here, was, oldKey, key, value)
    ensures Headers(r) <= {HeaderOf(r)} + Headers(was)
    ensures oldKey != here ==> Headers(was) <= Headers(r)
  {
    forall c | c in r.kids ensures r.kids[c].Leaf? || r.kids[c] == was {
      assert c in NextOf(here, oldKey) || c in NextOf(here, key);
    }
    if oldKey != here {
      assert oldKey[|here|] in NextOf(here, oldKey);
      HeadersOfKid(r, oldKey[|here|]);
    }
  }

  /** A new node makes one header, and one more when it takes a node below it whose prefix it cuts. */
  lemma BranchTouches<V>(t: Shape<V>, r: Shape<V>, path: Key, key: Key, value: V)
    returns (made: set<Header<V>>, gone: set<Header<V>>)
    requires BranchesOff(t, r, path, key, value)
    ensures |made| <= 2 && |gone| <= 1
    ensures Headers(r) <= Headers(t) + made && Headers(t) <= Headers(r) + gone
  {
    var here := path + r.prefix;
    made, gone := {HeaderOf(r)}, {};
    if t.Leaf? {
      ForkHeaders(r, here, t, t.key, key, value);
    } else {
      var whole := path + t.prefix;
      var was := SlotAt(r, here, whole);
      ForkHeaders(r, here, was, whole, key, value);
      made, gone := {HeaderOf(r), HeaderOf(was)}, {HeaderOf(t)};
      HeadersOfSame(t, was);
      HeadersOfSame(was, t);
      assert |whole| > |here|;
    }
    hide Forks, Shortened, SlotAt;
  }

  lemma GainTouches<V>(t: Shape<V>, b: byte, r: Shape<V>, key: Key, value: V)
    requires t.Inner? && b !in t.kids && GainsKid(t, b, r, key, value)
    ensures Headers(r) <= Headers(t) + {HeaderOf(r)} && Headers(t) <= Headers(r) + {HeaderOf(t)}
  {
    forall h | h in Headers(r) ensures h in Headers(t) + {HeaderOf(r)} {
      if h != HeaderOf(r) {
        var c :| c in r.kids && h in Headers(r.kids[c]);
        assert c in t.kids && r.kids[c] == t.kids[c];
      }
    }
    forall h | h in Headers(t) ensures h in Headers(r) + {HeaderOf(t)} {
      if h != HeaderOf(t) {
        var c :| c in t.kids && h in Headers(t.kids[c]);
        assert c in r.kids && r.kids[c] == t.kids[c];
      }
    }
  }

  /** Putting a key makes at most two headers, and unmakes at most one. */
  lemma {:induction false} PutTouches<V>(t: Shape<V>, r: Shape<V>, path: Key, key: Key, value: V)
    returns (made: set<Header<V>>, gone: set<Header<V>>)
    requires OneInsertion(t, r, path, key, value)
    ensures |made| <= 2 && |gone| <= 1
    ensures Headers(r) <= Headers(t) + made && Headers(t) <= Headers(r) + gone
    decreases t
  {
    made, gone := {}, {};
    if t.Leaf? {
      if t.key != key { made, gone := BranchTouches(t, r, path, key, value); }
    } else if t.Inner? {
      var here := path + t.prefix;
      if !(here <= key) {
        made, gone := BranchTouches(t, r, path, key, value);
      } else if key == here {
        HeadersOfSame(t, r);
        HeadersOfSame(r, t);
      } else {
        var b := key[|here|];
        if b !in t.kids {
          GainTouches(t, b, r, key, value);
          made, gone := {HeaderOf(r)}, {HeaderOf(t)};
        } else {
          made, gone := PutTouches(t.kids[b], r.kids[b], here + [b], key, value);
          KidTouches(t, b, r, made, gone);
        }
      }
    }
  }

  // ---------- How the code builds a fork ----------

  /** A terminal and one child, whichever of the two is the new leaf */
  lemma ForkFromParts<V>(r: Shape<V>, here: Key, was: Shape<V>, oldKey: Key, leaf: Shape<V>, key: Key, value: V)
    requires r.Inner? && r.kind.K4? && here <= oldKey && here <= key && NextOf(here, oldKey) != NextOf(here, key)
    requires NewLeaf(leaf, key, value) && was != Nil
    requires oldKey == here ==> r.term == was && r.kids == map[key[|here|] := leaf]
    requires oldKey != here && key == here ==> r.term == leaf && r.kids == map[oldKey[|here|] := was]
    requires oldKey != here && key != here ==>
               r.term.Nil? && r.kids == map[oldKey[|here|] := was, key[|here|] := leaf]
    ensures Forks(r, here, was, oldKey, key, value)
  {
  }

  /** Only the byte after the fork matters of the old key. */
  lemma ForkSameByte<V>(r: Shape<V>, here: Key, was: Shape<V>, oldKey: Key, other: Key, key: Key, value: V)
    requires Forks(r, here, was, oldKey, key, value) && here <= other && NextOf(here, other) == NextOf(here, oldKey)
    ensures Forks(r, here, was, other, key, value)
  {
    assert oldKey != here ==> oldKey[|here|] in NextOf(here, other);
    assert other != here ==> other[|here|] in NextOf(here, oldKey);
  }

  // ---------- The cases, one by one ----------

  lemma InsertedLeaf<V>(r: Shape<V>, path: Key, key: Key, value: V)
    requires NewLeaf(r, key, value)
    ensures OneInsertion(Nil, r, path, key, value)
  {
  }

  lemma InsertedAtLeaf<V>(t: Shape<V>, r: Shape<V>, path: Key, key: Key, value: V)
    requires t.Leaf?
    requires if t.key == key then r == t.(value := value) else BranchesOff(t, r, path, key, value)
    ensures OneInsertion(t, r, path, key, value)
  {
  }

  lemma InsertedTerm<V>(t: Shape<V>, r: Shape<V>, path: Key, key: Key, value: V)
    requires t.Inner? && key == path + t.prefix && TermPut(t, r, key, value)
    ensures OneInsertion(t, r, path, key, value)
  {
  }

  lemma InsertedKid<V>(t: Shape<V>, b: byte, r: Shape<V>, path: Key, key: Key, value: V)
    requires t.Inner? && path + t.prefix + [b] <= key && b !in t.kids && GainsKid(t, b, r, key, value)
    ensures OneInsertion(t, r, path, key, value)
  {
    var here := path + t.prefix;
    assert here <= here + [b] <= key && key[|here|] == (here + [b])[|here|] == b;
  }

  /** The key leaves the prefix of `t`, whose shortened self `u` hangs below the new node. */
  lemma InsertedAbove<V>(t: Shape<V>, u: Shape<V>, r: Shape<V>, path: Key, n: nat, key: Key, value: V)
    requires t.Inner? && r.Inner? && n < |t.prefix| && r.prefix == t.prefix[..n] && !(path + t.prefix <= key)
    requires Forks(r, path + t.prefix[..n], u, path + t.prefix[..n] + [t.prefix[n]], key, value)
    requires Shortened(t, u, n + 1)
    ensures OneInsertion(t, r, path, key, value)
  {
    var here, whole := path + t.prefix[..n], path + t.prefix;
    assert whole[|here|] == t.prefix[n] == (here + [t.prefix[n]])[|here|];
    assert here <= whole && whole[..|here|] == here;
    ForkSameByte(r, here, u, here + [t.prefix[n]], whole, key, value);
    hide Shortened;
  }
}
