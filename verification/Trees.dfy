/** The sorted map: put.go, delete.go, get.go and the public methods over them. */
module Trees {
  import opened Bytes
  import opened Tries
  import opened Edits
  import opened Layouts
  import opened Shapes
  import opened Nodes
  import opened Grafts
  import opened Reshapes
  import opened Insertions
  import opened Listings
  import opened Canon
  import opened Feeds
  import opened Windows
  import opened Walks
  import opened RangeWalks
  import opened Extremes
  import opened Queries
  import opened Clones

  ghost function FreshNode4<V>(n: InnerObj<V>, slice: Slice, prefix: Key): Shape<V> {
    Inner(Ref(InnerNode(n), slice, Objs(n), slice.Bufs()), K4, prefix, Nil, map[])
  }

  /** `append([]byte(nil), bytes...)`: nothing is allocated for no bytes. */
  method CopySlice(bytes: seq<byte>) returns (s: Slice)
    ensures s.InBounds() && s.Bytes() == bytes
  {
    if bytes == [] {
      s := NoBytes;
    } else {
      var buf := new Buffer(bytes);
      s := View(buf, 0, |bytes|);
    }
  }

  /** An inner node without children or terminal is what `FreshNode4` says. */
  lemma FreshNode4Held<V>(n: InnerObj<V>, t: Shape<V>, prefix: Key)
    requires n.layout.Layout4? && LayoutValid(n.layout) && KidsOf(n.layout) == map[]
    requires n.terminal == NilNode && n.prefix.InBounds() && n.prefix.Bytes() == prefix
    requires t == FreshNode4(n, n.prefix, prefix)
    ensures Held(t)
  {
  }

  method NewNode4<V>(prefix: Key) returns (n: InnerObj<V>, ghost t: Shape<V>)
    ensures Held(t) && t == FreshNode4(n, n.prefix, prefix) && fresh(Foot(t))
  {
    hide Held, Zip, Ascending;
    var slice := CopySlice(prefix);
    var table := new SortedTable(4);
    n := new InnerObj(slice, NilNode, Layout4(table));
    t := FreshNode4(n, slice, prefix);
    FreshNode4Held(n, t, prefix);
  }

  /** The canonical subtree that results from binding `key` in `t` */
  ghost predicate Holds<V>(t: Shape<V>, path: Key, es: set<Entry<V>>) {
    t != Nil && Canonical(t, path) && Entries(t) == es
  }

  // ---------- Entries and maps ----------

  lemma PairsUpdated<V>(m: map<Key, V>, key: Key, value: V)
    ensures Upsert(Pairs(m), key, value) == Pairs(m[key := value])
    ensures |m[key := value]| == |m| + (if key in m then 0 else 1)
  {
    var u := m[key := value];
    assert key in u;
    forall e | e in Pairs(u) ensures e in Upsert(Pairs(m), key, value) {
      if e.0 != key { assert e.0 in m && e == (e.0, m[e.0]); }
    }
    forall e | e in Upsert(Pairs(m), key, value) ensures e in Pairs(u) {
      assert e.0 in u && e == (e.0, u[e.0]);
    }
  }

  lemma PairsRemoved<V>(m: map<Key, V>, key: Key)
    ensures Without(Pairs(m), key) == Pairs(m - {key})
    ensures |m - {key}| == |m| - (if key in m then 1 else 0)
  {
    var u := m - {key};
    PairOfRest(m, u, key, Without(Pairs(m), key));
    if key in m { CardinalityWithout(m, key); } else { assert u == m; }
    hide Pairs, Without;
  }

  lemma PairOfRest<V>(m: map<Key, V>, u: map<Key, V>, key: Key, rest: set<Entry<V>>)
    requires u == m - {key} && rest == Without(Pairs(m), key)
    ensures rest == Pairs(u)
  {
    forall e | e in Pairs(u) ensures e in rest {
      assert e.0 in m && e == (e.0, m[e.0]);
    }
    forall e | e in rest ensures e in Pairs(u) {
      assert e.0 in u && e == (e.0, u[e.0]);
    }
  }

  lemma KeysOfPairs<V>(t: Shape<V>, m: map<Key, V>, key: Key)
    requires Entries(t) == Pairs(m)
    ensures HasKey(t, key) <==> key in m
  {
    if key in m { assert (key, m[key]) in Pairs(m); }
  }

  /** Equal bounds select nothing. */
  lemma EmptyInterval<V>(xs: seq<Entry<V>>, bound: Key)
    ensures Window(xs, Some(bound), Some(bound)) == [] && Reverse(Window(xs, Some(bound), Some(bound))) == []
  {
    WindowEmpty(xs, Some(bound), Some(bound));
  }

  class Tree<V> {
    var root: Node<V>
    var size: int
    /** The heap structure below `root` */
    ghost var shape: Shape<V>
    /** The map this tree stands for */
    ghost var contents: map<Key, V>

    ghost predicate Valid()
      reads this, Foot(shape), Bufs(shape)
    {
      && Held(shape) && Root(shape) == root && this !in Foot(shape)
      && Canonical(shape, [])
      && Entries(shape) == Pairs(contents)
      && size == |contents|
    }

    constructor ()
      ensures Valid() && contents == map[] && Foot(shape) == {}
    {
      root := NilNode;
      size := 0;
      shape := Nil;
      contents := map[];
    }

    /** `&Tree[V]{root: root, size: size}`, over a structure that stands for `contents` */
    constructor Over(root: Node<V>, size: int, ghost shape: Shape<V>, ghost contents: map<Key, V>)
      requires Held(shape) && Root(shape) == root && Canonical(shape, []) && Entries(shape) == Pairs(contents)
      requires size == |contents|
      ensures Valid() && this.shape == shape && this.contents == contents
    {
      hide Held, Canonical, Entries;
      this.root := root;
      this.size := size;
      this.shape := shape;
      this.contents := contents;
      HeldApart(shape);
      new;
      NotABuffer(shape);
    }

    /** `Len` */
    method Len() returns (n: int)
      requires Valid()
      ensures n == |contents|
    {
      n := size;
    }

    method Put(key: Key, value: V)
      requires Valid()
      modifies this, Foot(shape)
      ensures Valid() && contents == old(contents)[key := value]
      ensures OneInsertion(old(shape), shape, [], key, value)
      ensures fresh(Foot(shape) - old(Foot(shape)))
    {
      hide Held, Canonical, Entries, OneInsertion;
      assert key[..0] == [];
      PairsUpdated(contents, key, value);
      KeysOfPairs(shape, contents, key);
      ghost var shape';
      root, shape' := PutInto(root, key, value, 0, shape);
      NotABuffer(shape');
      shape := shape';
      contents := contents[key := value];
    }

    method Delete(key: Key) returns (present: bool)
      requires Valid()
      modifies this, Foot(shape)
      ensures Valid() && contents == old(contents) - {key}
      ensures present <==> key in old(contents)
      ensures !present ==> root == old(root) && shape == old(shape)
      ensures OneReshape(old(shape), shape, [], key)
      ensures fresh(Foot(shape) - old(Foot(shape)))
    {
      hide Held, Canonical, Entries, OneReshape, Pairs, Without, HasKey;
      assert key[..0] == [];
      PairsRemoved(contents, key);
      KeysOfPairs(shape, contents, key);
      var before := size;
      ghost var shape';
      root, shape' := DeleteFrom(root, key, 0, shape);
      NotABuffer(shape');
      shape := shape';
      contents := contents - {key};
      present := size != before;
    }

    method Clear()
      requires Valid()
      modifies this
      ensures Valid() && contents == map[] && shape == Nil
    {
      root := NilNode;
      size := 0;
      shape := Nil;
      contents := map[];
    }

    // ---------- Queries ----------

    /** `Get`, together with the number of inner nodes it meets */
    method Get(key: Key) returns (value: Option<V>, ghost visits: nat)
      requires Valid()
      ensures value == if key in contents then Some(contents[key]) else None
      ensures visits == InnerMet(shape, key, 0) <= |key| + 1
    {
      hide Held, Canonical, Entries, InnerMet;
      InnerMetBound(shape, key, 0);
      value, visits := Lookup(root, key, shape);
      if key in contents { assert (key, contents[key]) in Pairs(contents); }
    }

    method Min() returns (e: Option<Entry<V>>)
      requires Valid()
      ensures Least(e, Pairs(contents))
    {
      hide Held, Canonical, Entries, Least;
      var l := MinLeafOf(root, shape, []);
      e := if l.Some? then Some((l.value.key, l.value.value)) else None;
    }

    method Max() returns (e: Option<Entry<V>>)
      requires Valid()
      ensures Greatest(e, Pairs(contents))
    {
      hide Held, Canonical, Entries, Greatest;
      var l := MaxLeafOf(root, shape, []);
      e := if l.Some? then Some((l.value.key, l.value.value)) else None;
    }

    method Ceiling(target: Key) returns (e: Option<Entry<V>>)
      requires Valid()
      ensures Least(e, AtOrAbove(Pairs(contents), target))
    {
      hide Held, Canonical, Entries, Least;
      assert target[..0] == [];
      var l := CeilingLeafOf(root, target, 0, shape);
      e := if l.Some? then Some((l.value.key, l.value.value)) else None;
    }

    method Floor(target: Key) returns (e: Option<Entry<V>>)
      requires Valid()
      ensures Greatest(e, AtOrBelow(Pairs(contents), target))
    {
      hide Held, Canonical, Entries, Greatest;
      assert target[..0] == [];
      var l := FloorLeafOf(root, target, 0, shape);
      e := if l.Some? then Some((l.value.key, l.value.value)) else None;
    }

    // ---------- Iteration ----------

    /** The forward walk meets the sorted contents. */
    lemma FlatIsSorted()
      requires Valid()
      ensures Flat(shape) == SortedPairs(contents)
    {
      hide Held, Canonical, Entries, Flat, SortedPairs, Listing;
      FlatIsListing(shape, []);
      ListingIsUnique(Flat(shape), SortedPairs(contents), Pairs(contents));
    }

    method All(y: Consumer<Entry<V>>)
      requires Valid() && y !in Foot(shape)
      modifies y
      ensures y.log == Feed(y.accept, old(y.log), SortedPairs(contents)).log
    {
      hide Held, Canonical, Entries, Feed, Flat, SortedPairs, Reverse;
      FlatIsSorted();
      var _ := Iterate(root, y, shape);
    }

    method AllDescending(y: Consumer<Entry<V>>)
      requires Valid() && y !in Foot(shape)
      modifies y
      ensures y.log == Feed(y.accept, old(y.log), Reverse(SortedPairs(contents))).log
    {
      hide Held, Canonical, Entries, Feed, Flat, SortedPairs, Reverse;
      FlatIsSorted();
      var _ := IterateDescending(root, y, shape);
    }

    method Range(start: Option<Key>, end: Option<Key>, y: Consumer<Entry<V>>)
      requires Valid() && y !in Foot(shape)
      requires start.Some? && end.Some? ==> AtMost(start.value, end.value)
      modifies y
      ensures y.log == Feed(y.accept, old(y.log), Window(SortedPairs(contents), start, end)).log
      ensures start.Some? && start == end ==> y.log == old(y.log)
    {
      hide Held, Canonical, Entries, Feed, Window, Flat, SortedPairs, Reverse;
      FlatIsSorted();
      if start.Some? && end.Some? && start.value == end.value {
        EmptyInterval(SortedPairs(contents), start.value);
        FeedNone(y.accept, y.log);
        return;
      }
      NotABuffer(shape);
      var path := new PathBuffer(32);
      var _ := IterateRange(root, path, start, end, y, shape);
    }

    method RangeFrom(start: Option<Key>, y: Consumer<Entry<V>>)
      requires Valid() && y !in Foot(shape)
      modifies y
      ensures y.log == Feed(y.accept, old(y.log), Window(SortedPairs(contents), start, None)).log
    {
      Range(start, None, y);
    }

    method RangeTo(end: Option<Key>, y: Consumer<Entry<V>>)
      requires Valid() && y !in Foot(shape)
      modifies y
      ensures y.log == Feed(y.accept, old(y.log), Window(SortedPairs(contents), None, end)).log
    {
      Range(None, end, y);
    }

    method RangeDescending(start: Option<Key>, end: Option<Key>, y: Consumer<Entry<V>>)
      requires Valid() && y !in Foot(shape)
      requires start.Some? && end.Some? ==> AtMost(start.value, end.value)
      modifies y
      ensures y.log == Feed(y.accept, old(y.log), Reverse(Window(SortedPairs(contents), start, end))).log
      ensures start.Some? && start == end ==> y.log == old(y.log)
    {
      hide Held, Canonical, Entries, Feed, Window, Flat, SortedPairs, Reverse;
      FlatIsSorted();
      if start.Some? && end.Some? && start.value == end.value {
        EmptyInterval(SortedPairs(contents), start.value);
        FeedNone(y.accept, y.log);
        return;
      }
      NotABuffer(shape);
      var path := new PathBuffer(32);
      var _ := IterateRangeDescending(root, path, start, end, y, shape);
    }

    // ---------- Clone ----------

    /** The two trees have no mutable object in common. */
    ghost predicate ApartFrom(other: Tree<V>)
      reads this, other
    {
      this != other && ({this} + Foot(shape)) !! ({other} + Foot(other.shape))
    }

    method Clone() returns (copy: Tree<V>)
      requires Valid()
      ensures fresh(copy) && copy.Valid() && copy.contents == contents && copy.ApartFrom(this)
      ensures fresh(Foot(copy.shape)) && Bufs(copy.shape) <= Bufs(shape) && SameShape(shape, copy.shape)
    {
      hide Held, Canonical, Entries, SameShape;
      var r;
      ghost var t;
      HeldApart(shape);
      r, t := CloneNode(root, shape, []);
      SameShapeSameEntries(shape, t, []);
      HeldApart(t);
      copy := new Tree.Over(r, size, t, contents);
    }

    /** The tree object itself is none of the buffers a structure reads. */
    lemma NotABuffer(t: Shape<V>)
      ensures {this as object} !! Bufs(t)
    {
    }

    // ---------- put.go ----------

    method InsertLeaf(key: Key, value: V) returns (l: LeafObj<V>, ghost t: Shape<V>)
      modifies this`size
      ensures fresh(l) && l.key == key && t == LeafShape(l, value) && Held(t)
      ensures size == old(size) + 1
    {
      size := size + 1;
      l := new LeafObj(key, value);
      t := LeafShape(l, value);
    }

    method NewNode4With(existing: LeafObj<V>, key: Key, value: V, depth: nat, ghost t: Shape<V>)
      returns (n: InnerObj<V>, ghost t': Shape<V>)
      requires Held(t) && t.Leaf? && t.id.node == LeafNode(existing)
      requires depth <= |key| && depth <= |t.key| && key[..depth] == t.key[..depth]
      requires existing.key != key && this !in Foot(t)
      modifies this`size
      ensures Held(t') && Root(t') == InnerNode(n) && fresh(Foot(t') - Foot(t))
      ensures Holds(t', key[..depth], {(t.key, t.value), (key, value)})
      ensures BranchesOff(t, t', key[..depth], key, value)
      ensures size == old(size) + 1
    {
      LeafHeld(t);
      var diverge := Divergence(existing.key, key, depth);
      n, t' := BranchAt(existing, key, value, depth, diverge, t);
    }

    method BranchAt(existing: LeafObj<V>, key: Key, value: V, depth: nat, diverge: nat, ghost t: Shape<V>)
      returns (n: InnerObj<V>, ghost t': Shape<V>)
      requires Held(t) && t.Leaf? && t.id.node == LeafNode(existing) && existing in Foot(t) && existing.key == t.key
      requires depth <= diverge <= |key| && Diverge(t.key, key, diverge) && this !in Foot(t)
      modifies this`size
      ensures Held(t') && Root(t') == InnerNode(n) && fresh(Foot(t') - Foot(t))
      ensures Holds(t', key[..depth], {(t.key, t.value), (key, value)})
      ensures BranchesOff(t, t', key[..depth], key, value)
      ensures size == old(size) + 1
    {
      hide Held, Canonical, Entries, NodeAgrees, Sep, Diverge, Forks;
      ghost var t0, leaf;
      var l;
      ghost var path, here := key[..depth], key[..diverge];
      n, t0 := NewNode4(key[depth..diverge]);
      assert path + t0.prefix == here;
      NotABuffer(t);
      NotABuffer(t0);
      l, leaf := InsertLeaf(key, value);
      DivergeFacts(t.key, key, diverge);
      if diverge < |existing.key| { LeafFacts(t, here + [existing.key[diverge]]); }
      if diverge < |key| { LeafFacts(leaf, here + [key[diverge]]); }
      if diverge == |existing.key| {
        t' := TerminalAndKid(n, LeafNode(existing), t, key[diverge], LeafNode(l), leaf, t0, path);
      } else if diverge == |key| {
        t' := TerminalAndKid(n, LeafNode(l), leaf, existing.key[diverge], LeafNode(existing), t, t0, path);
      } else {
        t' := TwoKidsNode(n, existing.key[diverge], LeafNode(existing), t, key[diverge], LeafNode(l), leaf, t0, path);
      }
      ForkFromParts(t', here, t, t.key, leaf, key, value);
    }

    method SplitPrefixedInner(adoptee: InnerObj<V>, oldBranch: byte, shared: Slice, key: Key, value: V,
                              depth: nat, splitPoint: nat, ghost t: Shape<V>)
      returns (parent: InnerObj<V>, ghost t': Shape<V>)
      requires Held(t) && t.Inner? && t.id.node == InnerNode(adoptee) && this !in Foot(t)
      requires depth + splitPoint <= |key| && shared.InBounds() && shared.Bytes() == key[depth..depth + splitPoint]
      requires Canonical(t, key[..depth + splitPoint] + [oldBranch])
      requires depth + splitPoint < |key| ==> key[depth + splitPoint] != oldBranch
      modifies this`size
      ensures Held(t') && Root(t') == InnerNode(parent) && fresh(Foot(t') - Foot(t))
      ensures Holds(t', key[..depth], Entries(t) + {(key, value)})
      ensures t'.Inner? && t'.prefix == key[depth..depth + splitPoint]
      ensures var here := key[..depth + splitPoint]; Forks(t', here, t, here + [oldBranch], key, value)
      ensures size == old(size) + 1
    {
      hide Held, Canonical, Entries, NodeAgrees, Sep, Forks;
      ghost var path, here := key[..depth], key[..depth + splitPoint];
      ghost var t0, leaf;
      parent, t0 := NewNode4(shared.Bytes());
      assert path + t0.prefix == here;
      var l;
      NotABuffer(t);
      NotABuffer(t0);
      l, leaf := InsertLeaf(key, value);
      if depth + splitPoint == |key| {
        assert here == key;
        t' := TerminalAndKid(parent, LeafNode(l), leaf, oldBranch, InnerNode(adoptee), t, t0, path);
      } else {
        assert here + [key[depth + splitPoint]] <= key;
        LeafFacts(leaf, here + [key[depth + splitPoint]]);
        t' := TwoKidsNode(parent, oldBranch, InnerNode(adoptee), t,
                          key[depth + splitPoint], LeafNode(l), leaf, t0, path);
      }
      ForkFromParts(t', here, t, here + [oldBranch], leaf, key, value);
    }

    /** What Put promises of a subtree at `path` */
    ghost predicate Bound(t: Shape<V>, t': Shape<V>, path: Key, key: Key, value: V) {
      Holds(t', path, Upsert(Entries(t), key, value))
    }

    /** 1 when `key` is new to `t` */
    ghost function Growth(t: Shape<V>, key: Key): int {
      if HasKey(t, key) then 0 else 1
    }

    method PutInto(current: Node<V>, key: Key, value: V, depth: nat, ghost t: Shape<V>)
      returns (r: Node<V>, ghost t': Shape<V>)
      requires Held(t) && Root(t) == current && this !in Foot(t)
      requires depth <= |key| && Canonical(t, key[..depth])
      modifies this`size, Foot(t)
      ensures Held(t') && Root(t') == r && fresh(Foot(t') - Foot(t))
      ensures Bound(t, t', key[..depth], key, value)
      ensures OneInsertion(t, t', key[..depth], key, value)
      ensures size == old(size) + Growth(t, key)
      decreases t, 2
    {
      hide Held, Canonical, Entries, NodeAgrees, Sep, OneInsertion, BranchesOff, Forks;
      match current
      case NilNode =>
        PutInNil(t, key, value);
        var l;
        l, t' := InsertLeaf(key, value);
        LeafFacts(t', key[..depth]);
        InsertedLeaf(t', key[..depth], key, value);
        r := LeafNode(l);
      case LeafNode(l) =>
        LeafShapeOf(t, l);
        PutAtLeaf(t, key[..depth], key, value);
        if l.key == key {
          OverwriteLeaf(l, value, t);
          r, t' := current, t.(value := value);
        } else {
          var n;
          n, t' := NewNode4With(l, key, value, depth, t);
          r := InnerNode(n);
        }
        InsertedAtLeaf(t, t', key[..depth], key, value);
      case InnerNode(n) =>
        InnerShapeOf(t, n);
        NotABuffer(t);
        var prefix := n.prefix.Bytes();
        var splitPoint := LongestCommonPrefix(key[depth..], prefix);
        if splitPoint < |prefix| {
          r, t' := PutSplit(n, key, value, depth, splitPoint, t);
        } else {
          var m;
          assert key[depth..][..splitPoint] == prefix[..splitPoint] == prefix;
          assert key[..depth + |prefix|] == key[..depth] + key[depth..][..|prefix|];
          m, t' := PutIntoInner(n, key, value, depth + |prefix|, t, depth);
          r := InnerNode(m);
        }
    }

    lemma PutInNil(t: Shape<V>, key: Key, value: V)
      requires Held(t) && Root(t) == NilNode
      ensures t == Nil && Upsert(Entries(t), key, value) == {(key, value)} && !HasKey(t, key)
    {
    }

    lemma PutAtLeaf(t: Shape<V>, path: Key, key: Key, value: V)
      requires t.Leaf? && Canonical(t, path) && path <= key
      ensures |path| <= |t.key| && path == t.key[..|path|]
      ensures key == t.key ==> Bound(t, t.(value := value), path, key, value) && HasKey(t, key)
      ensures key != t.key ==> Upsert(Entries(t), key, value) == {(t.key, t.value), (key, value)} && !HasKey(t, key)
    {
      if key == t.key { assert (t.key, t.value) in Entries(t); }
    }

    /** The key leaves the node's prefix at `splitPoint`. */
    method PutSplit(n: InnerObj<V>, key: Key, value: V, depth: nat, splitPoint: nat, ghost t: Shape<V>)
      returns (r: Node<V>, ghost t': Shape<V>)
      requires Held(t) && Root(t) == InnerNode(n) && t.Inner? && this !in Foot(t)
      requires n.prefix == t.id.slice && n.prefix.InBounds() && n.prefix.Bytes() == t.prefix && n in Foot(t)
      requires depth + splitPoint <= |key| && Canonical(t, key[..depth])
      requires splitPoint < |t.prefix| && key[depth..depth + splitPoint] == t.prefix[..splitPoint]
      requires depth + splitPoint < |key| ==> key[depth + splitPoint] != t.prefix[splitPoint]
      modifies this`size, n`prefix
      ensures Held(t') && Root(t') == r && fresh(Foot(t') - Foot(t))
      ensures Bound(t, t', key[..depth], key, value) && !HasKey(t, key)
      ensures OneInsertion(t, t', key[..depth], key, value)
      ensures size == old(size) + 1
    {
      hide Held, Canonical, Entries, NodeAgrees, Sep, OneInsertion, BranchesOff, Forks, Shortened;
      ghost var path := key[..depth];
      var prefix := n.prefix;
      var oldBranch := prefix.Bytes()[splitPoint];
      var shared := prefix.Sub(0, splitPoint);
      var rest := prefix.Sub(splitPoint + 1, |prefix.Bytes()|);
      ghost var t0 := Prefixed(t, rest, t.prefix[splitPoint + 1..]);
      SubBytes(prefix, 0, splitPoint);
      SubBytes(prefix, splitPoint + 1, |prefix.Bytes()|);
      CanonicalAdoptee(t, path, splitPoint, t0);
      PutBeside(t, key, depth, splitPoint);
      SetPrefix(n, rest, t, t.prefix[splitPoint + 1..]);
      assert shared.InBounds() && shared.Bytes() == key[depth..depth + splitPoint];
      var parent;
      parent, t' := SplitPrefixedInner(n, oldBranch, shared, key, value, depth, splitPoint, t0);
      SplitShortens(t, rest, splitPoint, t0);
      InsertedAbove(t, t0, t', path, splitPoint, key, value);
      r := InnerNode(parent);
    }

    lemma SplitShortens(t: Shape<V>, rest: Slice, splitPoint: nat, t0: Shape<V>)
      requires t.Inner? && splitPoint < |t.prefix| && rest.Bufs() == t.id.slice.Bufs()
      requires t0 == Prefixed(t, rest, t.prefix[splitPoint + 1..])
      ensures Shortened(t, t0, splitPoint + 1)
    {
    }

    lemma PutBeside(t: Shape<V>, key: Key, depth: nat, splitPoint: nat)
      requires t.Inner? && depth + splitPoint <= |key| && Canonical(t, key[..depth])
      requires splitPoint < |t.prefix| && key[depth..depth + splitPoint] == t.prefix[..splitPoint]
      requires depth + splitPoint < |key| ==> key[depth + splitPoint] != t.prefix[splitPoint]
      ensures key[..depth] + t.prefix[..splitPoint] == key[..depth + splitPoint]
      ensures !(key[..depth] + t.prefix <= key)
      ensures Without(Entries(t), key) == Entries(t) && !HasKey(t, key)
    {
      hide Canonical, Entries, HasKey, Without;
      var path := key[..depth];
      assert key[..depth + splitPoint] == path + key[depth..depth + splitPoint];
      assert (path + t.prefix)[depth + splitPoint] == t.prefix[splitPoint];
      NotBelowPrefix(t, path, key);
    }

    /** The node's prefix has been consumed: `key[..depth]` is the node's own path. */
    method PutIntoInner(n: InnerObj<V>, key: Key, value: V, depth: nat, ghost t: Shape<V>, ghost start: nat)
      returns (r: InnerObj<V>, ghost t': Shape<V>)
      requires Held(t) && Root(t) == InnerNode(n) && t.Inner? && this !in Foot(t) && Objs(n) <= Foot(t)
      requires start <= depth <= |key| && key[..depth] == key[..start] + t.prefix && Canonical(t, key[..start])
      modifies this`size, Foot(t)
      ensures Held(t') && Root(t') == InnerNode(r) && fresh(Foot(t') - Foot(t))
      ensures Bound(t, t', key[..start], key, value)
      ensures OneInsertion(t, t', key[..start], key, value)
      ensures size == old(size) + Growth(t, key)
      decreases t, 1
    {
      hide Held, Canonical, Entries, NodeAgrees, Sep, OneInsertion, BranchesOff, Forks;
      NotABuffer(t);
      ghost var path := key[..start];
      if depth == |key| {
        assert key == path + t.prefix;
        t' := PutTerminal(n, key, value, t, path);
        return n, t';
      }
      var branch := key[depth];
      BelowBranch(t, path, key, depth);
      var c := FindKid(n, branch, t);
      match c
      case NilNode =>
        r, t' := PutNewKid(n, branch, key, value, t, path);
      case LeafNode(l) =>
        t' := PutAtLeafKid(n, branch, l, key, value, depth + 1, t, path);
        r := n;
      case InnerNode(_) =>
        t' := PutBelow(n, branch, c, key, value, depth + 1, t, path);
        r := n;
    }

    /** The child under `branch` is an inner node: recurse into it. */
    method PutBelow(n: InnerObj<V>, branch: byte, c: Node<V>, key: Key, value: V, depth: nat,
                    ghost t: Shape<V>, ghost path: Key)
      returns (ghost t': Shape<V>)
      requires Held(t) && Root(t) == InnerNode(n) && t.Inner? && this !in Foot(t) && Objs(n) <= Foot(t)
      requires depth <= |key| && key[..depth] == path + t.prefix + [branch] && Canonical(t, path)
      requires branch in t.kids && Root(t.kids[branch]) == c && Canonical(t.kids[branch], key[..depth])
      modifies this`size, Foot(t)
      ensures Held(t') && Root(t') == InnerNode(n) && fresh(Foot(t') - Foot(t))
      ensures Bound(t, t', path, key, value)
      ensures OneInsertion(t, t', path, key, value)
      ensures size == old(size) + Growth(t, key)
      decreases t, 0
    {
      hide Held, Canonical, Entries, NodeAgrees, Sep, OneInsertion, BranchesOff, Forks;
      ghost var kid := t.kids[branch];
      HeldParts(t);
      KidIsApart(n, t, branch);
      KindIsCanonical(t, path);
      NotABuffer(t.term);
      NotABuffer(t);
      var c';
      ghost var kid';
      c', kid' := PutInto(c, key, value, depth, kid);
      assert Held(t.term);
      forall b | b in t.kids && b != branch ensures Held(t.kids[b]) { NotABuffer(t.kids[b]); }
      assert NodeAgrees(t);
      RootOfHeld(kid');
      ReplaceKid(n, branch, c', t, kid');
      t' := Grafted(t, branch, kid');
      CanonicalUpsert(t, path, branch, kid', t', key, value);
      HasKeyInKid(t, path, branch, key);
      InsertedBelow(t, branch, kid', t', path, key, value);
    }

    lemma NilRoot(t: Shape<V>)
      requires Held(t)
      ensures t.Nil? <==> Root(t) == NilNode
    {
    }

    lemma RootOfHeld(t: Shape<V>)
      requires Held(t) && t != Nil
      ensures Root(t) != NilNode
    {
    }

    /** The path below an inner node that `key` takes */
    lemma BelowBranch(t: Shape<V>, path: Key, key: Key, depth: nat)
      requires t.Inner? && Canonical(t, path) && depth < |key| && key[..depth] == path + t.prefix
      ensures key[..depth + 1] == path + t.prefix + [key[depth]] <= key
      ensures key[depth] in t.kids ==> Canonical(t.kids[key[depth]], key[..depth + 1])
    {
      hide Canonical;
      assert key[..depth + 1] == key[..depth] + [key[depth]];
      if key[depth] in t.kids { KidIsCanonical(t, path, key[depth]); }
    }

    lemma KidIsCanonical(t: Shape<V>, path: Key, b: byte)
      requires t.Inner? && Canonical(t, path) && b in t.kids
      ensures Canonical(t.kids[b], path + t.prefix + [b])
    {
    }

    method FindKid(n: InnerObj<V>, b: byte, ghost t: Shape<V>) returns (c: Node<V>)
      requires Held(t) && Root(t) == InnerNode(n) && t.Inner?
      ensures b !in t.kids ==> c == NilNode
      ensures b in t.kids ==> c == Root(t.kids[b]) != NilNode
    {
      c := FindChild(n.layout, b);
    }

    method PutTerminal(n: InnerObj<V>, key: Key, value: V, ghost t: Shape<V>, ghost path: Key)
      returns (ghost t': Shape<V>)
      requires Held(t) && Root(t) == InnerNode(n) && t.Inner? && this !in Foot(t) && Objs(n) <= Foot(t)
      requires key == path + t.prefix && Canonical(t, path)
      modifies this`size, Foot(t)
      ensures Held(t') && Root(t') == InnerNode(n) && fresh(Foot(t') - Foot(t))
      ensures Bound(t, t', path, key, value)
      ensures OneInsertion(t, t', path, key, value)
      ensures size == old(size) + Growth(t, key)
    {
      hide Held, Canonical, Entries, NodeAgrees, Sep, OneInsertion, BranchesOff, Forks;
      TerminalOf(n, t, path);
      if n.terminal.LeafNode? {
        t' := t.(term := t.term.(value := value));
        CanonicalUpsertTerm(t, path, t'.term, t');
        OverwriteTerminal(n, n.terminal.leaf, value, t);
        InsertedTerm(t, t', path, key, value);
      } else {
        var l;
        ghost var leaf;
        NotABuffer(t);
        l, leaf := InsertLeaf(key, value);
        t' := Terminated(t, leaf);
        CanonicalUpsertTerm(t, path, leaf, t');
        SetTerminal(n, LeafNode(l), t, leaf);
        InsertedTerm(t, t', path, key, value);
      }
    }

    lemma TerminalOf(n: InnerObj<V>, t: Shape<V>, path: Key)
      requires Held(t) && Root(t) == InnerNode(n) && t.Inner? && Canonical(t, path)
      ensures n.terminal.LeafNode? <==> t.term.Leaf?
      ensures t.term.Leaf? ==> t.term.id.node == n.terminal && n.terminal.leaf in Foot(t)
      ensures t.term.Leaf? ==> n.terminal.leaf.key == t.term.key == path + t.prefix
      ensures !t.term.Leaf? ==> t.term == Nil
    {
    }

    method PutNewKid(n: InnerObj<V>, branch: byte, key: Key, value: V, ghost t: Shape<V>, ghost path: Key)
      returns (r: InnerObj<V>, ghost t': Shape<V>)
      requires Held(t) && Root(t) == InnerNode(n) && t.Inner? && this !in Foot(t) && Objs(n) <= Foot(t)
      requires path + t.prefix + [branch] <= key && branch !in t.kids && Canonical(t, path)
      modifies this`size, Foot(t)
      ensures Held(t') && Root(t') == InnerNode(r) && fresh(Foot(t') - Foot(t))
      ensures Bound(t, t', path, key, value)
      ensures OneInsertion(t, t', path, key, value)
      ensures size == old(size) + Growth(t, key)
    {
      hide Held, Canonical, Entries, NodeAgrees, Sep, OneInsertion, BranchesOff, Forks;
      var l;
      ghost var leaf;
      NotABuffer(t);
      l, leaf := InsertLeaf(key, value);
      KindIsCanonical(t, path);
      r, t' := AddKid(n, branch, LeafNode(l), t, leaf);
      LeafFacts(leaf, path + t.prefix + [branch]);
      CanonicalUpsert(t, path, branch, leaf, t', key, value);
      HasKeyInKid(t, path, branch, key);
      InsertedKid(t, branch, t', path, key, value);
    }

    lemma KindIsCanonical(t: Shape<V>, path: Key)
      requires t.Inner? && Canonical(t, path)
      ensures t.kind == KindFor(|t.kids|)
    {
    }

    method PutAtLeafKid(n: InnerObj<V>, branch: byte, l: LeafObj<V>, key: Key, value: V, depth: nat,
                        ghost t: Shape<V>, ghost path: Key)
      returns (ghost t': Shape<V>)
      requires Held(t) && Root(t) == InnerNode(n) && t.Inner? && this !in Foot(t) && Objs(n) <= Foot(t)
      requires depth <= |key| && key[..depth] == path + t.prefix + [branch] && Canonical(t, path)
      requires branch in t.kids && Root(t.kids[branch]) == LeafNode(l) && Canonical(t.kids[branch], key[..depth])
      modifies this`size, Foot(t)
      ensures Held(t') && Root(t') == InnerNode(n) && fresh(Foot(t') - Foot(t))
      ensures Bound(t, t', path, key, value)
      ensures OneInsertion(t, t', path, key, value)
      ensures size == old(size) + Growth(t, key)
    {
      hide Held, Canonical, Entries, NodeAgrees, Sep, OneInsertion, BranchesOff, Forks;
      ghost var kid := t.kids[branch];
      HeldParts(t);
      KidIsApart(n, t, branch);
      KindIsCanonical(t, path);
      NotABuffer(t.term);
      LeafShapeOf(kid, l);
      PutAtLeaf(kid, key[..depth], key, value);
      ghost var kid';
      if l.key == key {
        kid' := kid.(value := value);
        OverwriteKid(n, branch, l, value, t);
      } else {
        kid' := ForkKid(n, branch, l, key, value, depth, t);
      }
      t' := Grafted(t, branch, kid');
      CanonicalUpsert(t, path, branch, kid', t', key, value);
      HasKeyInKid(t, path, branch, key);
      InsertedAtLeaf(kid, kid', key[..depth], key, value);
      InsertedBelow(t, branch, kid', t', path, key, value);
    }

    method OverwriteKid(n: InnerObj<V>, branch: byte, l: LeafObj<V>, value: V, ghost t: Shape<V>)
      requires Held(t) && Root(t) == InnerNode(n) && t.Inner? && Objs(n) <= Foot(t)
      requires branch in t.kids && t.kids[branch].Leaf? && Root(t.kids[branch]) == LeafNode(l)
      modifies l`value
      ensures Held(Grafted(t, branch, t.kids[branch].(value := value)))
    {
      hide Held, Canonical, Entries, NodeAgrees, Sep;
      ghost var kid := t.kids[branch];
      HeldParts(t);
      KidIsApart(n, t, branch);
      LeafShapeOf(kid, l);
      NotABuffer(t.term);
      OverwriteLeaf(l, value, kid);
      assert Held(t.term);
      forall b | b in t.kids && b != branch ensures Held(t.kids[b]) { NotABuffer(t.kids[b]); }
      assert NodeAgrees(t);
      KidChangedBelow(n, t, branch, kid.(value := value));
    }

    /** The leaf under `branch` gives way to a node4 with that leaf and the new one. */
    method ForkKid(n: InnerObj<V>, branch: byte, l: LeafObj<V>, key: Key, value: V, depth: nat, ghost t: Shape<V>)
      returns (ghost kid': Shape<V>)
      requires Held(t) && Root(t) == InnerNode(n) && t.Inner? && this !in Foot(t) && Objs(n) <= Foot(t)
      requires branch in t.kids && t.kids[branch].Leaf? && Root(t.kids[branch]) == LeafNode(l) && l.key != key
      requires depth <= |key| && depth <= |t.kids[branch].key| && key[..depth] == t.kids[branch].key[..depth]
      modifies this`size, Foot(t)
      ensures Held(Grafted(t, branch, kid')) && fresh(Foot(kid') - Foot(t.kids[branch]))
      ensures kid' != Nil && BranchesOff(t.kids[branch], kid', key[..depth], key, value)
      ensures Holds(kid', key[..depth], {(t.kids[branch].key, t.kids[branch].value), (key, value)})
      ensures size == old(size) + 1
    {
      hide Held, Canonical, Entries, NodeAgrees, Sep, BranchesOff, Forks;
      ghost var kid := t.kids[branch];
      HeldParts(t);
      KidIsApart(n, t, branch);
      NotABuffer(t.term);
      var m;
      m, kid' := NewNode4With(l, key, value, depth, kid);
      assert Held(t.term);
      forall b | b in t.kids && b != branch ensures Held(t.kids[b]) { NotABuffer(t.kids[b]); }
      assert NodeAgrees(t);
      ReplaceKid(n, branch, InnerNode(m), t, kid');
    }

    lemma LeafShapeOf(t: Shape<V>, l: LeafObj<V>)
      requires Held(t) && Root(t) == LeafNode(l)
      ensures t.Leaf? && l in Foot(t) && l.key == t.key
    {
    }

    lemma InnerShapeOf(t: Shape<V>, n: InnerObj<V>)
      requires Held(t) && Root(t) == InnerNode(n)
      ensures t.Inner? && Objs(n) <= Foot(t) && n.prefix == t.id.slice
      ensures n.prefix.InBounds() && n.prefix.Bytes() == t.prefix
    {
    }

    // ---------- delete.go ----------

    ghost predicate Dropped(t: Shape<V>, t': Shape<V>, path: Key, key: Key) {
      Canonical(t', path) && Entries(t') == Without(Entries(t), key)
    }

    method DeleteFrom(current: Node<V>, key: Key, depth: nat, ghost t: Shape<V>)
      returns (r: Node<V>, ghost t': Shape<V>)
      requires Held(t) && Root(t) == current && this !in Foot(t)
      requires depth <= |key| && Canonical(t, key[..depth])
      modifies this`size, Foot(t)
      ensures Held(t') && Root(t') == r && fresh(Foot(t') - Foot(t))
      ensures Dropped(t, t', key[..depth], key)
      ensures size == old(size) - (if HasKey(t, key) then 1 else 0)
      ensures !HasKey(t, key) ==> r == current && t' == t
      ensures OneReshape(t, t', key[..depth], key) && (t.Inner? ==> t' != Nil)
      decreases t, 2
    {
      hide Held, Canonical, Entries, NodeAgrees, Sep, OneReshape, ReshapesTo;
      NotABuffer(t);
      match current
      case NilNode =>
        DeleteFromNil(t, key);
        OneReshapeOfNone(t, key[..depth], key);
        r, t' := NilNode, t;
      case LeafNode(l) =>
        LeafShapeOf(t, l);
        DeleteAtLeaf(t, key[..depth], key);
        OneReshapeOfLeaf(t, key[..depth], key);
        if l.key == key {
          size := size - 1;
          r, t' := NilNode, Nil;
          NilIsHeld();
        } else {
          r, t' := current, t;
        }
      case InnerNode(n) =>
        InnerShapeOf(t, n);
        var consumed := ConsumePrefix(n.prefix.Bytes(), key, depth);
        if consumed.None? {
          NotBelowPrefix(t, key[..depth], key);
          OneReshapeOfNone(t, key[..depth], key);
          r, t' := current, t;
        } else if consumed.value == |key| {
          r, t' := DeleteTerminal(n, key, t, key[..depth]);
        } else {
          var d := consumed.value;
          BelowBranch(t, key[..depth], key, d);
          r, t' := DeleteBelow(n, key[d], key, d + 1, t, key[..depth]);
        }
    }

    lemma OneReshapeOfNone(t: Shape<V>, path: Key, key: Key)
      requires t.Nil? || t.Inner?
      ensures OneReshape(t, t, path, key)
    {
    }

    lemma OneReshapeOfLeaf(t: Shape<V>, path: Key, key: Key)
      requires t.Leaf?
      ensures OneReshape(t, if t.key == key then Nil else t, path, key)
    {
    }

    lemma OneReshapeAtTerm(t: Shape<V>, t': Shape<V>, path: Key, key: Key)
      requires t.Inner? && key == path + t.prefix && t.term.Leaf? && ReshapesTo(Terminated(t, Nil), t')
      ensures OneReshape(t, t', path, key)
    {
    }

    lemma NilIsHeld()
      ensures Held<V>(Nil) && Canonical<Ref<V>, V>(Nil, []) && Entries<Ref<V>, V>(Nil) == {}
      ensures forall path :: Canonical<Ref<V>, V>(Nil, path)
    {
    }

    lemma DeleteFromNil(t: Shape<V>, key: Key)
      requires Held(t) && Root(t) == NilNode
      ensures t.Nil? && Without(Entries(t), key) == Entries(t) && !HasKey(t, key)
    {
    }

    lemma DeleteAtLeaf(t: Shape<V>, path: Key, key: Key)
      requires t.Leaf? && Canonical(t, path)
      ensures key == t.key ==> Without(Entries(t), key) == {} && HasKey(t, key)
      ensures key != t.key ==> Without(Entries(t), key) == Entries(t) && !HasKey(t, key)
    {
      if key == t.key { assert (t.key, t.value) in Entries(t); }
    }

    /** `clearTerminalIfMatches`, then reshape */
    method DeleteTerminal(n: InnerObj<V>, key: Key, ghost t: Shape<V>, ghost path: Key)
      returns (r: Node<V>, ghost t': Shape<V>)
      requires Held(t) && Root(t) == InnerNode(n) && t.Inner? && this !in Foot(t) && Objs(n) <= Foot(t)
      requires key == path + t.prefix && Canonical(t, path)
      modifies this`size, Foot(t)
      ensures Held(t') && Root(t') == r && fresh(Foot(t') - Foot(t))
      ensures Dropped(t, t', path, key)
      ensures size == old(size) - (if HasKey(t, key) then 1 else 0)
      ensures !HasKey(t, key) ==> r == InnerNode(n) && t' == t
      ensures OneReshape(t, t', path, key) && t' != Nil
    {
      hide Held, Canonical, Entries, NodeAgrees, Sep, OneReshape, ReshapesTo;
      TerminalOf(n, t, path);
      HasKeyInTerm(t, path);
      if !n.terminal.LeafNode? || n.terminal.leaf.key != key {
        WithoutAbsent(t, key);
        OneReshapeOfNone(t, path, key);
        return InnerNode(n), t;
      }
      NilIsHeld();
      ghost var t0 := Terminated(t, Nil);
      CanonicalClearTerm(t, path, t0);
      NotABuffer(t0);
      SetTerminal(n, NilNode, t, Nil);
      size := size - 1;
      r, t' := Reshape(n, t0, path);
      OneReshapeAtTerm(t, t', path, key);
    }

    /** Demote, collapse or merge the node, when its children ask for it. */
    method Reshape(n: InnerObj<V>, ghost t: Shape<V>, ghost path: Key) returns (r: Node<V>, ghost t': Shape<V>)
      requires Held(t) && Root(t) == InnerNode(n) && Reshapable(t, path) && Objs(n) <= Foot(t)
      modifies Foot(t)
      ensures Held(t') && Root(t') == r && fresh(Foot(t') - Foot(t))
      ensures t' != Nil && Canonical(t', path) && Entries(t') == Entries(t)
      ensures Canonical(t, path) ==> r == InnerNode(n) && t' == t
      ensures ReshapesTo(t, t')
    {
      hide Held, Canonical, Entries, NodeAgrees, Sep, Fits, Merged, OnlyEdgeOf, ReshapesTo, Reshapable;
      ReshapableParts(t, path);
      NotABuffer(t);
      NotABuffer(t.term);
      TerminalAgrees(n, t);
      TermInFoot(t);
      if Canonical(t, path) { ReshapedAlready(t, path); }
      var numChildren := CountKids(n, t);
      if numChildren == 0 {
        ghost var term := t.term;
        CollapseToTerm(t, path);
        ReshapesByCount(t, term);
        return n.terminal, term;
      }
      if n.layout.Layout4? {
        if numChildren == 1 && n.terminal == NilNode {
          r, t' := HoistOrMerge(n, t, path);
          ReshapesByHoist(t, t');
        } else {
          ReshapedCanonical(t, t, path);
          ReshapesByCount(t, t);
          r, t' := InnerNode(n), t;
        }
      } else {
        var m;
        m, t' := Demote(n, t);
        ReshapedCanonical(t, t', path);
        ReshapesByDemotion(t, m, t');
        r := InnerNode(m);
      }
    }

    lemma TermInFoot(t: Shape<V>)
      requires Held(t) && t.Inner?
      ensures Held(t.term) && Foot(t.term) <= Foot(t)
    {
    }

    lemma ReshapableParts(t: Shape<V>, path: Key)
      requires Reshapable(t, path)
      ensures t.Inner? && Fits(t, path) && |t.kids| + TermCount(t.term) >= 1
      ensures t.kind == KindFor(|t.kids|) || t.kind == KindFor(|t.kids| + 1)
    {
    }

    /** An empty node gives way to its terminal; a node4 that separates two keys stays. */
    lemma ReshapesByCount(t: Shape<V>, r: Shape<V>)
      requires t.Inner? && if |t.kids| == 0 then r == t.term
                           else t.kind.K4? && |t.kids| + TermCount(t.term) >= 2 && r == t
      ensures ReshapesTo(t, r)
    {
    }

    lemma ReshapesByHoist(t: Shape<V>, r: Shape<V>)
      requires t.Inner? && t.kind.K4? && |t.kids| == 1 && t.term.Nil?
      requires exists b :: OnlyEdgeOf(t, b) && (if t.kids[b].Leaf? then r == t.kids[b] else Merged(t, b, r))
      ensures ReshapesTo(t, r)
    {
    }

    lemma ReshapesByDemotion(t: Shape<V>, m: InnerObj<V>, r: Shape<V>)
      requires t.Inner? && !t.kind.K4? && |t.kids| > 0 && r == Demoted(t, m) && r.kind == KindFor(|t.kids|)
      requires t.kind == KindFor(|t.kids|) || t.kind == KindFor(|t.kids| + 1)
      requires t.kind == KindFor(|t.kids|) ==> r == t
      ensures ReshapesTo(t, r)
    {
    }

    lemma ReshapedAlready(t: Shape<V>, path: Key)
      requires t.Inner? && Canonical(t, path)
      ensures |t.kids| >= 1 && (t.kind.K4? ==> !(|t.kids| == 1 && t.term.Nil?)) && t.kind == KindFor(|t.kids|)
    {
      CanonicalNeedsNoReshape(t, path);
    }

    /** A reshapable node on the table its child count asks for is canonical. */
    lemma ReshapedCanonical(t: Shape<V>, t': Shape<V>, path: Key)
      requires Reshapable(t, path) && |t.kids| >= 1 && (t.kind == K4 ==> |t.kids| + TermCount(t.term) >= 2)
      requires t'.Inner? && t'.prefix == t.prefix && t'.term == t.term && t'.kids == t.kids
      requires t'.kind == KindFor(|t.kids|)
      ensures Canonical(t', path) && Entries(t') == Entries(t)
    {
      EntriesOfParts(t', t);
    }

    lemma TerminalAgrees(n: InnerObj<V>, t: Shape<V>)
      requires Held(t) && Root(t) == InnerNode(n) && t.Inner?
      ensures n.terminal == Root(t.term) && (n.terminal == NilNode <==> t.term.Nil?) && KindOf(n.layout) == t.kind
    {
    }

    method CountKids(n: InnerObj<V>, ghost t: Shape<V>) returns (count: nat)
      requires Held(t) && Root(t) == InnerNode(n) && t.Inner?
      ensures count == |t.kids|
    {
      AgreeCount(KidsOf(n.layout), t.kids);
      count := NumChildren(n.layout);
    }

    method OnlyKid(n: InnerObj<V>, ghost t: Shape<V>) returns (b: byte, child: Node<V>)
      requires Held(t) && Root(t) == InnerNode(n) && t.Inner? && n.layout.Layout4? && |t.kids| == 1
      ensures t.kids.Keys == {b} && child == Root(t.kids[b]) && t.kids[b] != Nil && child != NilNode
    {
      AgreeCount(KidsOf(n.layout), t.kids);
      b, child := OnlyEdge(n.layout);
    }

    /** The child takes over the parent's prefix and branch byte, in a buffer of its own. */
    method MergePrefixIntoChild(n: InnerObj<V>, b: byte, child: InnerObj<V>, ghost t: Shape<V>, ghost path: Key)
      returns (r: Node<V>, ghost t': Shape<V>)
      requires Held(t) && Root(t) == InnerNode(n) && t.Inner? && Fits(t, path)
      requires t.term.Nil? && t.kids.Keys == {b} && Root(t.kids[b]) == InnerNode(child)
      modifies Foot(t)
      ensures Held(t') && Root(t') == r && fresh(Foot(t') - Foot(t))
      ensures t' != Nil && Canonical(t', path) && Entries(t') == Entries(t)
      ensures Merged(t, b, t') && fresh(t'.id.slice.Bufs())
    {
      hide Held, Canonical, Entries, NodeAgrees, Sep, Fits;
      ghost var kid := t.kids[b];
      NotABuffer(t);
      KidIsApart(n, t, b);
      InnerShapeOf(t, n);
      InnerShapeOf(kid, child);
      var merged := n.prefix.Bytes() + [b] + child.prefix.Bytes();
      var buf := new Buffer(merged);
      var slice := View(buf, 0, |merged|);
      assert slice.Bytes() == merged;
      t' := Prefixed(kid, slice, merged);
      MergePrefix(t, path, b, merged, t');
      SetPrefix(child, slice, kid, merged);
      r := InnerNode(child);
    }

    method HoistOrMerge(n: InnerObj<V>, ghost t: Shape<V>, ghost path: Key) returns (r: Node<V>, ghost t': Shape<V>)
      requires Held(t) && Root(t) == InnerNode(n) && Reshapable(t, path) && Objs(n) <= Foot(t)
      requires n.layout.Layout4? && |t.kids| == 1 && t.term.Nil?
      modifies Foot(t)
      ensures Held(t') && Root(t') == r && fresh(Foot(t') - Foot(t))
      ensures t' != Nil && Canonical(t', path) && Entries(t') == Entries(t)
      ensures exists b :: OnlyEdgeOf(t, b) && (if t.kids[b].Leaf? then t' == t.kids[b] else Merged(t, b, t'))
    {
      hide Held, Canonical, Entries, NodeAgrees, Sep, Fits, Reshapable;
      FitsForReshape(t, path);
      HeldApart(t);
      var b, only := OnlyKid(n, t);
      ghost var kid := t.kids[b];
      match only
      case NilNode =>
        assert false;
      case LeafNode(l) =>
        LoneKid(n, t, b, kid);
        LeafShapeOf(kid, l);
        HoistLeaf(t, path, b);
        r, t' := only, kid;
      case InnerNode(c) =>
        r, t' := MergePrefixIntoChild(n, b, c, t, path);
    }

    lemma LoneKid(n: InnerObj<V>, t: Shape<V>, b: byte, kid: Shape<V>)
      requires Held(t) && t.Inner? && Root(t) == InnerNode(n) && b in t.kids && kid == t.kids[b]
      ensures Held(kid) && Foot(kid) <= Foot(t)
    {
    }

    lemma FitsForReshape(t: Shape<V>, path: Key)
      requires Reshapable(t, path)
      ensures t.Inner? && Fits(t, path)
    {
    }

    lemma HasKeyInTerm(t: Shape<V>, path: Key)
      requires t.Inner? && Canonical(t, path)
      ensures HasKey(t, path + t.prefix) <==> t.term.Leaf?
    {
      if t.term.Leaf? { assert (t.term.key, t.term.value) in Entries(t); }
      if e :| e in Entries(t) && e.0 == path + t.prefix { KeyInTerm(t, path, e); }
    }

    method DeleteBelow(n: InnerObj<V>, branch: byte, key: Key, depth: nat, ghost t: Shape<V>, ghost path: Key)
      returns (r: Node<V>, ghost t': Shape<V>)
      requires Held(t) && Root(t) == InnerNode(n) && t.Inner? && this !in Foot(t) && Objs(n) <= Foot(t)
      requires depth <= |key| && key[..depth] == path + t.prefix + [branch] && Canonical(t, path)
      modifies this`size, Foot(t)
      ensures Held(t') && Root(t') == r && fresh(Foot(t') - Foot(t))
      ensures Dropped(t, t', path, key)
      ensures size == old(size) - (if HasKey(t, key) then 1 else 0)
      ensures !HasKey(t, key) ==> r == InnerNode(n) && t' == t
      ensures OneReshape(t, t', path, key) && t' != Nil
      decreases t, 1
    {
      hide Held, Canonical, Entries, NodeAgrees, Sep, Context, Graftable, OneReshape;
      NotABuffer(t);
      var child := FindKid(n, branch, t);
      HasKeyInKid(t, path, branch, key);
      if child == NilNode {
        WithoutAbsent(t, key);
        OneReshapeOfNone(t, path, key);
        return InnerNode(n), t;
      }
      var newChild;
      ghost var kid': Shape<V>;
      KidIsApart(n, t, branch);
      GraftedSame(t, branch);
      newChild, kid' := DeleteInKid(n, branch, child, key, depth, t, path);
      if newChild == child {
        DeletedInPlace(n, t, branch, kid', key, path);
        ReshapedBelow(t, branch, kid', Grafted(t, branch, kid'), path, key);
        return InnerNode(n), Grafted(t, branch, kid');
      }
      r, t' := Detach(n, branch, newChild, key, t, kid', path);
    }

    /** The recursive call: the node itself and its other children are not touched. */
    method DeleteInKid(n: InnerObj<V>, branch: byte, child: Node<V>, key: Key, depth: nat, ghost t: Shape<V>,
                       ghost path: Key)
      returns (newChild: Node<V>, ghost kid': Shape<V>)
      requires Held(t) && Root(t) == InnerNode(n) && t.Inner? && this !in Foot(t) && Objs(n) <= Foot(t)
      requires depth <= |key| && key[..depth] == path + t.prefix + [branch] && Canonical(t, path)
      requires branch in t.kids && child == Root(t.kids[branch])
      modifies this`size, Foot(t.kids[branch])
      ensures Context(n, t, branch) && NodeAgrees(t)
      ensures Held(kid') && Root(kid') == newChild && (kid'.Nil? <==> newChild == NilNode)
      ensures kid' != Nil ==> Graftable(t, branch, kid')
      ensures fresh(Foot(kid') - Foot(t.kids[branch]))
      ensures Dropped(t.kids[branch], kid', path + t.prefix + [branch], key)
      ensures size == old(size) - (if HasKey(t.kids[branch], key) then 1 else 0)
      ensures !HasKey(t.kids[branch], key) ==> newChild == child && kid' == t.kids[branch]
      ensures OneReshape(t.kids[branch], kid', path + t.prefix + [branch], key)
      ensures t.kids[branch].Inner? ==> kid' != Nil
      decreases t, 0
    {
      hide Held, Canonical, Entries, NodeAgrees, Sep, OneReshape, ReshapesTo;
      ghost var kid := t.kids[branch];
      HeldParts(t);
      KidIsApart(n, t, branch);
      BelowBranch(t, path, key, depth - 1);
      NotABuffer(t.term);
      NotABuffer(t);
      newChild, kid' := DeleteFrom(child, key, depth, kid);
      assert Held(t.term);
      forall b | b in t.kids && b != branch ensures Held(t.kids[b]) { NotABuffer(t.kids[b]); }
      assert NodeAgrees(t);
      assert Context(n, t, branch);
      NilRoot(kid');
    }

    /** The child kept its pointer: the node is left alone, and is canonical as it stands. */
    lemma DeletedInPlace(n: InnerObj<V>, t: Shape<V>, branch: byte, kid': Shape<V>, key: Key, path: Key)
      requires Context(n, t, branch) && NodeAgrees(t) && Canonical(t, path) && branch in t.kids
      requires Held(kid') && Root(kid') == Root(t.kids[branch]) && Graftable(t, branch, kid')
      requires path + t.prefix + [branch] <= key && Canonical(kid', path + t.prefix + [branch])
      requires Entries(kid') == Without(Entries(t.kids[branch]), key)
      ensures Held(Grafted(t, branch, kid')) && Dropped(t, Grafted(t, branch, kid'), path, key)
    {
      hide Held, Canonical, Entries, NodeAgrees, Sep, OneReshape, ReshapesTo;
      KidChangedBelow(n, t, branch, kid');
      CanonicalRemove(t, path, branch, kid', Grafted(t, branch, kid'), key);
    }

    /** The child's pointer changed: drop or replace it, then reshape. */
    method Detach(n: InnerObj<V>, branch: byte, newChild: Node<V>, key: Key,
                  ghost t: Shape<V>, ghost kid': Shape<V>, ghost path: Key)
      returns (r: Node<V>, ghost t': Shape<V>)
      requires Context(n, t, branch) && NodeAgrees(t) && Objs(n) <= Foot(t) && Canonical(t, path) && branch in t.kids
      requires Held(kid') && Root(kid') == newChild && (kid'.Nil? <==> newChild == NilNode)
      requires kid' != Nil ==> Graftable(t, branch, kid')
      requires path + t.prefix + [branch] <= key && Canonical(kid', path + t.prefix + [branch])
      requires Entries(kid') == Without(Entries(t.kids[branch]), key)
      requires OneReshape(t.kids[branch], kid', path + t.prefix + [branch], key)
      requires t.kids[branch].Inner? ==> kid' != Nil
      modifies Foot(t), Foot(kid')
      ensures Held(t') && Root(t') == r && fresh(Foot(t') - Foot(t) - Foot(kid'))
      ensures Dropped(t, t', path, key)
      ensures OneReshape(t, t', path, key) && t' != Nil
    {
      hide Held, Canonical, Entries, NodeAgrees, Sep, OneReshape, ReshapesTo;
      SlotInFoot(n, t, branch);
      ghost var t0: Shape<V>;
      if newChild == NilNode {
        RemoveKid(n, branch, t);
        t0 := WithoutKid(t, branch);
      } else {
        ReplaceKid(n, branch, newChild, t, kid');
        t0 := Grafted(t, branch, kid');
      }
      CanonicalRemove(t, path, branch, kid', t0, key);
      r, t' := Reshape(n, t0, path);
      if kid'.Nil? {
        LeafWasDeleted(t, branch, path, key);
        ReshapedHere(t, branch, t', path, key);
      } else {
        ReshapedBelow(t, branch, kid', t', path, key);
      }
    }

    lemma LeafWasDeleted(t: Shape<V>, branch: byte, path: Key, key: Key)
      requires t.Inner? && branch in t.kids && Canonical(t, path) && !t.kids[branch].Inner?
      requires OneReshape(t.kids[branch], Nil, path + t.prefix + [branch], key)
      ensures t.kids[branch].Leaf? && t.kids[branch].key == key
    {
    }

    lemma SlotInFoot(n: InnerObj<V>, t: Shape<V>, b: byte)
      requires Context(n, t, b) && b in t.kids
      ensures Foot(t.kids[b]) <= Foot(t) && Bufs(t.kids[b]) <= Bufs(t)
    {
    }
  }

  /** `a` and `b` agree on their first `n` bytes and no further. */
  predicate Diverge(a: Key, b: Key, n: nat) {
    && n <= |a| && n <= |b| && a[..n] == b[..n]
    && a != b && (n == |a| || n == |b| || a[n] != b[n])
  }

  lemma DivergeFacts(a: Key, b: Key, n: nat)
    requires Diverge(a, b, n)
    ensures n <= |a| && n <= |b| && (n < |a| || n < |b|)
    ensures n == |a| ==> a == b[..n]
    ensures n == |b| ==> b == b[..n]
    ensures n < |a| ==> b[..n] + [a[n]] <= a
    ensures n < |b| ==> b[..n] + [b[n]] <= b
    ensures n < |a| && n < |b| ==> a[n] != b[n]
  {
    assert n == |a| ==> a == a[..n];
    assert n == |b| ==> b == b[..n];
  }

  method Divergence(a: Key, b: Key, depth: nat) returns (n: nat)
    requires depth <= |a| && depth <= |b| && a[..depth] == b[..depth] && a != b
    ensures depth <= n && Diverge(a, b, n)
  {
    var shared := LongestCommonPrefix(a[depth..], b[depth..]);
    n := depth + shared;
    assert a[..n] == a[..depth] + a[depth..][..shared];
    assert b[..n] == b[..depth] + b[depth..][..shared];
  }

  lemma LeafFacts<V>(t: Shape<V>, path: Key)
    requires t.Leaf? && path <= t.key
    ensures Canonical(t, path) && Entries(t) == {(t.key, t.value)}
  {
  }

  lemma LeafHeld<V>(t: Shape<V>)
    requires Held(t) && t.Leaf? && t.id.node.LeafNode?
    ensures t.id.node.leaf.key == t.key && t.id.node.leaf in Foot(t)
  {
  }

  /** `n.terminal = ...; n.addChild(...)` on a new node4 */
  method TerminalAndKid<V>(n: InnerObj<V>, terminal: Node<V>, ghost term: Shape<V>,
                            b: byte, child: Node<V>, ghost kid: Shape<V>, ghost t: Shape<V>, ghost path: Key)
    returns (ghost t': Shape<V>)
    requires Held(t) && t.Inner? && t == FreshNode4(n, t.id.slice, t.prefix)
    requires Held(term) && term.Leaf? && Root(term) == terminal && term.key == path + t.prefix
    requires Held(kid) && kid != Nil && Root(kid) == child && Canonical(kid, path + t.prefix + [b])
    requires child != NilNode && Foot(term) !! Foot(t) && Foot(kid) !! Foot(t) && Foot(term) !! Foot(kid)
    modifies Objs(n)
    ensures Held(t') && Root(t') == InnerNode(n) && Foot(t') == Foot(t) + Foot(term) + Foot(kid)
    ensures Holds(t', path, Entries(kid) + {(term.key, term.value)})
    ensures t'.Inner? && t'.kind.K4? && t'.prefix == t.prefix && t'.term == term && t'.kids == map[b := kid]
  {
    hide Held, Canonical, Entries, NodeAgrees, Sep;
    LeafFacts(term, term.key);
    NodeIsNoBuffer(n, kid);
    SetTerminal(n, terminal, t, term);
    var m;
    m, t' := AddKid(n, b, child, Terminated(t, term), kid);
    CanonicalTermAndKid(t', path, b);
  }

  /** `n.addChild(...); n.addChild(...)` on a new node4 */
  method TwoKidsNode<V>(n: InnerObj<V>, b: byte, first: Node<V>, ghost kid: Shape<V>,
                      c: byte, second: Node<V>, ghost kid': Shape<V>, ghost t: Shape<V>, ghost path: Key)
    returns (ghost t': Shape<V>)
    requires Held(t) && t.Inner? && t == FreshNode4(n, t.id.slice, t.prefix) && b != c
    requires Held(kid) && kid != Nil && Root(kid) == first && Canonical(kid, path + t.prefix + [b])
    requires Held(kid') && kid' != Nil && Root(kid') == second && Canonical(kid', path + t.prefix + [c])
    requires first != NilNode && second != NilNode
    requires Foot(kid) !! Foot(t) && Foot(kid') !! Foot(t) && Foot(kid) !! Foot(kid')
    modifies Objs(n)
    ensures Held(t') && Root(t') == InnerNode(n) && Foot(t') == Foot(t) + Foot(kid) + Foot(kid')
    ensures Holds(t', path, Entries(kid) + Entries(kid'))
    ensures t'.Inner? && t'.kind.K4? && t'.prefix == t.prefix && t'.term.Nil?
    ensures t'.kids == map[b := kid, c := kid']
  {
    hide Held, Canonical, Entries, NodeAgrees, Sep;
    var m;
    ghost var r;
    NodeIsNoBuffer(n, kid');
    m, r := AddKid(n, b, first, t, kid);
    assert Held(kid');
    m, t' := AddKid(n, c, second, r, kid');
    CanonicalTwoKids(t', path, b, c);
  }
}
