/**
 * Heap objects: leaves, prefix buffers, inner nodes, and the four child tables.
 *
 * The sorted table serves both node4 and node16: they run the same code over arrays of different
 * capacity. The table of node48 is an index into dense slots, the table of node256 is direct.
 */
module Layouts {
  import opened Bytes
  import opened Tries
  import opened Feeds

  type uint16 = x: int | 0 <= x < 0x1_0000

  class LeafObj<V> {
    const key: Key
    var value: V

    constructor (key: Key, value: V)
      ensures this.key == key && this.value == value
    {
      this.key := key;
      this.value := value;
    }
  }

  /** The backing array of one or more prefix slices. */
  class Buffer {
    var bytes: seq<byte>

    constructor (bytes: seq<byte>)
      ensures this.bytes == bytes
    {
      this.bytes := bytes;
    }
  }

  /** A slice header: several headers may point into one buffer. */
  datatype Slice = NoBytes | View(buf: Buffer, lo: nat, hi: nat) {
    ghost function Bufs(): set<Buffer> {
      if NoBytes? then {} else {buf}
    }

    ghost predicate InBounds()
      reads Bufs()
    {
      View? ==> lo <= hi <= |buf.bytes|
    }

    function Bytes(): seq<byte>
      requires InBounds()
      reads Bufs()
    {
      if NoBytes? then [] else buf.bytes[lo..hi]
    }

    /** `s[i..j]`: a new header on the same buffer */
    function Sub(i: nat, j: nat): Slice
      requires NoBytes? ==> i == j == 0
      requires View? ==> i <= j <= hi - lo
    {
      if NoBytes? then NoBytes else View(buf, lo + i, lo + j)
    }
  }

  lemma SubBytes(s: Slice, i: nat, j: nat)
    requires s.InBounds() && i <= j <= |s.Bytes()|
    ensures s.Sub(i, j).InBounds() && s.Sub(i, j).Bytes() == s.Bytes()[i..j] && s.Sub(i, j).Bufs() == s.Bufs()
  {
    if s.View? {
      assert s.buf.bytes[s.lo + i..s.lo + j] == s.buf.bytes[s.lo..s.hi][i..j];
    } else {
      assert i == j == 0;
    }
  }

  datatype Node<V> =
    | NilNode
    | LeafNode(leaf: LeafObj<V>)
    | InnerNode(inner: InnerObj<V>)

  datatype Layout<V> =
    | Layout4(sorted: SortedTable<V>)
    | Layout16(sorted: SortedTable<V>)
    | Layout48(indexed: IndexedTable<V>)
    | Layout256(direct: DirectTable<V>)

  datatype Edge<V> = Edge(byte: byte, child: Node<V>)

  /** The header fields shared by the four kinds of inner node, and the node's child table. */
  class InnerObj<V> {
    var prefix: Slice
    var terminal: Node<V>
    const layout: Layout<V>

    constructor (prefix: Slice, terminal: Node<V>, layout: Layout<V>)
      ensures this.prefix == prefix && this.terminal == terminal && this.layout == layout
    {
      this.prefix := prefix;
      this.terminal := terminal;
      this.layout := layout;
    }
  }

  // ---------- Order of edges ----------

  /** The edges with the given bytes, in that order. */
  ghost function EdgesOver<V>(kids: map<byte, Node<V>>, bs: seq<byte>): seq<Edge<V>> {
    if bs == [] then []
    else [Edge(bs[0], if bs[0] in kids then kids[bs[0]] else NilNode)] + EdgesOver(kids, bs[1..])
  }

  ghost function EdgesFrom<V>(kids: map<byte, Node<V>>, lo: nat): seq<Edge<V>>
    requires lo <= 256
  {
    EdgesOver(kids, SortedFrom(kids.Keys, lo))
  }

  /** What `eachAscending` visits: every edge once, in ascending byte order. */
  ghost function OrderedEdges<V>(kids: map<byte, Node<V>>): seq<Edge<V>> {
    EdgesFrom(kids, 0)
  }

  lemma EdgesFromStep<V>(kids: map<byte, Node<V>>, lo: byte)
    ensures lo !in kids ==> EdgesFrom(kids, lo) == EdgesFrom(kids, lo + 1)
    ensures lo in kids ==> EdgesFrom(kids, lo) == [Edge(lo, kids[lo])] + EdgesFrom(kids, lo + 1)
    ensures lo in kids ==> Reverse(EdgesFrom(kids, lo)) == Reverse(EdgesFrom(kids, lo + 1)) + [Edge(lo, kids[lo])]
  {
    var rest := SortedFrom(kids.Keys, lo + 1);
    if lo in kids {
      assert ([lo] + rest)[1..] == rest;
    } else {
      assert SortedFrom(kids.Keys, lo) == rest;
    }
  }

  lemma EdgesOverStep<V>(kids: map<byte, Node<V>>, bs: seq<byte>, i: nat, edge: Edge<V>)
    requires i < |bs| && bs[i] in kids && edge == Edge(bs[i], kids[bs[i]])
    ensures EdgesOver(kids, bs[i..]) == [edge] + EdgesOver(kids, bs[i + 1..])
    ensures Reverse(EdgesOver(kids, bs[i..])) == Reverse(EdgesOver(kids, bs[i + 1..])) + [edge]
  {
    assert bs[i..][1..] == bs[i + 1..];
  }

  lemma EdgesFromEnds<V>(kids: map<byte, Node<V>>)
    ensures EdgesFrom(kids, 0) == OrderedEdges(kids)
    ensures EdgesFrom(kids, 256) == [] && Reverse(EdgesFrom(kids, 256)) == []
  {
  }

  // ---------- node4 and node16 ----------

  /** The edge map of two parallel lists. */
  ghost function Zip<V>(bs: seq<byte>, cs: seq<Node<V>>): map<byte, Node<V>>
    requires |bs| == |cs|
  {
    if bs == [] then map[] else Zip(bs[1..], cs[1..])[bs[0] := cs[0]]
  }

  lemma {:induction false} ZipKeys<V>(bs: seq<byte>, cs: seq<Node<V>>)
    requires |bs| == |cs|
    ensures forall b: byte :: b in Zip(bs, cs) <==> b in bs
  {
    if bs != [] { ZipKeys(bs[1..], cs[1..]); }
  }

  lemma {:induction false} ZipAt<V>(bs: seq<byte>, cs: seq<Node<V>>, i: nat)
    requires |bs| == |cs| && Ascending(bs) && i < |bs|
    ensures bs[i] in Zip(bs, cs) && Zip(bs, cs)[bs[i]] == cs[i]
  {
    if i > 0 {
      ZipAt(bs[1..], cs[1..], i - 1);
      AscendingPair(bs, 0, i);
    }
  }

  lemma {:induction false} ZipInserted<V>(bs: seq<byte>, cs: seq<Node<V>>, i: nat, b: byte, c: Node<V>)
    requires |bs| == |cs| && i <= |bs| && b !in bs[..i]
    ensures Zip(Inserted(bs, i, b), Inserted(cs, i, c)) == Zip(bs, cs)[b := c]
  {
    var bs', cs' := Inserted(bs, i, b), Inserted(cs, i, c);
    if i == 0 {
      assert bs' == [b] + bs && cs' == [c] + cs;
    } else {
      assert bs'[1..] == Inserted(bs[1..], i - 1, b) && cs'[1..] == Inserted(cs[1..], i - 1, c);
      assert b !in bs[1..][..i - 1];
      ZipInserted(bs[1..], cs[1..], i - 1, b, c);
    }
  }

  lemma RemoveAfterUpdate<X, Y>(m: map<X, Y>, x: X, y: Y, z: X)
    ensures x != z ==> m[x := y] - {z} == (m - {z})[x := y]
    ensures x == z && x !in m ==> m[x := y] - {z} == m
  {
  }

  lemma {:induction false} ZipRemoved<V>(bs: seq<byte>, cs: seq<Node<V>>, i: nat)
    requires |bs| == |cs| && Ascending(bs) && i < |bs|
    ensures Zip(Removed(bs, i), Removed(cs, i)) == Zip(bs, cs) - {bs[i]}
  {
    var bs', cs' := Removed(bs, i), Removed(cs, i);
    RemoveAfterUpdate(Zip(bs[1..], cs[1..]), bs[0], cs[0], bs[i]);
    if i == 0 {
      ZipKeys(bs[1..], cs[1..]);
      assert bs' == bs[1..] && cs' == cs[1..];
      if |bs| > 1 { NotBefore(bs[1..], bs[0]); }
    } else {
      assert bs'[1..] == Removed(bs[1..], i - 1) && cs'[1..] == Removed(cs[1..], i - 1);
      ZipRemoved(bs[1..], cs[1..], i - 1);
      AscendingPair(bs, 0, i);
    }
  }

  lemma {:induction false} ZipReplaced<V>(bs: seq<byte>, cs: seq<Node<V>>, i: nat, c: Node<V>)
    requires |bs| == |cs| && Ascending(bs) && i < |bs|
    ensures Zip(bs, cs[i := c]) == Zip(bs, cs)[bs[i] := c]
  {
    if i > 0 {
      assert cs[i := c][1..] == cs[1..][i - 1 := c];
      ZipReplaced(bs[1..], cs[1..], i - 1, c);
      AscendingPair(bs, 0, i);
    }
  }

  lemma ZipAppended<V>(bs: seq<byte>, cs: seq<Node<V>>, i: nat)
    requires |bs| == |cs| && Ascending(bs) && i < |bs|
    ensures bs[i] !in Zip(bs[..i], cs[..i])
    ensures Zip(bs[..i + 1], cs[..i + 1]) == Zip(bs[..i], cs[..i])[bs[i] := cs[i]]
  {
    ZipKeys(bs[..i], cs[..i]);
    forall j | 0 <= j < i ensures bs[j] != bs[i] { AscendingPair(bs, j, i); }
    assert bs[..i][..i] == bs[..i];
    ZipInserted(bs[..i], cs[..i], i, bs[i], cs[i]);
    assert bs[..i + 1] == Inserted(bs[..i], i, bs[i]) && cs[..i + 1] == Inserted(cs[..i], i, cs[i]);
  }

  /** `copy(a[i+1:n+1], a[i:n]); a[i] = x` */
  method OpenSlot<T>(a: array<T>, i: nat, n: nat, x: T)
    requires i <= n < a.Length
    modifies a
    ensures a[..n + 1] == Inserted(old(a[..n]), i, x)
  {
    forall j | i < j <= n { a[j] := a[j - 1]; }
    a[i] := x;
  }

  /** `copy(a[i:], a[i+1:n]); a[n-1] = zero` */
  method CloseSlot<T>(a: array<T>, i: nat, n: nat, zero: T)
    requires i < n <= a.Length
    modifies a
    ensures a[..n - 1] == Removed(old(a[..n]), i)
  {
    forall j | i <= j < n - 1 { a[j] := a[j + 1]; }
    a[n - 1] := zero;
  }

  /** `copy(dst[:n], src[:n])` */
  method CopyPrefix<T>(src: array<T>, dst: array<T>, n: nat)
    requires n <= src.Length && n <= dst.Length && src != dst
    modifies dst
    ensures dst[..n] == src[..n]
  {
    forall i | 0 <= i < n { dst[i] := src[i]; }
  }

  /** The edges of parallel lists, in order, are the edges of their map. */
  lemma ZipEdges<V>(bs: seq<byte>, cs: seq<Node<V>>)
    requires |bs| == |cs| && Ascending(bs)
    ensures EdgesOver(Zip(bs, cs), bs) == EdgesOver(Zip(bs, cs), bs[0..]) == OrderedEdges(Zip(bs, cs))
    ensures EdgesOver(Zip(bs, cs), bs[|bs|..]) == []
  {
    ZipKeys(bs, cs);
    AscendingIsSorted(bs, Zip(bs, cs).Keys);
    assert bs[0..] == bs;
  }

  lemma ZipEdgesStep<V>(bs: seq<byte>, cs: seq<Node<V>>, i: nat)
    requires |bs| == |cs| && Ascending(bs) && i < |bs|
    ensures EdgesOver(Zip(bs, cs), bs[i..]) == [Edge(bs[i], cs[i])] + EdgesOver(Zip(bs, cs), bs[i + 1..])
    ensures Reverse(EdgesOver(Zip(bs, cs), bs[i..])) ==
            Reverse(EdgesOver(Zip(bs, cs), bs[i + 1..])) + [Edge(bs[i], cs[i])]
  {
    ZipAt(bs, cs, i);
    EdgesOverStep(Zip(bs, cs), bs, i, Edge(bs[i], cs[i]));
    hide Reverse;
  }

  lemma ReverseNone<T>()
    ensures Reverse<T>([]) == []
  {
  }

  lemma {:induction false} EdgesOverAppend<V>(kids: map<byte, Node<V>>, bs: seq<byte>, cs: seq<byte>)
    ensures EdgesOver(kids, bs + cs) == EdgesOver(kids, bs) + EdgesOver(kids, cs)
  {
    if bs == [] {
      assert bs + cs == cs;
    } else {
      assert (bs + cs)[1..] == bs[1..] + cs;
      EdgesOverAppend(kids, bs[1..], cs);
    }
  }

  /** Backwards, the edges from the `i`-th on come first. */
  lemma ReversePrefix<V>(kids: map<byte, Node<V>>, bs: seq<byte>, i: nat)
    requires i <= |bs|
    ensures Reverse(EdgesOver(kids, bs)) == Reverse(EdgesOver(kids, bs[i..])) + Reverse(EdgesOver(kids, bs[..i]))
  {
    EdgesOverAppend(kids, bs[..i], bs[i..]);
    assert bs == bs[..i] + bs[i..];
    ReverseConcat(EdgesOver(kids, bs[..i]), EdgesOver(kids, bs[i..]));
  }

  lemma SortedFromStep(s: set<byte>, lo: byte)
    ensures SortedFrom(s, lo) == (if lo in s then [lo] else []) + SortedFrom(s, lo + 1)
  {
  }

  /** The bytes of `s` below `lo`, followed by the others, are all of them. */
  lemma {:induction false} SortedSplit(s: set<byte>, lo: nat) returns (before: seq<byte>)
    requires lo <= 256
    ensures SortedFrom(s, 0) == before + SortedFrom(s, lo)
  {
    hide SortedFrom;
    before := [];
    if lo > 0 {
      var start := SortedSplit(s, lo - 1);
      SortedFromStep(s, lo - 1);
      before := start + if lo - 1 in s then [lo - 1] else [];
    }
  }

  /** Backwards, the edges from `lo` on come first. */
  lemma ReverseFrom<V>(kids: map<byte, Node<V>>, lo: nat) returns (rest: seq<Edge<V>>)
    requires lo <= 256
    ensures Reverse(OrderedEdges(kids)) == Reverse(EdgesFrom(kids, lo)) + rest
  {
    var before := SortedSplit(kids.Keys, lo);
    EdgesOverAppend(kids, before, SortedFrom(kids.Keys, lo));
    ReverseConcat(EdgesOver(kids, before), EdgesFrom(kids, lo));
    rest := Reverse(EdgesOver(kids, before));
  }

  /** Parallel lists with an edge put in its place are those of the edge map with one more edge. */
  lemma Gained<V>(bs: seq<byte>, cs: seq<Node<V>>, i: nat, b: byte, child: Node<V>)
    requires |bs| == |cs| && Ascending(bs) && NilNode !in cs && |Zip(bs, cs)| == |bs| && i <= |bs|
    requires b !in bs[..i] && b !in Zip(bs, cs) && child != NilNode
    requires (i > 0 ==> bs[i - 1] < b) && (i < |bs| ==> b < bs[i])
    ensures var bs', cs' := Inserted(bs, i, b), Inserted(cs, i, child);
            && |bs'| == |cs'| == |bs| + 1 && Ascending(bs') && NilNode !in cs'
            && Zip(bs', cs') == Zip(bs, cs)[b := child] && |Zip(bs', cs')| == |bs'|
  {
    AscendingInserted(bs, i, b);
    ZipInserted(bs, cs, i, b, child);
    hide Zip, Ascending;
  }

  class SortedTable<V> {
    const keys: array<byte>
    const children: array<Node<V>>
    /** Go's uint8 */
    var numChildren: byte

    ghost predicate Valid()
      reads this, keys, children
    {
      && keys.Length == children.Length <= 16
      && (keys as object) != (children as object)
      && numChildren <= keys.Length
      && Ascending(keys[..numChildren])
      && NilNode !in children[..numChildren]
      && |Zip(keys[..numChildren], children[..numChildren])| == numChildren
    }

    ghost function Kids(): map<byte, Node<V>>
      requires Valid()
      reads this, keys, children
    {
      Zip(keys[..numChildren], children[..numChildren])
    }

    constructor (capacity: nat)
      requires capacity <= 16
      ensures Valid() && Kids() == map[] && keys.Length == capacity
      ensures fresh(keys) && fresh(children)
    {
      keys := new byte[capacity](_ => 0);
      children := new Node<V>[capacity](_ => NilNode);
      numChildren := 0;
    }

    /** The position of edge `b`, or `numChildren` when it is absent. */
    method Locate(b: byte) returns (i: nat)
      requires Valid()
      ensures i <= numChildren
      ensures i < numChildren <==> b in Kids()
      ensures i < numChildren ==> keys[i] == b && Kids()[b] == children[i]
    {
      i := 0;
      while i < numChildren && keys[i] != b
        invariant i <= numChildren && b !in keys[..i]
      {
        i := i + 1;
      }
      if i < numChildren { ZipAt(keys[..numChildren], children[..numChildren], i); }
      ZipKeys(keys[..numChildren], children[..numChildren]);
    }

    method FindChild(b: byte) returns (child: Node<V>)
      requires Valid()
      ensures child == if b in Kids() then Kids()[b] else NilNode
    {
      var i := Locate(b);
      child := if i < numChildren then children[i] else NilNode;
    }

    method AddChild(b: byte, child: Node<V>)
      requires Valid() && numChildren < keys.Length && b !in Kids() && child != NilNode
      modifies this, keys, children
      ensures Valid() && Kids() == old(Kids())[b := child]
    {
      hide Zip, Ascending;
      ghost var bs, cs := keys[..numChildren], children[..numChildren];
      var i := 0;
      while i < numChildren && keys[i] < b
        invariant i <= numChildren
        invariant i > 0 ==> keys[i - 1] < b
        invariant b !in keys[..i]
      {
        i := i + 1;
      }
      if i < numChildren { ZipAt(bs, cs, i); }
      Gained(bs, cs, i, b, child);
      hide Inserted;
      OpenSlot(keys, i, numChildren, b);
      OpenSlot(children, i, numChildren, child);
      numChildren := numChildren + 1;
    }

    method ReplaceChild(b: byte, child: Node<V>)
      requires Valid() && child != NilNode
      modifies children
      ensures Valid()
      ensures Kids() == if b in old(Kids()) then old(Kids())[b := child] else old(Kids())
    {
      hide Zip, Ascending;
      ghost var bs, cs := keys[..numChildren], children[..numChildren];
      var i := Locate(b);
      if i < numChildren {
        ZipReplaced(bs, cs, i, child);
        children[i] := child;
        assert children[..numChildren] == cs[i := child];
        assert keys[..numChildren] == bs;
      }
    }

    method RemoveChild(b: byte)
      requires Valid()
      modifies this, keys, children
      ensures Valid() && Kids() == old(Kids()) - {b}
    {
      hide Zip, Ascending;
      ghost var bs, cs := keys[..numChildren], children[..numChildren];
      var i := Locate(b);
      if i < numChildren {
        ZipAt(bs, cs, i);
        ZipRemoved(bs, cs, i);
        AscendingRemoved(bs, i);
        CloseSlot(keys, i, numChildren, 0);
        CloseSlot(children, i, numChildren, NilNode);
        numChildren := numChildren - 1;
        assert keys[..numChildren] == Removed(bs, i) && children[..numChildren] == Removed(cs, i);
        CardinalityWithout(Zip(bs, cs), b);
      } else {
        assert Kids() == Kids() - {b};
      }
    }

    /** The copy made by growToNode16, shrinkToNode4 and shallow: same children, in arrays of a given size. */
    method WithCapacity(capacity: nat) returns (copy: SortedTable<V>)
      requires Valid() && numChildren <= capacity <= 16
      ensures copy.Valid() && copy.Kids() == Kids() && copy.keys.Length == capacity
      ensures fresh(copy) && fresh(copy.keys) && fresh(copy.children)
    {
      copy := new SortedTable(capacity);
      CopyPrefix(keys, copy.keys, numChildren);
      CopyPrefix(children, copy.children, numChildren);
      copy.numChildren := numChildren;
    }

    /** `yield` gets the edges in ascending order until it refuses. */
    method EachAscending(y: Consumer<Edge<V>>) returns (more: bool)
      requires Valid()
      modifies y
      ensures Fed(y.log, more) == Feed(y.accept, old(y.log), OrderedEdges(Kids()))
    {
      hide Zip, Ascending, EdgesOver, OrderedEdges, Feed;
      ghost var bs, cs, all := keys[..numChildren], children[..numChildren], OrderedEdges(Kids());
      ZipEdges(bs, cs);
      for i := 0 to numChildren
        invariant Feed(y.accept, y.log, EdgesOver(Zip(bs, cs), bs[i..])) == Feed(y.accept, old(y.log), all)
      {
        ZipEdgesStep(bs, cs, i);
        FeedHead(y.accept, y.log, Edge(bs[i], cs[i]), EdgesOver(Zip(bs, cs), bs[i + 1..]));
        more := y.Yield(Edge(keys[i], children[i]));
        if !more { return; }
      }
      FeedNone(y.accept, y.log);
      more := true;
    }

    /** `yield` gets the edges in descending order until it refuses. */
    method EachDescending(y: Consumer<Edge<V>>) returns (more: bool)
      requires Valid()
      modifies y
      ensures Fed(y.log, more) == Feed(y.accept, old(y.log), Reverse(OrderedEdges(Kids())))
    {
      hide Zip, Ascending, EdgesOver, OrderedEdges, Feed, Reverse;
      ghost var bs, cs, all := keys[..numChildren], children[..numChildren], Reverse(OrderedEdges(Kids()));
      ZipEdges(bs, cs);
      ReverseNone<Edge<V>>();
      FeedNone(y.accept, y.log);
      for i := numChildren downto 0
        invariant Feed(y.accept, old(y.log), Reverse(EdgesOver(Zip(bs, cs), bs[i..]))) == Fed(y.log, true)
      {
        ghost var done := Reverse(EdgesOver(Zip(bs, cs), bs[i + 1..]));
        ZipEdgesStep(bs, cs, i);
        FeedMore(y.accept, old(y.log), done, Edge(bs[i], cs[i]));
        more := y.Yield(Edge(keys[i], children[i]));
        if !more {
          ReversePrefix(Zip(bs, cs), bs, i);
          FeedConcat(y.accept, old(y.log), done + [Edge(bs[i], cs[i])], Reverse(EdgesOver(Zip(bs, cs), bs[..i])));
          return;
        }
      }
      more := true;
    }
  }
  // ---------- node48 ----------

  /** The children whose edge is below `hi`. */
  ghost function Below<V>(kids: map<byte, Node<V>>, hi: nat): map<byte, Node<V>>
    requires hi <= 256
  {
    if hi == 0 then map[]
    else if hi - 1 in kids then Below(kids, hi - 1)[hi - 1 := kids[hi - 1]]
    else Below(kids, hi - 1)
  }

  lemma {:induction false} BelowMembers<V>(kids: map<byte, Node<V>>, hi: nat)
    requires hi <= 256
    ensures forall b: byte :: b in Below(kids, hi) <==> b in kids && b < hi
    ensures forall b | b in Below(kids, hi) :: Below(kids, hi)[b] == kids[b]
  {
    if hi > 0 { BelowMembers(kids, hi - 1); }
  }

  lemma BelowIsSmaller<V>(kids: map<byte, Node<V>>, edge: byte)
    requires edge in kids
    ensures edge !in Below(kids, edge) && |Below(kids, edge)| < |kids|
  {
    BelowMembers(kids, edge);
    CardinalityBelow(Below(kids, edge).Keys, kids.Keys, edge);
  }

  lemma CardinalityBelow<T>(s: set<T>, r: set<T>, x: T)
    requires s <= r && x in r && x !in s
    ensures |s| < |r|
  {
    assert r == s + (r - s) && x in r - s;
  }

  lemma BelowAll<V>(kids: map<byte, Node<V>>)
    ensures Below(kids, 256) == kids
  {
    BelowMembers(kids, 256);
  }

  /** Index and edge list are inverse to each other, over slots without a gap, and enumerate `kids`. */
  ghost predicate Linked<V>(index: seq<byte>, edges: seq<byte>, cs: seq<Node<V>>, n: nat, kids: map<byte, Node<V>>) {
    && |index| == 256 && |edges| == |cs| == 48
    && n == |kids| <= 48
    && (forall b: byte {:trigger b in kids} ::
          if b in kids then 1 <= index[b] <= n && edges[index[b] - 1] == b && cs[index[b] - 1] == kids[b]
          else index[b] == 0)
    && (forall i | 0 <= i < n :: index[edges[i]] == i + 1)
    && (forall i | 0 <= i < n :: cs[i] != NilNode)
  }

  lemma IndexOf<V>(index: seq<byte>, edges: seq<byte>, cs: seq<Node<V>>, n: nat, kids: map<byte, Node<V>>, b: byte)
    requires Linked(index, edges, cs, n, kids)
    ensures |index| == 256 && |edges| == |cs| == 48 && n <= 48
    ensures if b in kids then 1 <= index[b] <= n && cs[index[b] - 1] == kids[b] != NilNode else index[b] == 0
  {
  }

  lemma LinkedAdded<V>(index: seq<byte>, edges: seq<byte>, cs: seq<Node<V>>, n: nat, kids: map<byte, Node<V>>,
                       b: byte, child: Node<V>)
    requires Linked(index, edges, cs, n, kids) && n < 48 && b !in kids && child != NilNode
    ensures Linked(index[b := n + 1], edges[n := b], cs[n := child], n + 1, kids[b := child])
  {
    forall i | 0 <= i < n ensures edges[i] != b {
      assert index[edges[i]] == i + 1;
    }
  }

  lemma LinkedReplaced<V>(index: seq<byte>, edges: seq<byte>, cs: seq<Node<V>>, n: nat, kids: map<byte, Node<V>>,
                          b: byte, child: Node<V>)
    requires Linked(index, edges, cs, n, kids) && b in kids && child != NilNode
    ensures Linked(index, edges, cs[index[b] - 1 := child], n, kids[b := child])
  {
    forall c: byte | c in kids && c != b ensures index[c] != index[b] {
    }
  }

  lemma LinkedRemovedLast<V>(index: seq<byte>, edges: seq<byte>, cs: seq<Node<V>>, n: nat,
                             kids: map<byte, Node<V>>, b: byte)
    requires Linked(index, edges, cs, n, kids) && b in kids && index[b] == n
    ensures Linked(index[b := 0], edges[n - 1 := 0], cs[n - 1 := NilNode], n - 1, kids - {b})
  {
    CardinalityWithout(kids, b);
    forall i | 0 <= i < n - 1 ensures edges[i] != b {
      assert index[edges[i]] == i + 1;
    }
  }

  /** Exchanging the slot of `b` with the last one keeps index and edge list inverse. */
  lemma LinkedSwapped<V>(index: seq<byte>, edges: seq<byte>, cs: seq<Node<V>>, n: nat,
                         kids: map<byte, Node<V>>, b: byte)
    requires Linked(index, edges, cs, n, kids) && b in kids && index[b] < n
    ensures var slot, last := index[b], edges[n - 1];
            Linked(index[last := slot][b := n], edges[slot - 1 := last][n - 1 := b],
                   cs[slot - 1 := cs[n - 1]][n - 1 := cs[slot - 1]], n, kids)
  {
    var slot, last := index[b], edges[n - 1];
    var index', edges' := index[last := slot][b := n], edges[slot - 1 := last][n - 1 := b];
    var cs' := cs[slot - 1 := cs[n - 1]][n - 1 := cs[slot - 1]];
    assert index[last] == n && last in kids;
    forall c: byte {:trigger c in kids}
      ensures if c in kids then 1 <= index'[c] <= n && edges'[index'[c] - 1] == c && cs'[index'[c] - 1] == kids[c]
              else index'[c] == 0
    {
      if c in kids && c != b && c != last { assert edges[index[c] - 1] == c; }
    }
    forall i | 0 <= i < n ensures index'[edges'[i]] == i + 1 {
      assert index[edges[i]] == i + 1;
    }
  }

  /** Moving the last live child into the vacated slot is an exchange followed by dropping the last slot. */
  lemma LinkedRemovedInner<V>(index: seq<byte>, edges: seq<byte>, cs: seq<Node<V>>, n: nat,
                              kids: map<byte, Node<V>>, b: byte)
    requires Linked(index, edges, cs, n, kids) && b in kids && index[b] < n
    ensures var slot, last := index[b], edges[n - 1];
            Linked(index[last := slot][b := 0], edges[slot - 1 := last][n - 1 := 0],
                   cs[slot - 1 := cs[n - 1]][n - 1 := NilNode], n - 1, kids - {b})
  {
    hide Linked;
    IndexOf(index, edges, cs, n, kids, b);
    var slot, last := index[b], edges[n - 1];
    var index', edges' := index[last := slot], edges[slot - 1 := last];
    var cs' := cs[slot - 1 := cs[n - 1]];
    LinkedSwapped(index, edges, cs, n, kids, b);
    LinkedRemovedLast(index'[b := n], edges'[n - 1 := b], cs'[n - 1 := cs[slot - 1]], n, kids, b);
    assert index'[b := n][b := 0] == index'[b := 0];
    assert edges'[n - 1 := b][n - 1 := 0] == edges'[n - 1 := 0];
    assert cs'[n - 1 := cs[slot - 1]][n - 1 := NilNode] == cs'[n - 1 := NilNode];
  }

  class IndexedTable<V> {
    const childIndex: array<byte>
    const children: array<Node<V>>
    const childEdge: array<byte>
    /** Go's uint8 */
    var numChildren: byte
    ghost var kids: map<byte, Node<V>>

    /** Three separate arrays of the fixed sizes */
    ghost predicate Shaped() {
      && childIndex.Length == 256 && children.Length == childEdge.Length == 48
      && childIndex != childEdge
      && (children as object) != (childIndex as object)
      && (children as object) != (childEdge as object)
    }

    ghost predicate Valid()
      reads this, childIndex, children, childEdge
    {
      && Shaped()
      && Linked(childIndex[..], childEdge[..], children[..], numChildren, kids)
    }

    constructor ()
      ensures Valid() && kids == map[] && numChildren == 0
      ensures fresh(childIndex) && fresh(children) && fresh(childEdge)
    {
      childIndex := new byte[256](_ => 0);
      children := new Node<V>[48](_ => NilNode);
      childEdge := new byte[48](_ => 0);
      numChildren := 0;
      kids := map[];
    }

    /** `*n`: the arrays are copied, the children they point to are not. */
    method Copy() returns (copy: IndexedTable<V>)
      requires Valid()
      ensures copy.Valid() && copy.kids == kids
      ensures fresh(copy) && fresh(copy.childIndex) && fresh(copy.children) && fresh(copy.childEdge)
    {
      hide Linked;
      copy := new IndexedTable();
      CopyPrefix(childIndex, copy.childIndex, 256);
      CopyPrefix(children, copy.children, 48);
      CopyPrefix(childEdge, copy.childEdge, 48);
      copy.numChildren := numChildren;
      copy.kids := kids;
      assert copy.childIndex[..] == copy.childIndex[..256] == childIndex[..256] == childIndex[..];
      assert copy.children[..] == copy.children[..48] == children[..48] == children[..];
      assert copy.childEdge[..] == copy.childEdge[..48] == childEdge[..48] == childEdge[..];
    }

    method FindChild(b: byte) returns (child: Node<V>)
      requires Valid()
      ensures child == if b in kids then kids[b] else NilNode
    {
      assert b in kids <==> childIndex[b] != 0;
      var slot := childIndex[b];
      if slot == 0 { return NilNode; }
      return children[slot - 1];
    }

    method AddChild(newEdge: byte, child: Node<V>)
      requires Valid() && numChildren < 48 && newEdge !in kids && child != NilNode
      modifies this, childIndex, children, childEdge
      ensures Valid() && kids == old(kids)[newEdge := child] && numChildren == old(numChildren) + 1
    {
      LinkedAdded(childIndex[..], childEdge[..], children[..], numChildren, kids, newEdge, child);
      children[numChildren] := child;
      childEdge[numChildren] := newEdge;
      childIndex[newEdge] := numChildren + 1;
      numChildren := numChildren + 1;
      kids := kids[newEdge := child];
      assert childIndex[..] == old(childIndex[..])[newEdge := numChildren];
      assert childEdge[..] == old(childEdge[..])[numChildren - 1 := newEdge];
      assert children[..] == old(children[..])[numChildren - 1 := child];
    }

    method ReplaceChild(b: byte, child: Node<V>)
      requires Valid() && child != NilNode
      modifies this`kids, children
      ensures Valid()
      ensures kids == if b in old(kids) then old(kids)[b := child] else old(kids)
    {
      hide Linked;
      IndexOf(childIndex[..], childEdge[..], children[..], numChildren, kids, b);
      var slot := childIndex[b];
      if slot == 0 { return; }
      LinkedReplaced(childIndex[..], childEdge[..], children[..], numChildren, kids, b, child);
      children[slot - 1] := child;
      kids := kids[b := child];
      assert children[..] == old(children[..])[slot - 1 := child];
    }

    method RemoveChild(b: byte)
      requires Valid()
      modifies this, childIndex, children, childEdge
      ensures Valid() && kids == old(kids) - {b}
    {
      hide Linked;
      IndexOf(childIndex[..], childEdge[..], children[..], numChildren, kids, b);
      var slot := childIndex[b];
      if slot == 0 {
        assert kids == kids - {b};
        return;
      }
      ghost var index, edges, cs, n := childIndex[..], childEdge[..], children[..], numChildren;
      if slot != numChildren {
        LinkedRemovedInner(index, edges, cs, n, kids, b);
        MoveLastTo(slot);
      } else {
        LinkedRemovedLast(index, edges, cs, n, kids, b);
      }
      Vacate(b);
      kids := kids - {b};
    }

    /** The last live child takes over `slot`. */
    method MoveLastTo(slot: byte)
      requires Shaped() && 1 <= slot < numChildren <= 48
      modifies childIndex, children, childEdge
      ensures childIndex[..] == old(childIndex[..])[old(childEdge[numChildren - 1]) := slot]
      ensures childEdge[..] == old(childEdge[..])[slot - 1 := old(childEdge[numChildren - 1])]
      ensures children[..] == old(children[..])[slot - 1 := old(children[numChildren - 1])]
    {
      var last := numChildren;
      var lastEdge := childEdge[last - 1];
      children[slot - 1] := children[last - 1];
      childEdge[slot - 1] := lastEdge;
      childIndex[lastEdge] := slot;
    }

    /** The last slot is cleared, and `b` leaves the index. */
    method Vacate(b: byte)
      requires Shaped() && 1 <= numChildren <= 48
      modifies this`numChildren, childIndex, children, childEdge
      ensures numChildren == old(numChildren) - 1
      ensures childIndex[..] == old(childIndex[..])[b := 0]
      ensures childEdge[..] == old(childEdge[..])[numChildren := 0]
      ensures children[..] == old(children[..])[numChildren := NilNode]
    {
      children[numChildren - 1] := NilNode;
      childEdge[numChildren - 1] := 0;
      childIndex[b] := 0;
      numChildren := numChildren - 1;
    }

    /** `yield` gets the edges in ascending order until it refuses. */
    method EachAscending(y: Consumer<Edge<V>>) returns (more: bool)
      requires Valid()
      modifies y
      ensures Fed(y.log, more) == Feed(y.accept, old(y.log), OrderedEdges(kids))
    {
      hide EdgesFrom, Feed, Reverse;
      EdgesFromEnds(kids);
      for edge := 0 to 256
        invariant Feed(y.accept, y.log, EdgesFrom(kids, edge)) == Feed(y.accept, old(y.log), OrderedEdges(kids))
      {
        EdgesFromStep(kids, edge);
        var slot := childIndex[edge];
        if slot == 0 { continue; }
        FeedHead(y.accept, y.log, Edge(edge, children[slot - 1]), EdgesFrom(kids, edge + 1));
        more := y.Yield(Edge(edge, children[slot - 1]));
        if !more { return; }
      }
      FeedNone(y.accept, y.log);
      more := true;
    }

    /** `yield` gets the edges in descending order until it refuses. */
    method EachDescending(y: Consumer<Edge<V>>) returns (more: bool)
      requires Valid()
      modifies y
      ensures Fed(y.log, more) == Feed(y.accept, old(y.log), Reverse(OrderedEdges(kids)))
    {
      hide EdgesFrom, Feed, Reverse;
      EdgesFromEnds(kids);
      FeedNone(y.accept, y.log);
      for edge := 256 downto 0
        invariant Feed(y.accept, old(y.log), Reverse(EdgesFrom(kids, edge))) == Fed(y.log, true)
      {
        EdgesFromStep(kids, edge);
        var slot := childIndex[edge];
        if slot == 0 { continue; }
        FeedMore(y.accept, old(y.log), Reverse(EdgesFrom(kids, edge + 1)), Edge(edge, children[slot - 1]));
        more := y.Yield(Edge(edge, children[slot - 1]));
        if !more {
          ghost var rest := ReverseFrom(kids, edge);
          FeedConcat(y.accept, old(y.log), Reverse(EdgesFrom(kids, edge)), rest);
          return;
        }
      }
      more := true;
    }
  }

  // ---------- node256 ----------

  class DirectTable<V> {
    const children: array<Node<V>>
    /** Go's uint16 */
    var numChildren: uint16
    ghost var kids: map<byte, Node<V>>

    ghost predicate Valid()
      reads this, children
    {
      && children.Length == 256
      && numChildren == |kids|
      && (forall b: byte :: b in kids <==> children[b] != NilNode)
      && (forall b: byte | b in kids :: kids[b] == children[b])
    }

    constructor ()
      ensures Valid() && kids == map[] && fresh(children)
    {
      children := new Node<V>[256](_ => NilNode);
      numChildren := 0;
      kids := map[];
    }

    method Copy() returns (copy: DirectTable<V>)
      requires Valid()
      ensures copy.Valid() && copy.kids == kids && fresh(copy) && fresh(copy.children)
    {
      copy := new DirectTable();
      CopyPrefix(children, copy.children, 256);
      copy.numChildren := numChildren;
      copy.kids := kids;
      forall b: byte ensures copy.children[b] == children[b] {
        assert copy.children[..256][b] == children[..256][b];
      }
    }

    method FindChild(b: byte) returns (child: Node<V>)
      requires Valid()
      ensures child == if b in kids then kids[b] else NilNode
    {
      child := children[b];
    }

    method AddChild(b: byte, child: Node<V>)
      requires Valid() && b !in kids && child != NilNode
      modifies this, children
      ensures Valid() && kids == old(kids)[b := child]
    {
      BytesAreFew(kids.Keys);
      children[b] := child;
      numChildren := numChildren + 1;
      kids := kids[b := child];
    }

    method ReplaceChild(b: byte, child: Node<V>)
      requires Valid() && child != NilNode
      modifies this`kids, children
      ensures Valid()
      ensures kids == if b in old(kids) then old(kids)[b := child] else old(kids)
    {
      if children[b] == NilNode { return; }
      children[b] := child;
      kids := kids[b := child];
    }

    method RemoveChild(b: byte)
      requires Valid()
      modifies this, children
      ensures Valid() && kids == old(kids) - {b}
    {
      if children[b] == NilNode {
        assert kids == kids - {b};
        return;
      }
      CardinalityWithout(kids, b);
      children[b] := NilNode;
      numChildren := numChildren - 1;
      kids := kids - {b};
    }

    /** `yield` gets the edges in ascending order until it refuses. */
    method EachAscending(y: Consumer<Edge<V>>) returns (more: bool)
      requires Valid()
      modifies y
      ensures Fed(y.log, more) == Feed(y.accept, old(y.log), OrderedEdges(kids))
    {
      hide EdgesFrom, Feed, Reverse;
      EdgesFromEnds(kids);
      for edge := 0 to 256
        invariant Feed(y.accept, y.log, EdgesFrom(kids, edge)) == Feed(y.accept, old(y.log), OrderedEdges(kids))
      {
        EdgesFromStep(kids, edge);
        var c := children[edge];
        if c == NilNode { continue; }
        FeedHead(y.accept, y.log, Edge(edge, c), EdgesFrom(kids, edge + 1));
        more := y.Yield(Edge(edge, c));
        if !more { return; }
      }
      FeedNone(y.accept, y.log);
      more := true;
    }

    /** `yield` gets the edges in descending order until it refuses. */
    method EachDescending(y: Consumer<Edge<V>>) returns (more: bool)
      requires Valid()
      modifies y
      ensures Fed(y.log, more) == Feed(y.accept, old(y.log), Reverse(OrderedEdges(kids)))
    {
      hide EdgesFrom, Feed, Reverse;
      EdgesFromEnds(kids);
      FeedNone(y.accept, y.log);
      for edge := 256 downto 0
        invariant Feed(y.accept, old(y.log), Reverse(EdgesFrom(kids, edge))) == Fed(y.log, true)
      {
        EdgesFromStep(kids, edge);
        var c := children[edge];
        if c == NilNode { continue; }
        FeedMore(y.accept, old(y.log), Reverse(EdgesFrom(kids, edge + 1)), Edge(edge, c));
        more := y.Yield(Edge(edge, c));
        if !more {
          ghost var rest := ReverseFrom(kids, edge);
          FeedConcat(y.accept, old(y.log), Reverse(EdgesFrom(kids, edge)), rest);
          return;
        }
      }
      more := true;
    }
  }

  // ---------- The ladder between size classes ----------

  lemma IndexedCount<V>(s: IndexedTable<V>)
    requires s.Valid()
    ensures s.numChildren == |s.kids| <= 48
  {
  }

  method GrowToNode48<V>(n: SortedTable<V>) returns (grown: IndexedTable<V>)
    requires n.Valid() && n.numChildren <= 16
    ensures grown.Valid() && grown.kids == n.Kids()
    ensures fresh(grown) && fresh(grown.childIndex) && fresh(grown.children) && fresh(grown.childEdge)
  {
    hide Linked, Ascending;
    ghost var bs, cs := n.keys[..n.numChildren], n.children[..n.numChildren];
    grown := new IndexedTable();
    for i := 0 to n.numChildren
      invariant grown.Valid() && grown.kids == Zip(bs[..i], cs[..i])
      invariant fresh(grown) && fresh(grown.childIndex) && fresh(grown.children) && fresh(grown.childEdge)
      invariant grown.numChildren == i
    {
      ZipAppended(bs, cs, i);
      grown.AddChild(n.keys[i], n.children[i]);
    }
    assert bs[..n.numChildren] == bs && cs[..n.numChildren] == cs;
  }

  method ShrinkToNode16<V>(n: IndexedTable<V>) returns (shrunk: SortedTable<V>)
    requires n.Valid() && n.numChildren <= 16
    ensures shrunk.Valid() && shrunk.Kids() == n.kids && shrunk.keys.Length == 16
    ensures fresh(shrunk) && fresh(shrunk.keys) && fresh(shrunk.children)
  {
    hide Zip, Ascending;
    shrunk := new SortedTable(16);
    for edge := 0 to 256
      invariant shrunk.Valid() && shrunk.Kids() == Below(n.kids, edge) && shrunk.keys.Length == 16
      invariant fresh(shrunk) && fresh(shrunk.keys) && fresh(shrunk.children)
    {
      var slot := n.childIndex[edge];
      if slot == 0 { continue; }
      BelowIsSmaller(n.kids, edge);
      shrunk.AddChild(edge, n.children[slot - 1]);
    }
    BelowAll(n.kids);
  }

  method GrowToNode256<V>(n: IndexedTable<V>) returns (grown: DirectTable<V>)
    requires n.Valid()
    ensures grown.Valid() && grown.kids == n.kids && fresh(grown) && fresh(grown.children)
  {
    hide Linked;
    grown := new DirectTable();
    for b := 0 to 256
      invariant grown.Valid() && grown.kids == Below(n.kids, b) && fresh(grown) && fresh(grown.children)
    {
      IndexOf(n.childIndex[..], n.childEdge[..], n.children[..], n.numChildren, n.kids, b);
      var slot := n.childIndex[b];
      if slot != 0 {
        BelowIsSmaller(n.kids, b);
        grown.AddChild(b, n.children[slot - 1]);
      }
    }
    BelowAll(n.kids);
  }

  method ShrinkToNode48<V>(n: DirectTable<V>) returns (shrunk: IndexedTable<V>)
    requires n.Valid() && n.numChildren <= 48
    ensures shrunk.Valid() && shrunk.kids == n.kids
    ensures fresh(shrunk) && fresh(shrunk.childIndex) && fresh(shrunk.children) && fresh(shrunk.childEdge)
  {
    hide Linked;
    shrunk := new IndexedTable();
    for b := 0 to 256
      invariant shrunk.Valid() && shrunk.kids == Below(n.kids, b)
      invariant fresh(shrunk) && fresh(shrunk.childIndex) && fresh(shrunk.children) && fresh(shrunk.childEdge)
    {
      if n.children[b] == NilNode { continue; }
      BelowIsSmaller(n.kids, b);
      IndexedCount(shrunk);
      shrunk.AddChild(b, n.children[b]);
    }
    BelowAll(n.kids);
  }
}
