/** The primitives every kind of inner node offers, dispatched on its layout. */
module Nodes {
  import opened Bytes
  import opened Tries
  import opened Layouts
  import opened Feeds
  import opened Shapes

  method NumChildren<V>(l: Layout<V>) returns (n: nat)
    requires LayoutValid(l)
    ensures n == |KidsOf(l)| <= Capacity(KindOf(l))
  {
    match l
    case Layout4(s) => n := s.numChildren;
    case Layout16(s) => n := s.numChildren;
    case Layout48(s) => n := s.numChildren;
    case Layout256(s) =>
      n := s.numChildren;
      BytesAreFew(s.kids.Keys);
  }

  method FindChild<V>(l: Layout<V>, b: byte) returns (child: Node<V>)
    requires LayoutValid(l)
    ensures child == if b in KidsOf(l) then KidsOf(l)[b] else NilNode
  {
    match l
    case Layout4(s) => child := s.FindChild(b);
    case Layout16(s) => child := s.FindChild(b);
    case Layout48(s) => child := s.FindChild(b);
    case Layout256(s) => child := s.FindChild(b);
  }

  method ReplaceChild<V>(l: Layout<V>, b: byte, child: Node<V>)
    requires LayoutValid(l) && child != NilNode && b in KidsOf(l)
    modifies Parts(l)
    ensures LayoutValid(l) && KidsOf(l) == old(KidsOf(l))[b := child]
  {
    match l
    case Layout4(s) => s.ReplaceChild(b, child);
    case Layout16(s) => s.ReplaceChild(b, child);
    case Layout48(s) => s.ReplaceChild(b, child);
    case Layout256(s) => s.ReplaceChild(b, child);
  }

  method RemoveChild<V>(l: Layout<V>, b: byte)
    requires LayoutValid(l)
    modifies Parts(l)
    ensures LayoutValid(l) && KidsOf(l) == old(KidsOf(l)) - {b}
  {
    match l
    case Layout4(s) => s.RemoveChild(b);
    case Layout16(s) => s.RemoveChild(b);
    case Layout48(s) => s.RemoveChild(b);
    case Layout256(s) => s.RemoveChild(b);
  }

  method EachAscending<V>(l: Layout<V>, y: Consumer<Edge<V>>) returns (more: bool)
    requires LayoutValid(l)
    modifies y
    ensures LayoutValid(l) && KidsOf(l) == old(KidsOf(l))
    ensures Fed(y.log, more) == Feed(y.accept, old(y.log), OrderedEdges(KidsOf(l)))
  {
    hide Feed, OrderedEdges, Zip, Ascending, Linked;
    match l
    case Layout4(s) => more := s.EachAscending(y);
    case Layout16(s) => more := s.EachAscending(y);
    case Layout48(s) => more := s.EachAscending(y);
    case Layout256(s) => more := s.EachAscending(y);
  }

  method EachDescending<V>(l: Layout<V>, y: Consumer<Edge<V>>) returns (more: bool)
    requires LayoutValid(l)
    modifies y
    ensures LayoutValid(l) && KidsOf(l) == old(KidsOf(l))
    ensures Fed(y.log, more) == Feed(y.accept, old(y.log), Reverse(OrderedEdges(KidsOf(l))))
  {
    hide Feed, OrderedEdges, Reverse, Zip, Ascending, Linked;
    match l
    case Layout4(s) => more := s.EachDescending(y);
    case Layout16(s) => more := s.EachDescending(y);
    case Layout48(s) => more := s.EachDescending(y);
    case Layout256(s) => more := s.EachDescending(y);
  }

  /** All the edges, gathered by a `yield` that never refuses */
  method CollectAscending<V>(l: Layout<V>) returns (edges: seq<Edge<V>>)
    requires LayoutValid(l)
    ensures edges == OrderedEdges(old(KidsOf(l)))
  {
    hide OrderedEdges, Feed;
    var y := new Consumer<Edge<V>>(_ => true);
    FeedAll(y.accept, [], OrderedEdges(KidsOf(l)));
    var _ := EachAscending(l, y);
    edges := y.log;
  }

  method CollectDescending<V>(l: Layout<V>) returns (edges: seq<Edge<V>>)
    requires LayoutValid(l)
    ensures edges == Reverse(OrderedEdges(old(KidsOf(l))))
  {
    hide OrderedEdges, Feed, Reverse;
    var y := new Consumer<Edge<V>>(_ => true);
    FeedAll(y.accept, [], Reverse(OrderedEdges(KidsOf(l))));
    var _ := EachDescending(l, y);
    edges := y.log;
  }

  /** Where a `yield` that refuses exactly the edges with `stop` ends a walk over `edges` */
  ghost predicate StopsAt<V>(edges: seq<Edge<V>>, stop: byte -> bool, at: nat) {
    && at <= |edges| && (forall j | 0 <= j < at :: !stop(edges[j].byte))
    && (at < |edges| ==> stop(edges[at].byte))
  }

  function KeepsGoing<V>(stop: byte -> bool): seq<Edge<V>> -> bool {
    (log: seq<Edge<V>>) => |log| > 0 ==> !stop(log[|log| - 1].byte)
  }

  lemma {:induction false} FeedUntil<V>(edges: seq<Edge<V>>, stop: byte -> bool, log: seq<Edge<V>>) returns (at: nat)
    ensures StopsAt(edges, stop, at)
    ensures Feed(KeepsGoing(stop), log, edges) ==
            if at < |edges| then Fed(log + edges[..at + 1], false) else Fed(log + edges, true)
    decreases |edges|
  {
    hide StopsAt, KeepsGoing;
    at := 0;
    StopsAtStart(edges, stop);
    if edges != [] {
      var log' := log + [edges[0]];
      KeepsGoingAt(stop, log, edges[0]);
      if !stop(edges[0].byte) {
        var rest := FeedUntil(edges[1..], stop, log');
        at := rest + 1;
        StopsLater(edges, stop, rest);
        assert log' + edges[1..] == log + edges;
        assert at < |edges| ==> log' + edges[1..][..rest + 1] == log + edges[..at + 1];
      }
    }
  }

  lemma StopsAtStart<V>(edges: seq<Edge<V>>, stop: byte -> bool)
    ensures edges == [] || stop(edges[0].byte) ==> StopsAt(edges, stop, 0)
  {
  }

  lemma KeepsGoingAt<V>(stop: byte -> bool, log: seq<Edge<V>>, edge: Edge<V>)
    ensures KeepsGoing(stop)(log + [edge]) == !stop(edge.byte)
  {
  }

  lemma StopsLater<V>(edges: seq<Edge<V>>, stop: byte -> bool, rest: nat)
    requires edges != [] && !stop(edges[0].byte) && StopsAt(edges[1..], stop, rest)
    ensures StopsAt(edges, stop, rest + 1)
  {
    forall j | 0 <= j < rest + 1 ensures !stop(edges[j].byte) {
      if j > 0 { assert edges[j] == edges[1..][j - 1]; }
    }
  }

  /** `eachAscending` with a `yield` that keeps the child of the first edge with `stop`, and refuses it */
  method FindAscending<V>(l: Layout<V>, stop: byte -> bool) returns (found: Node<V>, ghost at: nat)
    requires LayoutValid(l)
    ensures StopsAt(OrderedEdges(old(KidsOf(l))), stop, at)
    ensures var edges := OrderedEdges(old(KidsOf(l))); found == if at < |edges| then edges[at].child else NilNode
  {
    hide OrderedEdges, Feed, StopsAt, KeepsGoing, Zip, Ascending, Linked;
    var y := new Consumer<Edge<V>>(KeepsGoing(stop));
    at := FeedUntil(OrderedEdges(KidsOf(l)), stop, []);
    var more := EachAscending(l, y);
    found := if more then NilNode else y.log[|y.log| - 1].child;
  }

  method FindDescending<V>(l: Layout<V>, stop: byte -> bool) returns (found: Node<V>, ghost at: nat)
    requires LayoutValid(l)
    ensures StopsAt(Reverse(OrderedEdges(old(KidsOf(l)))), stop, at)
    ensures var edges := Reverse(OrderedEdges(old(KidsOf(l))));
            found == if at < |edges| then edges[at].child else NilNode
  {
    hide OrderedEdges, Feed, StopsAt, KeepsGoing, Reverse, Zip, Ascending, Linked;
    var y := new Consumer<Edge<V>>(KeepsGoing(stop));
    at := FeedUntil(Reverse(OrderedEdges(KidsOf(l))), stop, []);
    var more := EachDescending(l, y);
    found := if more then NilNode else y.log[|y.log| - 1].child;
  }

  // The four kinds of `addOrGrow`: one more child, in a table one size up when the table is full.

  method AddOrGrow4<V>(s: SortedTable<V>, b: byte, child: Node<V>) returns (r: Layout<V>)
    requires s.Valid() && s.keys.Length == 4 && child != NilNode && b !in s.Kids()
    modifies s, s.keys, s.children
    ensures LayoutValid(r) && KidsOf(r) == old(s.Kids())[b := child]
    ensures if old(|s.Kids()|) < 4 then r == Layout4(s) else r.Layout16? && fresh(Parts(r))
  {
    hide Zip, Ascending, Linked;
    if s.numChildren < 4 {
      s.AddChild(b, child);
      r := Layout4(s);
    } else {
      var grown := s.WithCapacity(16);
      grown.AddChild(b, child);
      r := Layout16(grown);
    }
  }

  method AddOrGrow16<V>(s: SortedTable<V>, b: byte, child: Node<V>) returns (r: Layout<V>)
    requires s.Valid() && s.keys.Length == 16 && child != NilNode && b !in s.Kids()
    modifies s, s.keys, s.children
    ensures LayoutValid(r) && KidsOf(r) == old(s.Kids())[b := child]
    ensures if old(|s.Kids()|) < 16 then r == Layout16(s) else r.Layout48? && fresh(Parts(r))
  {
    hide Zip, Ascending, Linked;
    if s.numChildren < 16 {
      s.AddChild(b, child);
      r := Layout16(s);
    } else {
      var grown := GrowToNode48(s);
      IndexedCount(grown);
      grown.AddChild(b, child);
      r := Layout48(grown);
    }
  }

  method AddOrGrow48<V>(s: IndexedTable<V>, b: byte, child: Node<V>) returns (r: Layout<V>)
    requires s.Valid() && child != NilNode && b !in s.kids
    modifies s, s.childIndex, s.children, s.childEdge
    ensures LayoutValid(r) && KidsOf(r) == old(s.kids)[b := child]
    ensures if old(|s.kids|) < 48 then r == Layout48(s) else r.Layout256? && fresh(Parts(r))
  {
    hide Zip, Ascending, Linked;
    IndexedCount(s);
    if s.numChildren < 48 {
      s.AddChild(b, child);
      r := Layout48(s);
    } else {
      var grown := GrowToNode256(s);
      grown.AddChild(b, child);
      r := Layout256(grown);
    }
  }

  method AddOrGrowTable<V>(l: Layout<V>, b: byte, child: Node<V>) returns (r: Layout<V>)
    requires LayoutValid(l) && child != NilNode && b !in KidsOf(l)
    modifies Parts(l)
    ensures LayoutValid(r) && KidsOf(r) == old(KidsOf(l))[b := child]
    ensures r == l || fresh(Parts(r))
    ensures old(|KidsOf(l)|) < Capacity(KindOf(l)) ==> r == l
    ensures KindOf(l) == KindFor(old(|KidsOf(l)|)) ==> KindOf(r) == KindFor(old(|KidsOf(l)|) + 1)
  {
    hide Zip, Ascending, Linked;
    KidsFit(l);
    match l
    case Layout4(s) => r := AddOrGrow4(s, b, child);
    case Layout16(s) => r := AddOrGrow16(s, b, child);
    case Layout48(s) => r := AddOrGrow48(s, b, child);
    case Layout256(s) =>
      s.AddChild(b, child);
      r := l;
      BytesAreFew(s.kids.Keys);
  }

  lemma KidsFit<V>(l: Layout<V>)
    requires LayoutValid(l)
    ensures |KidsOf(l)| <= Capacity(KindOf(l))
  {
    if l.Layout256? { BytesAreFew(l.direct.kids.Keys); }
  }

  /** `addOrGrow`: the grown node inherits prefix and terminal. */
  method AddOrGrow<V>(n: InnerObj<V>, b: byte, child: Node<V>) returns (r: InnerObj<V>)
    requires LayoutValid(n.layout) && child != NilNode && b !in KidsOf(n.layout)
    modifies Parts(n.layout)
    ensures LayoutValid(r.layout) && KidsOf(r.layout) == old(KidsOf(n.layout))[b := child]
    ensures r.prefix == n.prefix && r.terminal == n.terminal
    ensures n.prefix == old(n.prefix) && n.terminal == old(n.terminal)
    ensures r == n || fresh(Objs(r))
    ensures old(|KidsOf(n.layout)|) < Capacity(KindOf(n.layout)) ==> r == n
    ensures KindOf(n.layout) == KindFor(old(|KidsOf(n.layout)|)) ==>
              KindOf(r.layout) == KindFor(old(|KidsOf(n.layout)|) + 1)
  {
    hide Zip, Ascending, Linked, Capacity, KindFor;
    var layout := AddOrGrowTable(n.layout, b, child);
    if layout == n.layout {
      r := n;
    } else {
      r := new InnerObj(n.prefix, n.terminal, layout);
    }
  }

  /** The table one size down when `l` holds exactly what that table can, else `l` itself */
  method ShrinkTable<V>(l: Layout<V>) returns (r: Layout<V>)
    requires LayoutValid(l)
    ensures LayoutValid(r) && KidsOf(r) == KidsOf(l)
    ensures r == l || fresh(Parts(r))
    ensures KindOf(r) == KindOf(l) ==> r == l
    ensures KindOf(r) ==
            if KindOf(l).K16? && |KidsOf(l)| == 4 then K4
            else if KindOf(l).K48? && |KidsOf(l)| == 16 then K16
            else if KindOf(l).K256? && |KidsOf(l)| == 48 then K48
            else KindOf(l)
  {
    hide Zip, Ascending, Linked;
    r := l;
    match l
    case Layout4(s) =>
    case Layout16(s) =>
      if s.numChildren == 4 {
        var shrunk := s.WithCapacity(4);
        r := Layout4(shrunk);
      }
    case Layout48(s) =>
      IndexedCount(s);
      if s.numChildren == 16 {
        var shrunk := ShrinkToNode16(s);
        r := Layout16(shrunk);
      }
    case Layout256(s) =>
      if s.numChildren == 48 {
        var shrunk := ShrinkToNode48(s);
        r := Layout48(shrunk);
      }
  }

  method CopyTable<V>(l: Layout<V>) returns (r: Layout<V>)
    requires LayoutValid(l)
    ensures LayoutValid(r) && KindOf(r) == KindOf(l) && KidsOf(r) == old(KidsOf(l)) && fresh(Parts(r))
  {
    hide Zip, Ascending, Linked;
    match l
    case Layout4(s) =>
      var copy := s.WithCapacity(4);
      r := Layout4(copy);
    case Layout16(s) =>
      var copy := s.WithCapacity(16);
      r := Layout16(copy);
    case Layout48(s) =>
      var copy := s.Copy();
      r := Layout48(copy);
    case Layout256(s) =>
      var copy := s.Copy();
      r := Layout256(copy);
  }

  /** `shallow`: the copy has a table of its own, and shares prefix, terminal and children. */
  method Shallow<V>(n: InnerObj<V>) returns (r: InnerObj<V>)
    requires LayoutValid(n.layout)
    ensures LayoutValid(r.layout) && KindOf(r.layout) == KindOf(n.layout) && KidsOf(r.layout) == old(KidsOf(n.layout))
    ensures r.prefix == n.prefix && r.terminal == n.terminal && fresh(Objs(r))
  {
    var layout := CopyTable(n.layout);
    r := new InnerObj(n.prefix, n.terminal, layout);
  }

  /** `keys[0]` and `children[0]` of a node4 with one child */
  method OnlyEdge<V>(l: Layout<V>) returns (b: byte, child: Node<V>)
    requires LayoutValid(l) && l.Layout4? && |KidsOf(l)| == 1
    ensures KidsOf(l) == map[b := child] && child != NilNode
  {
    var s := l.sorted;
    b, child := s.keys[0], s.children[0];
    assert s.keys[..s.numChildren] == [b] && s.children[..s.numChildren] == [child];
    assert Zip([b], [child]) == map[b := child] by {
      assert [b][1..] == [] && [child][1..] == [];
    }
  }
}
