/** The four walks of iterate.go: forward and backward, over everything or over an interval. */
module Walks {
  import opened Bytes
  import opened Tries
  import opened Layouts
  import opened Shapes
  import opened Nodes
  import opened Listings
  import opened Feeds

  // ---------- Edges and the children behind them ----------

  lemma {:induction false} EdgesOverAt<V>(kids: map<byte, Node<V>>, bs: seq<byte>, i: nat)
    requires i < |bs| && bs[i] in kids
    ensures |EdgesOver(kids, bs)| == |bs| && EdgesOver(kids, bs)[i] == Edge(bs[i], kids[bs[i]])
    decreases bs
  {
    EdgesOverLength(kids, bs);
    if i > 0 { EdgesOverAt(kids, bs[1..], i - 1); }
  }

  lemma {:induction false} EdgesOverLength<V>(kids: map<byte, Node<V>>, bs: seq<byte>)
    ensures |EdgesOver(kids, bs)| == |bs|
  {
    if bs != [] { EdgesOverLength(kids, bs[1..]); }
  }

  lemma {:induction false} ReverseAt<T>(s: seq<T>, i: nat)
    requires i < |s|
    ensures Reverse(s)[i] == s[|s| - 1 - i]
  {
    if i < |s| - 1 { ReverseAt(s[1..], i); }
  }

  /** `edges` lead to the children of `t` under the bytes `bs`, in that order. */
  ghost predicate LeadTo<V>(edges: seq<Edge<V>>, t: Shape<V>, bs: seq<byte>) {
    && t.Inner? && |edges| == |bs|
    && forall i | 0 <= i < |bs| :: bs[i] in t.kids && edges[i] == Edge(bs[i], Root(t.kids[bs[i]]))
  }

  lemma LeadBack<V>(edges: seq<Edge<V>>, t: Shape<V>, bs: seq<byte>)
    requires LeadTo(edges, t, bs)
    ensures LeadTo(Reverse(edges), t, Reverse(bs))
  {
    var rs := Reverse(bs);
    forall i | 0 <= i < |rs| ensures rs[i] in t.kids && Reverse(edges)[i] == Edge(rs[i], Root(t.kids[rs[i]])) {
      ReverseAt(bs, i);
      ReverseAt(edges, i);
    }
  }

  lemma OrderedEdgesLead<V>(n: InnerObj<V>, t: Shape<V>)
    requires Held(t) && t.Inner? && Root(t) == InnerNode(n)
    ensures LayoutValid(n.layout) && LeadTo(OrderedEdges(KidsOf(n.layout)), t, Sorted(t.kids.Keys))
  {
    var kids, bs := KidsOf(n.layout), Sorted(t.kids.Keys);
    SortedFromMembers(t.kids.Keys, 0);
    EdgesOverLength(kids, bs);
    forall i | 0 <= i < |bs| ensures bs[i] in t.kids && EdgesOver(kids, bs)[i] == Edge(bs[i], Root(t.kids[bs[i]])) {
      assert bs[i] in bs;
      EdgesOverAt(kids, bs, i);
    }
  }

  method Ascend<V>(n: InnerObj<V>, ghost t: Shape<V>) returns (edges: seq<Edge<V>>)
    requires Held(t) && t.Inner? && Root(t) == InnerNode(n)
    ensures LeadTo(edges, t, Sorted(t.kids.Keys))
  {
    hide LeadTo;
    OrderedEdgesLead(n, t);
    edges := CollectAscending(n.layout);
  }

  method Descend<V>(n: InnerObj<V>, ghost t: Shape<V>) returns (edges: seq<Edge<V>>)
    requires Held(t) && t.Inner? && Root(t) == InnerNode(n)
    ensures LeadTo(edges, t, Reverse(Sorted(t.kids.Keys)))
  {
    hide LeadTo;
    OrderedEdgesLead(n, t);
    LeadBack(OrderedEdges(KidsOf(n.layout)), t, Sorted(t.kids.Keys));
    edges := CollectDescending(n.layout);
  }

  lemma ConsumerIsApart<V>(y: Consumer<Entry<V>>, t: Shape<V>)
    ensures {y as object} !! Bufs(t)
  {
  }

  lemma KidsAreApart<V>(y: Consumer<Entry<V>>, t: Shape<V>)
    requires t.Inner? && y !in Foot(t) && forall b | b in t.kids :: Foot(t.kids[b]) <= Foot(t)
    ensures forall b | b in t.kids :: {y as object} !! Foot(t.kids[b]) && {y as object} !! Bufs(t.kids[b])
  {
  }

  /** What a walk needs to know before it looks at one node */
  lemma WalkNode<V>(n: InnerObj<V>, t: Shape<V>)
    requires Held(t) && Root(t) == InnerNode(n)
    ensures t.Inner? && (n.terminal.LeafNode? <==> t.term.Leaf?)
    ensures n.terminal.LeafNode? ==> TermEntries(t.term) == [(n.terminal.leaf.key, n.terminal.leaf.value)]
    ensures !n.terminal.LeafNode? ==> TermEntries(t.term) == []
    ensures n.prefix.InBounds() && n.prefix.Bytes() == t.prefix
    ensures forall b | b in t.kids :: Held(t.kids[b]) && Foot(t.kids[b]) <= Foot(t)
  {
  }

  lemma KidsAreCanonical<V>(t: Shape<V>, path: Key)
    requires t.Inner? && Canonical(t, path)
    ensures forall b | b in t.kids :: t.kids[b] != Nil && Canonical(t.kids[b], path + t.prefix + [b])
  {
  }

  lemma WalkLeaf<V>(l: LeafObj<V>, t: Shape<V>)
    requires Held(t) && Root(t) == LeafNode(l)
    ensures Flat(t) == [(l.key, l.value)]
  {
  }

  lemma WalkNil<V>(t: Shape<V>)
    requires Held(t) && Root(t) == NilNode
    ensures Flat(t) == []
  {
  }

  // ---------- The whole tree ----------

  /** Offering an inner node's entries: the terminal first, if there is one. */
  lemma FeedNode<V>(accept: seq<Entry<V>> -> bool, log: seq<Entry<V>>, t: Shape<V>)
    requires t.Inner?
    ensures var below, term, all := FlatOver(t, Sorted(t.kids.Keys)), TermEntries(t.term), Feed(accept, log, Flat(t));
            && (term == [] ==> all == Feed(accept, log, below))
            && (term != [] ==> var log' := log + term;
                               all == if accept(log') then Feed(accept, log', below) else Fed(log', false))
  {
    FeedConcat(accept, log, TermEntries(t.term), FlatOver(t, Sorted(t.kids.Keys)));
    if t.term.Leaf? { FeedOne(accept, log, (t.term.key, t.term.value)); }
  }

  /** Offering the entries under the edges from the `i`-th on: those of the next child first. */
  lemma FeedOver<V>(accept: seq<Entry<V>> -> bool, log: seq<Entry<V>>, t: Shape<V>, bs: seq<byte>, i: nat)
    requires t.Inner? && i < |bs| && bs[i] in t.kids
    ensures Feed(accept, log, FlatOver(t, bs[i..])) ==
            var first := Feed(accept, log, Flat(t.kids[bs[i]]));
            if first.more then Feed(accept, first.log, FlatOver(t, bs[i + 1..])) else first
  {
    assert bs[i..][1..] == bs[i + 1..];
    FeedConcat(accept, log, Flat(t.kids[bs[i]]), FlatOver(t, bs[i + 1..]));
  }

  /** Every pair is offered to the consumer in ascending key order, up to its first refusal. */
  method Iterate<V>(current: Node<V>, y: Consumer<Entry<V>>, ghost t: Shape<V>) returns (more: bool)
    requires Held(t) && Root(t) == current && y !in Foot(t)
    modifies y
    ensures Fed(y.log, more) == Feed(y.accept, old(y.log), Flat(t))
    decreases t, 1
  {
    hide Held, LeadTo, Feed, Flat, FlatOver, TermEntries, Sorted;
    ConsumerIsApart(y, t);
    match current
    case NilNode =>
      WalkNil(t);
      FeedNone(y.accept, y.log);
      return true;
    case LeafNode(l) =>
      WalkLeaf(l, t);
      FeedOne(y.accept, y.log, (l.key, l.value));
      more := y.Yield((l.key, l.value));
    case InnerNode(r) =>
      WalkNode(r, t);
      FeedNode(y.accept, y.log, t);
      var edges := Ascend(r, t);
      KidsAreApart(y, t);
      if r.terminal.LeafNode? {
        more := y.Yield((r.terminal.leaf.key, r.terminal.leaf.value));
        if !more { return; }
      }
      more := IterateEdges(edges, y, t, Sorted(t.kids.Keys));
  }

  method IterateEdges<V>(edges: seq<Edge<V>>, y: Consumer<Entry<V>>, ghost t: Shape<V>, ghost bs: seq<byte>)
    returns (more: bool)
    requires LeadTo(edges, t, bs) && y !in Foot(t)
    requires forall b | b in t.kids :: Held(t.kids[b]) && Foot(t.kids[b]) <= Foot(t)
    modifies y
    ensures Fed(y.log, more) == Feed(y.accept, old(y.log), FlatOver(t, bs))
    decreases t, 0
  {
    hide Held, Flat, Feed, FlatOver;
    assert bs[0..] == bs;
    var i := 0;
    while i < |edges|
      invariant 0 <= i <= |edges|
      invariant forall b | b in t.kids :: Held(t.kids[b])
      invariant Feed(y.accept, old(y.log), FlatOver(t, bs)) == Feed(y.accept, y.log, FlatOver(t, bs[i..]))
    {
      FeedOver(y.accept, y.log, t, bs, i);
      KidsAreApart(y, t);
      more := Iterate(edges[i].child, y, t.kids[bs[i]]);
      if !more { return; }
      i := i + 1;
    }
    FeedOverNone(y.accept, y.log, t, bs[i..]);
    return true;
  }

  lemma FeedOverNone<V>(accept: seq<Entry<V>> -> bool, log: seq<Entry<V>>, t: Shape<V>, bs: seq<byte>)
    requires t.Inner? && bs == []
    ensures Feed(accept, log, FlatOver(t, bs)) == Fed(log, true)
  {
  }

  // ---------- The whole tree, backwards ----------

  lemma FlatOverLast<V>(t: Shape<V>, bs: seq<byte>, k: nat)
    requires t.Inner? && 0 < k <= |bs| && bs[k - 1] in t.kids
    ensures FlatOver(t, bs[..k]) == FlatOver(t, bs[..k - 1]) + Flat(t.kids[bs[k - 1]])
  {
    var b := bs[k - 1];
    var none: seq<byte> := [b][1..];
    assert none == [];
    FlatOverAppend(t, bs[..k - 1], [b]);
    assert bs[..k] == bs[..k - 1] + [b];
    assert FlatOver(t, [b]) == Flat(t.kids[b]);
  }

  lemma FeedOverBack<V>(accept: seq<Entry<V>> -> bool, log: seq<Entry<V>>, t: Shape<V>, bs: seq<byte>, k: nat)
    requires t.Inner? && 0 < k <= |bs| && bs[k - 1] in t.kids
    ensures Feed(accept, log, Reverse(FlatOver(t, bs[..k]))) ==
            var first := Feed(accept, log, Reverse(Flat(t.kids[bs[k - 1]])));
            if first.more then Feed(accept, first.log, Reverse(FlatOver(t, bs[..k - 1]))) else first
  {
    FlatOverLast(t, bs, k);
    ReverseConcat(FlatOver(t, bs[..k - 1]), Flat(t.kids[bs[k - 1]]));
    FeedConcat(accept, log, Reverse(Flat(t.kids[bs[k - 1]])), Reverse(FlatOver(t, bs[..k - 1])));
  }

  /** Backwards, an inner node's terminal comes last. */
  lemma FeedNodeBack<V>(accept: seq<Entry<V>> -> bool, log: seq<Entry<V>>, t: Shape<V>)
    requires t.Inner?
    ensures var first := Feed(accept, log, Reverse(FlatOver(t, Sorted(t.kids.Keys)))); var term := TermEntries(t.term);
            Feed(accept, log, Reverse(Flat(t))) ==
            if !first.more || term == [] then first else Fed(first.log + term, accept(first.log + term))
  {
    var bs, term := Sorted(t.kids.Keys), TermEntries(t.term);
    ReverseConcat(term, FlatOver(t, bs));
    var first := Feed(accept, log, Reverse(FlatOver(t, bs)));
    FeedConcat(accept, log, Reverse(FlatOver(t, bs)), Reverse(term));
    if t.term.Leaf? {
      ReverseOne((t.term.key, t.term.value));
      FeedOne(accept, first.log, (t.term.key, t.term.value));
    }
  }

  lemma ReverseOne<T>(x: T)
    ensures Reverse([x]) == [x]
  {
    var none: seq<T> := [x][1..];
    assert none == [];
  }

  /** Every pair is offered to the consumer in descending key order, up to its first refusal. */
  method IterateDescending<V>(current: Node<V>, y: Consumer<Entry<V>>, ghost t: Shape<V>) returns (more: bool)
    requires Held(t) && Root(t) == current && y !in Foot(t)
    modifies y
    ensures Fed(y.log, more) == Feed(y.accept, old(y.log), Reverse(Flat(t)))
    decreases t, 1
  {
    hide Held, LeadTo, Feed, Flat, FlatOver, TermEntries, Sorted;
    ConsumerIsApart(y, t);
    match current
    case NilNode =>
      WalkNil(t);
      FeedNone(y.accept, y.log);
      return true;
    case LeafNode(l) =>
      WalkLeaf(l, t);
      ReverseOne((l.key, l.value));
      FeedOne(y.accept, y.log, (l.key, l.value));
      more := y.Yield((l.key, l.value));
    case InnerNode(r) =>
      WalkNode(r, t);
      FeedNodeBack(y.accept, y.log, t);
      var edges := Descend(r, t);
      KidsAreApart(y, t);
      more := IterateEdgesDescending(edges, y, t, Sorted(t.kids.Keys));
      if !more { return; }
      if r.terminal.LeafNode? {
        more := y.Yield((r.terminal.leaf.key, r.terminal.leaf.value));
      }
  }

  method IterateEdgesDescending<V>(edges: seq<Edge<V>>, y: Consumer<Entry<V>>, ghost t: Shape<V>, ghost bs: seq<byte>)
    returns (more: bool)
    requires LeadTo(edges, t, Reverse(bs)) && y !in Foot(t)
    requires forall b | b in t.kids :: Held(t.kids[b]) && Foot(t.kids[b]) <= Foot(t)
    modifies y
    ensures Fed(y.log, more) == Feed(y.accept, old(y.log), Reverse(FlatOver(t, bs)))
    decreases t, 0
  {
    hide Held, Flat, Feed, FlatOver;
    assert bs[..|bs|] == bs;
    var i := 0;
    while i < |edges|
      invariant 0 <= i <= |edges|
      invariant forall b | b in t.kids :: Held(t.kids[b])
      invariant Feed(y.accept, old(y.log), Reverse(FlatOver(t, bs))) ==
                Feed(y.accept, y.log, Reverse(FlatOver(t, bs[..|bs| - i])))
    {
      ReverseAt(bs, i);
      FeedOverBack(y.accept, y.log, t, bs, |bs| - i);
      KidsAreApart(y, t);
      more := IterateDescending(edges[i].child, y, t.kids[bs[|bs| - 1 - i]]);
      if !more { return; }
      i := i + 1;
    }
    FeedOverNoneBack(y.accept, y.log, t, bs[..|bs| - i]);
    return true;
  }

  lemma FeedOverNoneBack<V>(accept: seq<Entry<V>> -> bool, log: seq<Entry<V>>, t: Shape<V>, bs: seq<byte>)
    requires t.Inner? && bs == []
    ensures Feed(accept, log, Reverse(FlatOver(t, bs))) == Fed(log, true)
  {
  }
}
