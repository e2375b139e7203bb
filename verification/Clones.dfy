/** cloneNode of sorted.go */
module Clones {
  import opened Bytes
  import opened Tries
  import opened Layouts
  import opened Shapes
  import opened Nodes
  import opened Grafts
  import opened Canon
  import opened Walks

  /** The shallow copy of a node, for the time being over the original's children */
  ghost function Copied<V>(t: Shape<V>, r: InnerObj<V>): Shape<V>
    requires t.Inner?
  {
    t.(id := t.id.(node := InnerNode(r), foot := Foot(t) + Objs(r)))
  }

  lemma SepCopied<V>(t: Shape<V>, r: InnerObj<V>)
    requires t.Inner? && t.id.node.InnerNode? && Sep(t) && Objs(r) !! Foot(t)
    ensures Sep(Copied(t, r))
  {
    hide Objs;
  }

  method CopyNode<V>(n: InnerObj<V>, ghost t: Shape<V>) returns (r: InnerObj<V>)
    requires t.Inner? && t.id.node == InnerNode(n) && NodeAgrees(t) && Objs(n) <= Foot(t)
    ensures NodeAgrees(Copied(t, r)) && fresh(Objs(r))
    ensures r.terminal == n.terminal
  {
    hide LayoutValid, KidsOf, Agree;
    r := Shallow(n);
  }

  /** `t` as it is, on the objects it really needs */
  ghost function Trimmed<V>(t: Shape<V>, foot: set<object>): Shape<V>
    requires t.Inner?
  {
    t.(id := t.id.(foot := foot))
  }

  lemma HeldTrimmed<V>(n: InnerObj<V>, t: Shape<V>, foot: set<object>)
    requires Held(t) && t.Inner? && t.id.node == InnerNode(n)
    requires Objs(n) + Foot(t.term) <= foot <= Foot(t) && forall b | b in t.kids :: Foot(t.kids[b]) <= foot
    ensures Held(Trimmed(t, foot))
  {
    hide LayoutValid, KidsOf, Parts, Agree;
  }

  method StartCopy<V>(n: InnerObj<V>, ghost t: Shape<V>) returns (r: InnerObj<V>)
    requires Held(t) && t.Inner? && t.id.node == InnerNode(n)
    ensures Held(Copied(t, r)) && fresh(Objs(r)) && r.terminal == n.terminal
  {
    hide LayoutValid, KidsOf, Parts, NodeAgrees, Agree, Sep, Held;
    HeldParts(t);
    KidsSeparate(n, t);
    NodeIsNoBuffer(n, t);
    NodeIsNoBuffer(n, t.term);
    r := CopyNode(n, t);
    ghost var t' := Copied(t, r);
    SepCopied(t, r);
    NodeIsNoBuffer(r, t');
    NoBuffers(r, t, t, t');
    assert Held(t.term);
    forall c | c in t.kids ensures Held(t.kids[c]) { NodeIsNoBuffer(n, t.kids[c]); }
    HeldFromParts(t');
  }

  lemma KidsAreHeld<V>(t: Shape<V>, path: Key)
    requires Held(t) && t.Inner? && Canonical(t, path)
    ensures t.term.Leaf? || t.term.Nil?
    ensures forall b | b in t.kids :: Held(t.kids[b]) && Foot(t.kids[b]) <= Foot(t) && Bufs(t.kids[b]) <= Bufs(t)
    ensures forall b | b in t.kids :: t.kids[b] != Nil && Canonical(t.kids[b], path + t.prefix + [b])
    ensures forall b | b in t.kids :: Foot(t.kids[b]) !! Bufs(t.kids[b])
  {
  }

  /** `newLeaf`: a leaf of its own, with the same key and value */
  method CloneLeaf<V>(l: LeafObj<V>) returns (r: LeafObj<V>, ghost t: Shape<V>)
    ensures fresh(r) && Held(t) && t == LeafShape(r, l.value) && r.key == l.key
  {
    r := new LeafObj(l.key, l.value);
    t := LeafShape(r, l.value);
  }

  lemma LeafOf<V>(l: LeafObj<V>, t: Shape<V>)
    requires Held(t) && Root(t) == LeafNode(l)
    ensures t.Leaf? && t.key == l.key && t.value == l.value
  {
  }

  lemma LeafCopy<V>(t: Shape<V>, t': Shape<V>)
    requires t.Leaf? && t'.Leaf? && t'.key == t.key && t'.value == t.value
    ensures SameShape(t, t')
  {
  }

  lemma TermCopy<V>(t: Shape<V>, u: Shape<V>)
    requires t.Inner? && u.Inner? && u.term == t.term && (t.term.Leaf? || t.term.Nil?)
    ensures SameShape(t.term, u.term)
  {
  }

  lemma NilCopy<V>(t: Shape<V>)
    requires Held(t) && Root(t) == NilNode
    ensures t == Nil && Held<V>(Nil) && SameShape(t, t)
  {
  }

  /** A structure of the same shape, on new nodes and leaves; the prefix buffers are shared. */
  method CloneNode<V>(n: Node<V>, ghost t: Shape<V>, ghost path: Key) returns (r: Node<V>, ghost t': Shape<V>)
    requires Held(t) && Root(t) == n && Canonical(t, path)
    ensures Held(t') && Root(t') == r && fresh(Foot(t')) && Bufs(t') <= Bufs(t)
    ensures SameShape(t, t')
    decreases t, 2
  {
    hide Held, Canonical, SameShape, NodeAgrees, Sep;
    match n
    case NilNode =>
      NilCopy(t);
      r, t' := NilNode, Nil;
    case LeafNode(l) =>
      var copy;
      LeafOf(l, t);
      copy, t' := CloneLeaf(l);
      LeafCopy(t, t');
      r := LeafNode(copy);
    case InnerNode(src) =>
      var cp;
      WalkNode(src, t);
      cp, t' := CloneInner(src, t, path);
      r := InnerNode(cp);
  }

  method CloneInner<V>(src: InnerObj<V>, ghost t: Shape<V>, ghost path: Key)
    returns (cp: InnerObj<V>, ghost t': Shape<V>)
    requires Held(t) && t.Inner? && Root(t) == InnerNode(src) && Canonical(t, path)
    ensures Held(t') && Root(t') == InnerNode(cp) && fresh(Foot(t')) && Bufs(t') <= Bufs(t)
    ensures SameShape(t, t')
    decreases t, 1
  {
    hide Held, Canonical, SameShape, NodeAgrees, Sep;
    WalkNode(src, t);
    KidsAreHeld(t, path);
    HeldApart(t);
    cp := StartCopy(src, t);
    ghost var u, own := Copied(t, cp), Objs(cp);
    HeldApart(u);
    u, own := CloneTerminal(cp, t, u);
    HeldApart(t);
    assert Held(t);
    t' := CloneKids(cp, t, path, u, own);
  }

  method CloneTerminal<V>(cp: InnerObj<V>, ghost t: Shape<V>, ghost u: Shape<V>)
    returns (ghost u': Shape<V>, ghost own: set<object>)
    requires Held(u) && t.Inner? && u.Inner? && Root(u) == InnerNode(cp) && (t.term.Leaf? || t.term.Nil?)
    requires u == Copied(t, cp)
    modifies cp
    ensures Held(u') && u'.Inner? && Root(u') == InnerNode(cp) && Foot(u') == Foot(t) + own && Bufs(u') == Bufs(t)
    ensures u'.kids == t.kids && u'.kind == t.kind && u'.prefix == t.prefix && SameShape(t.term, u'.term)
    ensures Objs(cp) + Foot(u'.term) <= own && fresh(own - Objs(cp))
  {
    hide Held, Canonical, SameShape, NodeAgrees, Sep;
    WalkNode(cp, u);
    HeldApart(u);
    TermCopy(t, u);
    u', own := u, Objs(cp);
    if cp.terminal.LeafNode? {
      var tl;
      ghost var leaf;
      tl, leaf := CloneLeaf(cp.terminal.leaf);
      LeafCopy(t.term, leaf);
      SetTerminal(cp, LeafNode(tl), u, leaf);
      u', own := Terminated(u, leaf), own + Foot(leaf);
    }
  }

  /** Every child slot of the copy is replaced with a copy of the child. */
  method CloneKids<V>(cp: InnerObj<V>, ghost t: Shape<V>, ghost path: Key, ghost start: Shape<V>,
                      ghost own: set<object>)
    returns (ghost t': Shape<V>)
    requires Held(t) && t.Inner? && Canonical(t, path)
    requires Held(start) && start.Inner? && Root(start) == InnerNode(cp) && Foot(start) == Foot(t) + own
    requires start.kids == t.kids && start.kind == t.kind && start.prefix == t.prefix && SameShape(t.term, start.term)
    requires Objs(cp) + Foot(start.term) <= own && own !! Foot(t) && Bufs(start) == Bufs(t)
    modifies Objs(cp)
    ensures Held(t') && Root(t') == InnerNode(cp) && own <= Foot(t') && fresh(Foot(t') - own) && Bufs(t') <= Bufs(t)
    ensures SameShape(t, t')
    decreases t, 0, 1
  {
    hide Held, Canonical, SameShape, NodeAgrees, Sep, LeadTo, Progress, Sorted;
    HeldApart(start);
    HeldApart(t);
    KidsAreHeld(t, path);
    ghost var u, mine, bs := start, own, Sorted(t.kids.Keys);
    var edges := Ascend(cp, start);
    LeadLength(edges, start, bs);
    SortedIsAscending(t.kids.Keys);
    ProgressStart(t, start, bs, own);
    var i := 0;
    while i < |edges|
      invariant 0 <= i <= |edges|
      invariant Held(u) && Progress(t, start, u, bs, i, own, mine) && fresh(mine - own)
      invariant forall b | b in t.kids :: Held(t.kids[b])
    {
      HeldApart(u);
      u, mine := CloneNext(edges, cp, t, path, start, u, bs, i, own, mine);
      i := i + 1;
    }
    ProgressDone(t, start, u, bs, own, mine);
    HeldTrimmed(cp, u, mine);
    t' := Trimmed(u, mine);
  }

  method CloneNext<V>(edges: seq<Edge<V>>, cp: InnerObj<V>, ghost t: Shape<V>, ghost path: Key, ghost start: Shape<V>,
                      ghost u: Shape<V>, ghost bs: seq<byte>, i: nat, ghost own: set<object>, ghost mine: set<object>)
    returns (ghost u': Shape<V>, ghost mine': set<object>)
    requires t.Inner? && Canonical(t, path) && start.Inner? && Root(start) == InnerNode(cp)
    requires forall b | b in t.kids :: Held(t.kids[b]) && Bufs(t.kids[b]) <= Bufs(t)
    requires LeadTo(edges, start, bs) && Ascending(bs) && i < |edges| && start.kids == t.kids
    requires i < |bs| && Held(u) && Progress(t, start, u, bs, i, own, mine)
    modifies Objs(cp)
    ensures Held(u') && Progress(t, start, u', bs, i + 1, own, mine') && mine <= mine' && fresh(mine' - mine)
    decreases t, 0, 0
  {
    hide Held, Canonical, SameShape, NodeAgrees, Sep, LeadTo, Progress, Sorted;
    KidsAreCanonical(t, path);
    LeadsTo(edges, start, bs, i);
    NotYet(t, start, u, bs, i, own, mine);
    HeldApart(u);
    ghost var kid' := CloneKid(cp, edges[i].byte, edges[i].child, t.kids[bs[i]], path + t.prefix + [bs[i]], u);
    ProgressMade(t, start, u, bs, i, own, mine, kid');
    u', mine' := Grafted(u, bs[i], kid'), mine + Foot(kid');
  }

  /** The children under the first `i` edges have been replaced, with structures on the objects `mine`. */
  ghost predicate Progress<V>(t: Shape<V>, start: Shape<V>, u: Shape<V>, bs: seq<byte>, i: nat,
                              own: set<object>, mine: set<object>)
    requires t.Inner? && start.Inner? && i <= |bs|
  {
    && u.Inner? && u == start.(kids := u.kids, id := u.id) && u.id.node == start.id.node && u.kids.Keys == t.kids.Keys
    && own <= mine && Foot(u) == Foot(t) + mine && mine !! Foot(t) && Bufs(u) == Bufs(t)
    && (forall b | b in t.kids && b in bs[..i] :: Foot(u.kids[b]) <= mine && SameShape(t.kids[b], u.kids[b]))
    && (forall b | b in t.kids && b !in bs[..i] :: u.kids[b] == t.kids[b])
  }

  lemma ProgressStart<V>(t: Shape<V>, start: Shape<V>, bs: seq<byte>, own: set<object>)
    requires t.Inner? && start.Inner? && start.kids == t.kids && Foot(start) == Foot(t) + own && own !! Foot(t)
    requires Bufs(start) == Bufs(t)
    ensures Progress(t, start, start, bs, 0, own, own)
  {
  }

  lemma LeadLength<V>(edges: seq<Edge<V>>, t: Shape<V>, bs: seq<byte>)
    requires LeadTo(edges, t, bs)
    ensures |edges| == |bs|
  {
  }

  lemma LeadsTo<V>(edges: seq<Edge<V>>, t: Shape<V>, bs: seq<byte>, i: nat)
    requires LeadTo(edges, t, bs) && i < |edges|
    ensures |edges| == |bs| && t.Inner? && bs[i] in t.kids && edges[i] == Edge(bs[i], Root(t.kids[bs[i]]))
  {
  }

  lemma NotYet<V>(t: Shape<V>, start: Shape<V>, u: Shape<V>, bs: seq<byte>, i: nat, own: set<object>, mine: set<object>)
    requires t.Inner? && start.Inner? && i < |bs| && Progress(t, start, u, bs, i, own, mine)
    requires Ascending(bs) && bs[i] in t.kids
    ensures u.Inner? && bs[i] in u.kids && u.kids[bs[i]] == t.kids[bs[i]] && u.id.node == start.id.node
  {
    forall j | 0 <= j < i ensures bs[j] != bs[i] { AscendingPair(bs, j, i); }
  }

  lemma ProgressMade<V>(t: Shape<V>, start: Shape<V>, u: Shape<V>, bs: seq<byte>, i: nat,
                        own: set<object>, mine: set<object>, kid: Shape<V>)
    requires t.Inner? && start.Inner? && i < |bs| && Progress(t, start, u, bs, i, own, mine) && bs[i] in t.kids
    requires SameShape(t.kids[bs[i]], kid) && Foot(kid) !! Foot(t) && Bufs(kid) <= Bufs(t)
    ensures Progress(t, start, Grafted(u, bs[i], kid), bs, i + 1, own, mine + Foot(kid))
  {
    assert bs[..i + 1] == bs[..i] + [bs[i]];
  }

  lemma ProgressDone<V>(t: Shape<V>, start: Shape<V>, u: Shape<V>, bs: seq<byte>, own: set<object>, mine: set<object>)
    requires t.Inner? && start.Inner? && Progress(t, start, u, bs, |bs|, own, mine)
    requires forall b | b in t.kids :: b in bs
    requires start.kind == t.kind && start.prefix == t.prefix && SameShape(t.term, start.term)
    ensures u.Inner? && u.id.node == start.id.node && SameShape(t, Trimmed(u, mine))
    ensures u.term == start.term && own <= mine <= Foot(u) && Bufs(u) == Bufs(t)
    ensures forall b | b in u.kids :: Foot(u.kids[b]) <= mine
  {
    assert bs[..|bs|] == bs;
  }

  method CloneKid<V>(cp: InnerObj<V>, b: byte, child: Node<V>, ghost kid: Shape<V>, ghost path: Key, ghost u: Shape<V>)
    returns (ghost kid': Shape<V>)
    requires Held(kid) && Root(kid) == child && kid != Nil && Canonical(kid, path)
    requires Held(u) && u.Inner? && Root(u) == InnerNode(cp) && b in u.kids && u.kids[b] == kid
    modifies Objs(cp)
    ensures Held(Grafted(u, b, kid')) && fresh(Foot(kid')) && Bufs(kid') <= Bufs(kid)
    ensures SameShape(kid, kid')
    decreases kid, 3
  {
    hide Held, Canonical, SameShape, NodeAgrees, Sep;
    HeldApart(u);
    var clone;
    clone, kid' := CloneNode(child, kid, path);
    NotNil(kid, kid');
    HeldParts(u);
    NodeIsNoBuffer(cp, kid');
    ReplaceKid(cp, b, clone, u, kid');
  }

  lemma NotNil<V>(t: Shape<V>, t': Shape<V>)
    requires t != Nil && SameShape(t, t') && Held(t')
    ensures t' != Nil && Root(t') != NilNode
  {
  }
}
