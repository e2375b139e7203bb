/** The node primitives once more, now with the shapes they transform. */
module Grafts {
  import opened Bytes
  import opened Tries
  import opened Edits
  import opened Layouts
  import opened Shapes
  import opened Nodes

  /** `t` with `kid` in slot `b`, and the footprint that goes with it */
  ghost function Grafted<V>(t: Shape<V>, b: byte, kid: Shape<V>): Shape<V>
    requires t.Inner?
  {
    t.(kids := t.kids[b := kid], id := t.id.(foot := Foot(t) + Foot(kid), bufs := Bufs(t) + Bufs(kid)))
  }

  /** The subtree `kid` may go into slot `b` of `t`: its objects are the slot's own, or foreign to `t`. */
  ghost predicate Graftable<V>(t: Shape<V>, b: byte, kid: Shape<V>)
    requires t.Inner?
  {
    kid != Nil && Foot(kid) - (if b in t.kids then Foot(t.kids[b]) else {}) !! Foot(t)
  }

  /** What is known of an inner node's surroundings when its own fields, or child `b`, are being changed */
  ghost predicate Context<V>(n: InnerObj<V>, t: Shape<V>, b: byte)
    reads Foot(t), Bufs(t)
  {
    && t.Inner? && t.id.node == InnerNode(n)
    && (forall o | o in Foot(t) :: !(o is Buffer))
    && Sep(t)
    && Held(t.term)
    && forall c | c in t.kids && c != b :: Held(t.kids[c])
  }

  lemma ContextSeparates<V>(n: InnerObj<V>, t: Shape<V>, b: byte, kid: Shape<V>)
    requires Context(n, t, b) && Graftable(t, b, kid)
    ensures Objs(n) !! Foot(t.term) && Objs(n) !! Foot(kid)
    ensures forall c | c in t.kids && c != b :: Objs(n) !! Foot(t.kids[c])
  {
  }

  lemma SepGrafted<V>(t: Shape<V>, b: byte, kid: Shape<V>)
    requires t.Inner? && t.id.node.InnerNode? && Sep(t) && Graftable(t, b, kid)
    ensures Sep(Grafted(t, b, kid))
  {
  }

  lemma HeldFromParts<V>(t: Shape<V>)
    requires t.Inner? && t.id.node.InnerNode? && (forall o | o in Foot(t) :: !(o is Buffer))
    requires Sep(t) && NodeAgrees(t) && Held(t.term) && forall b | b in t.kids :: Held(t.kids[b])
    ensures Held(t)
  {
  }

  /** Footprints put together from buffer-free ones are buffer-free. */
  lemma NoBuffers<V>(n: InnerObj<V>, t: Shape<V>, kid: Shape<V>, t': Shape<V>)
    requires (forall o | o in Foot(t) :: !(o is Buffer)) && (forall o | o in Foot(kid) :: !(o is Buffer))
    requires Foot(t') <= Foot(t) + Foot(kid) + Objs(n)
    ensures forall o | o in Foot(t') :: !(o is Buffer)
  {
  }

  method SetKid<V>(n: InnerObj<V>, b: byte, child: Node<V>, ghost t: Shape<V>, ghost kid: Shape<V>)
    requires t.Inner? && t.id.node == InnerNode(n) && b in t.kids && NodeAgrees(t)
    requires Root(kid) == child && kid != Nil && child != NilNode
    modifies Parts(n.layout)
    ensures NodeAgrees(Grafted(t, b, kid))
  {
    hide LayoutValid, KidsOf, Parts, Objs, Agree;
    AgreeUpdated(KidsOf(n.layout), t.kids, b, kid);
    Nodes.ReplaceChild(n.layout, b, child);
  }

  method ReplaceKid<V>(n: InnerObj<V>, b: byte, child: Node<V>, ghost t: Shape<V>, ghost kid: Shape<V>)
    requires Context(n, t, b) && NodeAgrees(t) && b in t.kids
    requires Held(kid) && Graftable(t, b, kid) && Root(kid) == child && child != NilNode
    modifies Parts(n.layout)
    ensures Held(Grafted(t, b, kid))
  {
    hide LayoutValid, KidsOf, Parts, NodeAgrees, Agree;
    ContextSeparates(n, t, b, kid);
    SetKid(n, b, child, t, kid);
    SepGrafted(t, b, kid);
    assert Held(kid);
    assert Held(t.term);
    forall c | c in t.kids && c != b ensures Held(t.kids[c]) {}
    NoBuffers(n, t, kid, Grafted(t, b, kid));
    HeldFromParts(Grafted(t, b, kid));
  }

  // ---------- A new child ----------

  /** `t` as implemented by `r`, with one more child */
  ghost function Extended<V>(t: Shape<V>, b: byte, kid: Shape<V>, r: InnerObj<V>): Shape<V>
    requires t.Inner?
  {
    Inner(Ref(InnerNode(r), t.id.slice, Foot(t) + Foot(kid) + Objs(r), Bufs(t) + Bufs(kid)),
          KindOf(r.layout), t.prefix, t.term, t.kids[b := kid])
  }

  method ExtendNode<V>(n: InnerObj<V>, b: byte, child: Node<V>, ghost t: Shape<V>, ghost kid: Shape<V>)
    returns (r: InnerObj<V>)
    requires t.Inner? && t.id.node == InnerNode(n) && b !in t.kids && NodeAgrees(t)
    requires Root(kid) == child && kid != Nil && child != NilNode
    modifies Parts(n.layout)
    ensures NodeAgrees(Extended(t, b, kid, r))
    ensures r == n || fresh(Objs(r))
    ensures |t.kids| < Capacity(t.kind) ==> r == n
    ensures t.kind == KindFor(|t.kids|) ==> KindOf(r.layout) == KindFor(|t.kids| + 1)
  {
    hide LayoutValid, KidsOf, Parts, Agree;
    AgreeUpdated(KidsOf(n.layout), t.kids, b, kid);
    AgreeCount(KidsOf(n.layout), t.kids);
    r := Nodes.AddOrGrow(n, b, child);
  }

  lemma SepExtended<V>(n: InnerObj<V>, t: Shape<V>, b: byte, kid: Shape<V>, r: InnerObj<V>)
    requires t.Inner? && t.id.node == InnerNode(n) && Sep(t) && b !in t.kids && Foot(kid) !! Foot(t)
    requires r == n || Objs(r) !! Foot(t) + Foot(kid)
    ensures Sep(Extended(t, b, kid, r))
  {
    hide Objs;
  }

  // ---------- The terminal slot ----------

  /** `t` with another terminal, and the footprint that goes with it */
  ghost function Terminated<V>(t: Shape<V>, term: Shape<V>): Shape<V>
    requires t.Inner?
  {
    t.(term := term, id := t.id.(foot := Foot(t) + Foot(term), bufs := Bufs(t) + Bufs(term)))
  }

  lemma SepTerminated<V>(t: Shape<V>, term: Shape<V>)
    requires t.Inner? && t.id.node.InnerNode? && Sep(t) && Foot(term) - Foot(t.term) !! Foot(t)
    ensures Sep(Terminated(t, term))
  {
    hide Objs;
  }

  lemma KidsSeparate<V>(n: InnerObj<V>, t: Shape<V>)
    requires t.Inner? && t.id.node == InnerNode(n) && Sep(t)
    ensures Objs(n) <= Foot(t) && Objs(n) !! Foot(t.term) && forall c | c in t.kids :: Objs(n) !! Foot(t.kids[c])
  {
  }

  lemma HeldParts<V>(t: Shape<V>)
    requires Held(t) && t.Inner?
    ensures t.id.node.InnerNode? && (forall o | o in Foot(t) :: !(o is Buffer))
    ensures Sep(t) && NodeAgrees(t) && Held(t.term) && forall b | b in t.kids :: Held(t.kids[b])
  {
  }

  lemma HeldIsBufferFree<V>(t: Shape<V>)
    requires Held(t)
    ensures forall o | o in Foot(t) :: !(o is Buffer)
  {
  }

  lemma NodeIsNoBuffer<V>(n: InnerObj<V>, t: Shape<V>)
    ensures n in Objs(n) && Parts(n.layout) <= Objs(n) && Objs(n) !! Bufs(t)
  {
  }

  method SetTerminal<V>(n: InnerObj<V>, terminal: Node<V>, ghost t: Shape<V>, ghost term: Shape<V>)
    requires Held(t) && t.Inner? && t.id.node == InnerNode(n)
    requires Held(term) && Root(term) == terminal && Foot(term) !! Foot(t)
    modifies n`terminal
    ensures Held(Terminated(t, term))
  {
    hide LayoutValid, KidsOf, Parts, Agree, Sep, Held;
    HeldParts(t);
    HeldIsBufferFree(term);
    KidsSeparate(n, t);
    NodeIsNoBuffer(n, term);
    assert n !in Foot(term);
    n.terminal := terminal;
    assert Held(term);
    forall c | c in t.kids ensures Held(t.kids[c]) { NodeIsNoBuffer(n, t.kids[c]); }
    SepTerminated(t, term);
    NoBuffers(n, t, term, Terminated(t, term));
    HeldFromParts(Terminated(t, term));
  }

  method AddKid<V>(n: InnerObj<V>, b: byte, child: Node<V>, ghost t: Shape<V>, ghost kid: Shape<V>)
    returns (r: InnerObj<V>, ghost t': Shape<V>)
    requires Held(t) && t.Inner? && t.id.node == InnerNode(n) && b !in t.kids
    requires Held(kid) && Graftable(t, b, kid) && Root(kid) == child && child != NilNode
    modifies Parts(n.layout)
    ensures t' == Extended(t, b, kid, r) && Held(t')
    ensures r == n || fresh(Objs(r))
    ensures |t.kids| < Capacity(t.kind) ==> r == n
    ensures t.kind == KindFor(|t.kids|) ==> t'.kind == KindFor(|t.kids| + 1)
  {
    hide LayoutValid, KidsOf, Parts, NodeAgrees, Agree, Sep, Held;
    HeldParts(t);
    HeldIsBufferFree(kid);
    KidsSeparate(n, t);
    r := ExtendNode(n, b, child, t, kid);
    t' := Extended(t, b, kid, r);
    assert Held(kid);
    assert Held(t.term);
    forall c | c in t.kids && c != b ensures Held(t.kids[c]) {}
    SepExtended(n, t, b, kid, r);
    NoBuffers(r, t, kid, t');
    HeldFromParts(t');
  }

  // ---------- Changes inside one child ----------

  /** What a change confined to child `b` cannot touch */
  lemma KidIsApart<V>(n: InnerObj<V>, t: Shape<V>, b: byte)
    requires Held(t) && t.Inner? && t.id.node == InnerNode(n) && b in t.kids
    ensures Held(t.kids[b]) && Foot(t.kids[b]) <= Foot(t) && Bufs(t.kids[b]) <= Bufs(t)
    ensures Foot(t.kids[b]) !! Objs(n) && Foot(t.kids[b]) !! Foot(t.term)
    ensures forall c | c in t.kids && c != b :: Foot(t.kids[b]) !! Foot(t.kids[c])
    ensures Foot(t.kids[b]) !! Bufs(t) && Foot(t.kids[b]) !! Bufs(t.term) && Foot(t.kids[b]) !! t.id.slice.Bufs()
    ensures forall c | c in t.kids :: Foot(t.kids[b]) !! Bufs(t.kids[c])
  {
  }

  lemma NodeAgreesWithSameRoot<V>(n: InnerObj<V>, t: Shape<V>, b: byte, kid: Shape<V>, t': Shape<V>)
    requires t.Inner? && t.id.node == InnerNode(n) && b in t.kids && NodeAgrees(t)
    requires kid != Nil && Root(kid) == Root(t.kids[b]) && t' == Grafted(t, b, kid)
    ensures NodeAgrees(t')
  {
    hide LayoutValid, KidsOf;
  }

  /** A child that kept its root may simply have changed below it. */
  lemma KidChangedBelow<V>(n: InnerObj<V>, t: Shape<V>, b: byte, kid: Shape<V>)
    requires t.Inner? && t.id.node == InnerNode(n) && b in t.kids && Sep(t) && NodeAgrees(t)
    requires forall o | o in Foot(t) :: !(o is Buffer)
    requires Held(t.term) && forall c | c in t.kids && c != b :: Held(t.kids[c])
    requires Held(kid) && Root(kid) == Root(t.kids[b]) && Graftable(t, b, kid)
    ensures Held(Grafted(t, b, kid))
  {
    hide Held, Sep, NodeAgrees;
    SepGrafted(t, b, kid);
    HeldIsBufferFree(kid);
    NodeAgreesWithSameRoot(n, t, b, kid, Grafted(t, b, kid));
    NoBuffers(n, t, kid, Grafted(t, b, kid));
    HeldFromParts(Grafted(t, b, kid));
  }

  method OverwriteLeaf<V>(l: LeafObj<V>, value: V, ghost t: Shape<V>)
    requires Held(t) && t.Leaf? && t.id.node == LeafNode(l)
    modifies l`value
    ensures Held(t.(value := value))
  {
    assert Foot(t.(value := value)) == Foot(t);
    l.value := value;
  }

  method OverwriteTerminal<V>(n: InnerObj<V>, l: LeafObj<V>, value: V, ghost t: Shape<V>)
    requires Held(t) && t.Inner? && t.id.node == InnerNode(n)
    requires t.term.Leaf? && t.term.id.node == LeafNode(l)
    modifies l`value
    ensures Held(t.(term := t.term.(value := value)))
  {
    hide LayoutValid, KidsOf, Agree;
    l.value := value;
  }

  // ---------- The prefix ----------

  ghost function Prefixed<V>(t: Shape<V>, slice: Slice, prefix: Key): Shape<V>
    requires t.Inner?
  {
    t.(prefix := prefix, id := t.id.(slice := slice, bufs := Bufs(t) + slice.Bufs()))
  }

  lemma SepPrefixed<V>(t: Shape<V>, slice: Slice, prefix: Key)
    requires t.Inner? && t.id.node.InnerNode? && Sep(t)
    ensures Sep(Prefixed(t, slice, prefix))
  {
    hide Objs;
  }

  /** Only the slice header of the node changes; no buffer is written. */
  method SetPrefix<V>(n: InnerObj<V>, slice: Slice, ghost t: Shape<V>, ghost prefix: Key)
    requires Held(t) && t.Inner? && t.id.node == InnerNode(n)
    requires slice.InBounds() && slice.Bytes() == prefix
    modifies n`prefix
    ensures Held(Prefixed(t, slice, prefix)) && n.prefix == slice
  {
    hide LayoutValid, KidsOf, Parts, Agree, Sep, Held;
    ghost var t' := Prefixed(t, slice, prefix);
    HeldParts(t);
    KidsSeparate(n, t);
    SepPrefixed(t, slice, prefix);
    NodeIsNoBuffer(n, t.term);
    n.prefix := slice;
    assert Held(t.term);
    forall c | c in t.kids ensures Held(t.kids[c]) { NodeIsNoBuffer(n, t.kids[c]); }
    assert Foot(t') == Foot(t);
    HeldFromParts(t');
  }

  // ---------- Removing a child, and moving to a smaller table ----------

  lemma SepWithoutKid<V>(t: Shape<V>, b: byte)
    requires t.Inner? && t.id.node.InnerNode? && Sep(t)
    ensures Sep(WithoutKid(t, b))
  {
    hide Objs;
  }

  method UnsetKid<V>(n: InnerObj<V>, b: byte, ghost t: Shape<V>)
    requires t.Inner? && t.id.node == InnerNode(n) && NodeAgrees(t)
    modifies Parts(n.layout)
    ensures NodeAgrees(WithoutKid(t, b))
  {
    hide LayoutValid, KidsOf, Parts, Agree;
    AgreeRemoved(KidsOf(n.layout), t.kids, b);
    Nodes.RemoveChild(n.layout, b);
  }

  method RemoveKid<V>(n: InnerObj<V>, b: byte, ghost t: Shape<V>)
    requires Context(n, t, b) && NodeAgrees(t)
    modifies Parts(n.layout)
    ensures Held(WithoutKid(t, b))
  {
    hide LayoutValid, KidsOf, Parts, NodeAgrees, Agree;
    ghost var t' := WithoutKid(t, b);
    SepWithoutKid(t, b);
    UnsetKid(n, b, t);
    assert Held(t.term);
    forall c | c in t'.kids ensures Held(t'.kids[c]) {}
    assert Foot(t') == Foot(t);
    HeldFromParts(t');
  }

  /** `t` on a table one size down */
  ghost function Demoted<V>(t: Shape<V>, r: InnerObj<V>): Shape<V>
    requires t.Inner?
  {
    Inner(Ref(InnerNode(r), t.id.slice, Foot(t) + Objs(r), Bufs(t)), KindOf(r.layout), t.prefix, t.term, t.kids)
  }

  method DemoteNode<V>(n: InnerObj<V>, ghost t: Shape<V>) returns (r: InnerObj<V>)
    requires t.Inner? && t.id.node == InnerNode(n) && NodeAgrees(t) && Objs(n) <= Foot(t)
    requires t.kind == KindFor(|t.kids|) || t.kind == KindFor(|t.kids| + 1)
    ensures NodeAgrees(Demoted(t, r)) && KindOf(r.layout) == KindFor(|t.kids|)
    ensures r == n || fresh(Objs(r))
    ensures t.kind == KindFor(|t.kids|) ==> r == n
  {
    hide LayoutValid, KidsOf, Agree;
    AgreeCount(KidsOf(n.layout), t.kids);
    var layout := ShrinkTable(n.layout);
    if layout == n.layout {
      r := n;
    } else {
      r := new InnerObj(n.prefix, n.terminal, layout);
    }
  }

  lemma SepDemoted<V>(n: InnerObj<V>, t: Shape<V>, r: InnerObj<V>)
    requires t.Inner? && t.id.node == InnerNode(n) && Sep(t)
    requires r == n || Objs(r) !! Foot(t)
    ensures Sep(Demoted(t, r))
  {
    hide Objs;
  }

  lemma DemotedSame<V>(n: InnerObj<V>, t: Shape<V>)
    requires Held(t) && t.Inner? && t.id.node == InnerNode(n)
    ensures Demoted(t, n) == t
  {
    assert Foot(t) + Objs(n) == Foot(t);
  }

  method Demote<V>(n: InnerObj<V>, ghost t: Shape<V>) returns (r: InnerObj<V>, ghost t': Shape<V>)
    requires Held(t) && t.Inner? && t.id.node == InnerNode(n)
    requires t.kind == KindFor(|t.kids|) || t.kind == KindFor(|t.kids| + 1)
    ensures t' == Demoted(t, r) && Held(t') && t'.kind == KindFor(|t.kids|)
    ensures r == n || fresh(Objs(r))
    ensures t.kind == KindFor(|t.kids|) ==> r == n && t' == t
  {
    hide LayoutValid, KidsOf, Parts, NodeAgrees, Agree, Sep, Held;
    HeldParts(t);
    NodeIsNoBuffer(n, t);
    NodeIsNoBuffer(n, t.term);
    DemotedSame(n, t);
    r := DemoteNode(n, t);
    t' := Demoted(t, r);
    SepDemoted(n, t, r);
    NodeIsNoBuffer(r, t');
    assert Held(t.term);
    forall c | c in t.kids ensures Held(t.kids[c]) { NodeIsNoBuffer(n, t.kids[c]); }
    HeldFromParts(t');
  }

  lemma GraftedSame<V>(t: Shape<V>, b: byte)
    requires t.Inner? && b in t.kids && Foot(t.kids[b]) <= Foot(t) && Bufs(t.kids[b]) <= Bufs(t)
    ensures Grafted(t, b, t.kids[b]) == t
  {
    assert t.kids[b := t.kids[b]] == t.kids;
    assert Foot(t) + Foot(t.kids[b]) == Foot(t) && Bufs(t) + Bufs(t.kids[b]) == Bufs(t);
  }
}
