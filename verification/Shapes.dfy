/**
 * The abstract trie that describes a heap structure: each of its nodes is annotated with the heap
 * node (and prefix slice) that implements it.
 */
module Shapes {
  import opened Bytes
  import opened Tries
  import opened Layouts

  /**
   * Where a trie node lives: its heap node, its prefix slice, every mutable object of its subtree,
   * and every prefix buffer its subtree points into.
   */
  datatype Ref<V> = Ref(node: Node<V>, slice: Slice, foot: set<object>, bufs: set<Buffer>)

  type Shape<V> = Trie<Ref<V>, V>

  // ---------- Child tables, by layout ----------

  function KindOf<V>(l: Layout<V>): Kind {
    match l
    case Layout4(_) => K4
    case Layout16(_) => K16
    case Layout48(_) => K48
    case Layout256(_) => K256
  }

  /** The table object of a layout and its arrays */
  ghost function Parts<V>(l: Layout<V>): (parts: set<object>)
    ensures forall o | o in parts :: !(o is Buffer) && !(o is LeafObj<V>) && !(o is InnerObj<V>)
  {
    match l
    case Layout4(s) => {s, s.keys, s.children}
    case Layout16(s) => {s, s.keys, s.children}
    case Layout48(s) => {s, s.childIndex, s.children, s.childEdge}
    case Layout256(s) => {s, s.children}
  }

  ghost predicate LayoutValid<V>(l: Layout<V>)
    reads Parts(l)
  {
    match l
    case Layout4(s) => s.Valid() && s.keys.Length == 4
    case Layout16(s) => s.Valid() && s.keys.Length == 16
    case Layout48(s) => s.Valid()
    case Layout256(s) => s.Valid()
  }

  ghost function KidsOf<V>(l: Layout<V>): map<byte, Node<V>>
    requires LayoutValid(l)
    reads Parts(l)
  {
    match l
    case Layout4(s) => s.Kids()
    case Layout16(s) => s.Kids()
    case Layout48(s) => s.kids
    case Layout256(s) => s.kids
  }

  /** An inner node together with its table */
  ghost function Objs<V>(n: InnerObj<V>): (objs: set<object>)
    ensures forall o | o in objs :: !(o is Buffer)
  {
    {n} + Parts(n.layout)
  }

  // ---------- Ownership ----------

  ghost function LeafShape<V>(l: LeafObj<V>, value: V): Shape<V> {
    Leaf(Ref(LeafNode(l), NoBytes, {l}, {}), l.key, value)
  }

  function Root<V>(t: Shape<V>): Node<V> {
    if t.Nil? then NilNode else t.id.node
  }

  /** The mutable objects of a structure; prefix buffers are not among them. */
  ghost function Foot<V>(t: Shape<V>): set<object> {
    if t.Nil? then {} else t.id.foot
  }

  /** The prefix buffers a structure points into; two structures may share them. */
  ghost function Bufs<V>(t: Shape<V>): set<Buffer> {
    if t.Nil? then {} else t.id.bufs
  }

  ghost predicate Agree<V>(nodes: map<byte, Node<V>>, kids: map<byte, Shape<V>>) {
    && nodes.Keys == kids.Keys
    && (forall b | b in kids :: kids[b] != Nil && nodes[b] == Root(kids[b]))
  }

  lemma AgreeUpdated<V>(nodes: map<byte, Node<V>>, kids: map<byte, Shape<V>>, b: byte, kid: Shape<V>)
    requires Agree(nodes, kids) && kid != Nil
    ensures Agree(nodes[b := Root(kid)], kids[b := kid])
    ensures b in nodes <==> b in kids
  {
  }

  lemma AgreeCount<V>(nodes: map<byte, Node<V>>, kids: map<byte, Shape<V>>)
    requires Agree(nodes, kids)
    ensures |nodes| == |kids|
  {
    assert |nodes.Keys| == |kids.Keys|;
  }

  lemma AgreeRemoved<V>(nodes: map<byte, Node<V>>, kids: map<byte, Shape<V>>, b: byte)
    requires Agree(nodes, kids)
    ensures Agree(nodes - {b}, kids - {b})
  {
  }

  /** The fields of one inner node are as the shape says. */
  ghost predicate NodeAgrees<V>(t: Shape<V>)
    requires t.Inner? && t.id.node.InnerNode?
    reads Objs(t.id.node.inner), t.id.slice.Bufs()
  {
    var n := t.id.node.inner;
    && LayoutValid(n.layout) && KindOf(n.layout) == t.kind
    && n.prefix == t.id.slice && t.id.slice.InBounds() && t.id.slice.Bytes() == t.prefix
    && n.terminal == Root(t.term)
    && Agree(KidsOf(n.layout), t.kids)
  }

  /** No object occurs in two places of the structure. */
  ghost predicate Sep<V>(t: Shape<V>)
    requires t.Inner? && t.id.node.InnerNode?
  {
    var own := Objs(t.id.node.inner);
    && own + Foot(t.term) <= Foot(t) && t.id.slice.Bufs() + Bufs(t.term) <= Bufs(t)
    && own !! Foot(t.term)
    && (forall b | b in t.kids ::
          && Foot(t.kids[b]) <= Foot(t) && Bufs(t.kids[b]) <= Bufs(t)
          && own !! Foot(t.kids[b]) && Foot(t.term) !! Foot(t.kids[b]))
    && (forall b, c | b in t.kids && c in t.kids && b != c :: Foot(t.kids[b]) !! Foot(t.kids[c]))
  }

  /** The heap holds exactly the structure `t` describes, on objects of its own. */
  ghost predicate Held<V>(t: Shape<V>)
    reads Foot(t), Bufs(t)
  {
    (forall o | o in Foot(t) :: !(o is Buffer)) &&
    match t
    case Nil => true
    case Leaf(id, key, value) =>
      && id.node.LeafNode? && id.node.leaf in id.foot
      && id.node.leaf.key == key && id.node.leaf.value == value
    case Inner(id, _, _, term, kids) =>
      && id.node.InnerNode?
      && Sep(t)
      && NodeAgrees(t)
      && Held(term)
      && forall b | b in kids :: Held(kids[b])
  }

  /** A structure's own objects are none of the buffers it reads. */
  lemma HeldApart<V>(t: Shape<V>)
    requires Held(t)
    ensures Foot(t) !! Bufs(t)
  {
  }
}
