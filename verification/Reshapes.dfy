/** What one Delete may do to the inner nodes: reshape one of them, at the end of the key's path. */
module Reshapes {
  import opened Bytes
  import opened Tries
  import opened Edits
  import opened Layouts
  import opened Shapes
  import opened Grafts

  /** The `== capacity` tests of node16, node48 and node256 */
  predicate Demotes(kind: Kind, n: nat) {
    match kind
    case K4 => false
    case K16 => n == Capacity(K4)
    case K48 => n == Capacity(K16)
    case K256 => n == Capacity(K48)
  }

  /** `m` is the child of `t` under `b`, on the same object, with the prefix of `t` and `b` before its own. */
  ghost predicate Merged<V>(t: Shape<V>, b: byte, m: Shape<V>) {
    && t.Inner? && b in t.kids && t.kids[b].Inner? && m.Inner?
    && m.prefix == t.prefix + [b] + t.kids[b].prefix
    && m.id.node == t.kids[b].id.node && m.kind == t.kids[b].kind
    && m.term == t.kids[b].term && m.kids == t.kids[b].kids
  }

  /** The one edge of a node with one child */
  ghost predicate OnlyEdgeOf<V>(t: Shape<V>, b: byte) {
    t.Inner? && t.kids.Keys == {b}
  }

  /** One `reshape`: collapse, hoist, merge or demote, as the node asks for; else nothing. */
  ghost predicate ReshapesTo<V>(t: Shape<V>, r: Shape<V>) {
    t.Inner? &&
    if |t.kids| == 0 then
      r == t.term
    else if t.kind.K4? && |t.kids| == 1 && t.term.Nil? then
      exists b :: OnlyEdgeOf(t, b) && (if t.kids[b].Leaf? then r == t.kids[b] else Merged(t, b, r))
    else if Demotes(t.kind, |t.kids|) then
      && r.Inner? && r.kind == KindFor(|t.kids|)
      && r.id.slice == t.id.slice && r.prefix == t.prefix && r.term == t.term && r.kids == t.kids
    else
      r == t
  }

  /** `t'` is `t` on the same object, with the same kind, prefix slice and terminal, but for the child under `b`. */
  ghost predicate OnlyKidDiffers<V>(t: Shape<V>, b: byte, t': Shape<V>) {
    && t.Inner? && t'.Inner? && b in t.kids && b in t'.kids
    && t'.id.node == t.id.node && t'.id.slice == t.id.slice
    && t'.kind == t.kind && t'.prefix == t.prefix && t'.term == t.term
    && t'.kids == t.kids[b := t'.kids[b]]
  }

  /**
   * Deleting `key` below `path`: along the key's path every inner node stays as it is but for one child, down to
   * the node that loses its terminal or a leaf child. That node is reshaped once; nothing else is.
   */
  ghost predicate OneReshape<V>(t: Shape<V>, t': Shape<V>, path: Key, key: Key) {
    match t
    case Nil => t' == Nil
    case Leaf(_, k, _) => t' == if k == key then Nil else t
    case Inner(_, _, prefix, term, kids) =>
      var here := path + prefix;
      || t' == t
      || (key == here && term.Leaf? && ReshapesTo(Terminated(t, Nil), t'))
      || (here <= key && |here| < |key| && key[|here|] in kids &&
          var b := key[|here|];
          if kids[b].Leaf? then kids[b].key == key && ReshapesTo(WithoutKid(t, b), t')
          else OnlyKidDiffers(t, b, t') && OneReshape(kids[b], t'.kids[b], here + [b], key))
  }

  lemma ReshapedBelow<V>(t: Shape<V>, b: byte, kid: Shape<V>, t': Shape<V>, path: Key, key: Key)
    requires t.Inner? && b in t.kids && kid != Nil && t' == Grafted(t, b, kid)
    requires Foot(t.kids[b]) <= Foot(t) && Bufs(t.kids[b]) <= Bufs(t)
    requires path + t.prefix + [b] <= key && OneReshape(t.kids[b], kid, path + t.prefix + [b], key)
    ensures OneReshape(t, t', path, key)
  {
    var here := path + t.prefix;
    assert key[|here|] == (here + [b])[|here|] == b;
    if t.kids[b].Leaf? { GraftedSame(t, b); }
  }

  lemma ReshapedHere<V>(t: Shape<V>, b: byte, t': Shape<V>, path: Key, key: Key)
    requires t.Inner? && b in t.kids && t.kids[b].Leaf? && t.kids[b].key == key
    requires path + t.prefix + [b] <= key && ReshapesTo(WithoutKid(t, b), t')
    ensures OneReshape(t, t', path, key)
  {
    var here := path + t.prefix;
    assert key[|here|] == (here + [b])[|here|] == b;
  }

  // ---------- How many inner nodes that touches ----------

  /** What an inner node shows of itself: its object, its kind, its prefix slice */
  datatype Header<V> = Header(node: Node<V>, kind: Kind, slice: Slice)

  ghost function HeaderOf<V>(t: Shape<V>): Header<V>
    requires t.Inner?
  {
    Header(t.id.node, t.kind, t.id.slice)
  }

  ghost function Headers<V>(t: Shape<V>): set<Header<V>> {
    if t.Inner? then {HeaderOf(t)} + set b, h | b in t.kids && h in Headers(t.kids[b]) :: h else {}
  }

  lemma HeadersOfKid<V>(t: Shape<V>, b: byte)
    requires t.Inner? && b in t.kids
    ensures Headers(t.kids[b]) <= Headers(t) && HeaderOf(t) in Headers(t)
  {
  }

  lemma HeadersOfSame<V>(t: Shape<V>, r: Shape<V>)
    requires t.Inner? && r.Inner? && r.kids == t.kids
    ensures Headers(r) <= Headers(t) + {HeaderOf(r)}
  {
  }

  lemma HeadersOfLone<V>(t: Shape<V>, b: byte)
    requires OnlyEdgeOf(t, b)
    ensures Headers(t) == {HeaderOf(t)} + Headers(t.kids[b])
  {
    assert b in t.kids.Keys;
    HeadersOfKid(t, b);
    forall h | h in Headers(t) ensures h in {HeaderOf(t)} + Headers(t.kids[b]) {
      if h != HeaderOf(t) {
        var c :| c in t.kids && h in Headers(t.kids[c]);
        assert c in t.kids.Keys;
      }
    }
  }

  lemma HoistTouches<V>(t: Shape<V>, r: Shape<V>, b: byte) returns (made: set<Header<V>>, gone: set<Header<V>>)
    requires OnlyEdgeOf(t, b) && if t.kids[b].Leaf? then r == t.kids[b] else Merged(t, b, r)
    ensures |made| <= 1 && |gone| <= 2
    ensures Headers(r) <= Headers(t) + made && Headers(t) <= Headers(r) + gone
  {
    assert b in t.kids.Keys;
    HeadersOfLone(t, b);
    made, gone := {}, {HeaderOf(t)};
    if t.kids[b].Inner? {
      HeadersOfSame(t.kids[b], r);
      HeadersOfSame(r, t.kids[b]);
      made, gone := {HeaderOf(r)}, {HeaderOf(t), HeaderOf(t.kids[b])};
    }
    hide Headers;
  }

  /** One reshape makes at most one header, and unmakes at most two: a merge drops the parent's and the child's. */
  lemma ReshapeTouches<V>(t: Shape<V>, r: Shape<V>, path: Key) returns (made: set<Header<V>>, gone: set<Header<V>>)
    requires ReshapesTo(t, r) && TermAt(t.term, path + t.prefix)
    ensures |made| <= 1 && |gone| <= 2
    ensures Headers(r) <= Headers(t) + made && Headers(t) <= Headers(r) + gone
  {
    made, gone := {}, {};
    if |t.kids| == 0 {
      gone := {HeaderOf(t)};
      assert t.kids == map[];
    } else if t.kind.K4? && |t.kids| == 1 && t.term.Nil? {
      var b :| OnlyEdgeOf(t, b) && (if t.kids[b].Leaf? then r == t.kids[b] else Merged(t, b, r));
      made, gone := HoistTouches(t, r, b);
    } else if Demotes(t.kind, |t.kids|) {
      HeadersOfSame(t, r);
      HeadersOfSame(r, t);
      made, gone := {HeaderOf(r)}, {HeaderOf(t)};
    }
  }

  /** Without a leaf child or the terminal, a node has the same inner nodes. */
  lemma SameHeaders<V>(t: Shape<V>, t0: Shape<V>, b: byte)
    requires t.Inner? && t0.Inner? && HeaderOf(t0) == HeaderOf(t)
    requires t0.kids == t.kids || (b in t.kids && t.kids[b].Leaf? && t0.kids == t.kids - {b})
    ensures Headers(t0) == Headers(t)
  {
    forall h | h in Headers(t) ensures h in Headers(t0) {
      if h != HeaderOf(t) {
        var c :| c in t.kids && h in Headers(t.kids[c]);
        assert c in t0.kids && t0.kids[c] == t.kids[c];
      }
    }
    forall h | h in Headers(t0) ensures h in Headers(t) {
      if h != HeaderOf(t) {
        var c :| c in t0.kids && h in Headers(t0.kids[c]);
        assert c in t.kids && t0.kids[c] == t.kids[c];
      }
    }
  }

  /** Deleting a key makes at most one header, and unmakes at most two. */
  lemma {:induction false} DeleteTouches<V>(t: Shape<V>, t': Shape<V>, path: Key, key: Key)
    returns (made: set<Header<V>>, gone: set<Header<V>>)
    requires Canonical(t, path) && OneReshape(t, t', path, key)
    ensures |made| <= 1 && |gone| <= 2
    ensures Headers(t') <= Headers(t) + made && Headers(t) <= Headers(t') + gone
    decreases t
  {
    made, gone := {}, {};
    if t.Inner? && t' != t {
      var here := path + t.prefix;
      if key == here {
        SameHeaders(t, Terminated(t, Nil), 0);
        made, gone := ReshapeTouches(Terminated(t, Nil), t', path);
      } else {
        var b := key[|here|];
        if t.kids[b].Leaf? {
          SameHeaders(t, WithoutKid(t, b), b);
          made, gone := ReshapeTouches(WithoutKid(t, b), t', path);
        } else {
          made, gone := DeleteTouches(t.kids[b], t'.kids[b], here + [b], key);
          KidTouches(t, b, t', made, gone);
        }
      }
    }
  }

  lemma KidTouches<V>(t: Shape<V>, b: byte, t': Shape<V>, made: set<Header<V>>, gone: set<Header<V>>)
    requires OnlyKidDiffers(t, b, t')
    requires Headers(t'.kids[b]) <= Headers(t.kids[b]) + made && Headers(t.kids[b]) <= Headers(t'.kids[b]) + gone
    ensures Headers(t') <= Headers(t) + made && Headers(t) <= Headers(t') + gone
  {
    KidTouchesOneWay(t, b, t', made);
    KidTouchesOneWay(t', b, t, gone);
  }

  lemma KidTouchesOneWay<V>(t: Shape<V>, b: byte, t': Shape<V>, made: set<Header<V>>)
    requires t.Inner? && t'.Inner? && HeaderOf(t') == HeaderOf(t) && b in t.kids && b in t'.kids
    requires t'.kids.Keys == t.kids.Keys && forall c | c in t.kids && c != b :: t'.kids[c] == t.kids[c]
    requires Headers(t'.kids[b]) <= Headers(t.kids[b]) + made
    ensures Headers(t') <= Headers(t) + made
  {
    HeadersOfKid(t, b);
    forall h | h in Headers(t') ensures h in Headers(t) + made {
      if h != HeaderOf(t) {
        var c :| c in t'.kids && h in Headers(t'.kids[c]);
        if c != b { assert h in Headers(t.kids[c]) && c in t.kids; }
      }
    }
  }
}
