/** The walks of iterate.go that are confined to a half-open interval, and prune what lies outside it. */
module RangeWalks {
  import opened Bytes
  import opened Tries
  import opened Layouts
  import opened Shapes
  import opened Listings
  import opened Feeds
  import opened Windows
  import opened Walks

  /**
   * The walk's `*path`, the bytes from the root to the current node: a length, and a backing array that is written
   * in place while it has room, and replaced by a larger one when it has not.
   */
  class PathBuffer {
    var data: array<byte>
    var len: nat

    ghost predicate Valid()
      reads this
    {
      len <= data.Length
    }

    function Bytes(): (bytes: Key)
      requires Valid()
      reads this, data
      ensures |bytes| == len
    {
      data[..len]
    }

    /** `make([]byte, 0, capacity)` */
    constructor (capacity: nat)
      ensures Valid() && Bytes() == [] && fresh(data)
    {
      data := new byte[capacity](_ => 0);
      len := 0;
    }

    /** `*path = append((*path)[:n], bs...)`: the first `n` bytes survive, whatever is written behind them. */
    method Append(n: nat, bs: Key)
      requires Valid() && n <= len
      modifies this, data
      ensures Valid() && Bytes() == old(Bytes())[..n] + bs && len == n + |bs|
      ensures data == old(data) || fresh(data)
    {
      var needed := n + |bs|;
      ghost var kept := data[..n];
      if needed > data.Length {
        var larger := new byte[2 * needed](_ => 0);
        forall i | 0 <= i < n { larger[i] := data[i]; }
        data := larger;
        assert data[..n] == kept;
      }
      forall i | n <= i < needed { data[i] := bs[i - n]; }
      len := needed;
      assert data[..n] == kept && data[n..needed] == bs;
      assert data[..needed] == data[..n] + data[n..needed];
    }

    /** `*path = (*path)[:n]` */
    method Truncate(n: nat)
      requires Valid() && n <= len
      modifies this`len
      ensures Valid() && Bytes() == old(Bytes())[..n] && len == n
    {
      len := n;
    }
  }

  /** Nothing that the walk writes belongs to the structure. */
  ghost predicate Free<V>(path: PathBuffer, y: Consumer<Entry<V>>, t: Shape<V>)
    reads path
  {
    y !in Foot(t) && path !in Foot(t) && path.data !in Foot(t)
  }

  lemma PathIsApart<V>(path: PathBuffer, y: Consumer<Entry<V>>, t: Shape<V>)
    ensures {path as object, path.data, y} !! Bufs(t) && (path as object) != y && (path.data as object) != y
  {
  }

  lemma KidsApartFromPath<V>(path: PathBuffer, y: Consumer<Entry<V>>, t: Shape<V>)
    requires t.Inner? && Free(path, y, t) && forall b | b in t.kids :: Foot(t.kids[b]) <= Foot(t)
    ensures forall b | b in t.kids :: Free(path, y, t.kids[b])
    ensures forall b | b in t.kids :: {path as object, path.data, y} !! Foot(t.kids[b])
    ensures forall b | b in t.kids :: {path as object, path.data, y} !! Bufs(t.kids[b])
  {
  }

  // ---------- Windows of a node's entries ----------

  /** Some key at or below `path` is at or after `end`: nothing later in the walk is before `end`. */
  ghost predicate PastEnd(path: Key, end: Option<Key>) {
    end.Some? && exists w :: path <= w && !Less(w, end.value)
  }

  lemma WindowNode<V>(t: Shape<V>, path: Key, start: Option<Key>, end: Option<Key>)
    requires t.Inner? && Canonical(t, path)
    ensures Window(Flat(t), start, end) ==
            Window(TermEntries(t.term), start, end) + Window(FlatOver(t, Sorted(t.kids.Keys)), start, end)
  {
    WindowConcat(TermEntries(t.term), FlatOver(t, Sorted(t.kids.Keys)), start, end);
  }

  lemma WindowTerm<V>(t: Shape<V>, path: Key, start: Option<Key>, end: Option<Key>)
    requires t.Inner? && Canonical(t, path)
    ensures Window(TermEntries(t.term), start, end) ==
            if InWindow(path + t.prefix, start, end) then TermEntries(t.term) else []
  {
    if t.term.Leaf? { WindowOne((t.term.key, t.term.value), start, end); }
  }

  lemma WindowOver<V>(t: Shape<V>, bs: seq<byte>, i: nat, start: Option<Key>, end: Option<Key>)
    requires t.Inner? && i < |bs| && bs[i] in t.kids
    ensures Window(FlatOver(t, bs[i..]), start, end) ==
            Window(Flat(t.kids[bs[i]]), start, end) + Window(FlatOver(t, bs[i + 1..]), start, end)
  {
    assert bs[i..][1..] == bs[i + 1..];
    WindowConcat(Flat(t.kids[bs[i]]), FlatOver(t, bs[i + 1..]), start, end);
  }

  lemma WindowOverLast<V>(t: Shape<V>, bs: seq<byte>, k: nat, start: Option<Key>, end: Option<Key>)
    requires t.Inner? && 0 < k <= |bs| && bs[k - 1] in t.kids
    ensures Window(FlatOver(t, bs[..k]), start, end) ==
            Window(FlatOver(t, bs[..k - 1]), start, end) + Window(Flat(t.kids[bs[k - 1]]), start, end)
  {
    FlatOverLast(t, bs, k);
    WindowConcat(FlatOver(t, bs[..k - 1]), Flat(t.kids[bs[k - 1]]), start, end);
  }

  // ---------- What pruning may skip ----------

  lemma KidEntry<V>(t: Shape<V>, path: Key, b: byte, x: Entry<V>)
    requires t.Inner? && Canonical(t, path) && b in t.kids && x in Flat(t.kids[b])
    ensures path + t.prefix + [b] <= x.0
  {
    FlatMembers(t.kids[b], path + t.prefix + [b]);
    EntriesOfKid(t, path, b);
  }

  /** A subtree before `start` has nothing in the window. */
  lemma PrunedBefore<V>(t: Shape<V>, path: Key, b: byte, start: Option<Key>, end: Option<Key>)
    requires t.Inner? && Canonical(t, path) && b in t.kids && SubtreeBefore(path + t.prefix, b, start)
    ensures Window(Flat(t.kids[b]), start, end) == []
  {
    forall x | x in Flat(t.kids[b]) ensures !InWindow(x.0, start, end) {
      KidEntry(t, path, b, x);
      BelowBound(path + t.prefix, b, start, x.0);
    }
    WindowEmpty(Flat(t.kids[b]), start, end);
  }

  /** A subtree at or after `end` has nothing in the window. */
  lemma PrunedAfter<V>(t: Shape<V>, path: Key, b: byte, start: Option<Key>, end: Option<Key>)
    requires t.Inner? && Canonical(t, path) && b in t.kids && SubtreeAtOrAfter(path + t.prefix, b, end)
    ensures Window(Flat(t.kids[b]), start, end) == [] && PastEnd(path + t.prefix + [b], end)
  {
    var here := path + t.prefix + [b];
    NotBelowBound(path + t.prefix, b, end, here);
    forall x | x in Flat(t.kids[b]) ensures !InWindow(x.0, start, end) {
      KidEntry(t, path, b, x);
      NotBelowBound(path + t.prefix, b, end, x.0);
    }
    WindowEmpty(Flat(t.kids[b]), start, end);
    assert here <= here;
  }

  lemma UnderEdge<V>(t: Shape<V>, path: Key, c: byte, x: Entry<V>)
    requires t.Inner? && Canonical(t, path) && c in t.kids && x in Entries(t.kids[c])
    ensures path + t.prefix + [c] <= x.0
  {
    EntriesOfKid(t, path, c);
  }

  lemma LaterEntry<V>(t: Shape<V>, path: Key, bs: seq<byte>, i: nat, x: Entry<V>) returns (c: byte)
    requires t.Inner? && Canonical(t, path) && Ascending(bs) && i < |bs| && x in FlatOver(t, bs[i + 1..])
    ensures bs[i] < c && path + t.prefix + [c] <= x.0
  {
    FlatOverMembers(t, path, bs[i + 1..], x);
    hide Canonical, Entries, FlatOver, Ascending;
    c :| c in bs[i + 1..] && c in t.kids && x in Entries(t.kids[c]);
    var j :| 0 <= j < |bs[i + 1..]| && bs[i + 1..][j] == c;
    AscendingPair(bs, i, i + 1 + j);
    UnderEdge(t, path, c, x);
  }

  /** Once some key under edge `bs[i]` is past the end, so is everything under the later edges. */
  lemma NothingAfter<V>(t: Shape<V>, path: Key, bs: seq<byte>, i: nat, start: Option<Key>, end: Option<Key>)
    requires t.Inner? && Canonical(t, path) && Ascending(bs) && i < |bs|
    requires PastEnd(path + t.prefix + [bs[i]], end)
    ensures Window(FlatOver(t, bs[i + 1..]), start, end) == [] && PastEnd(path, end)
  {
    var here := path + t.prefix;
    var w :| here + [bs[i]] <= w && !Less(w, end.value);
    assert path <= here <= here + [bs[i]] <= w;
    NextByte(here, w);
    forall x | x in FlatOver(t, bs[i + 1..]) ensures !InWindow(x.0, start, end) {
      var c := LaterEntry(t, path, bs, i, x);
      assert here <= here + [c] <= x.0;
      assert x.0[|here|] == (here + [c])[|here|] && w[|here|] == (here + [bs[i]])[|here|];
      LessByBranch(here, w, x.0);
      if Less(x.0, end.value) { LessTransitive(w, x.0, end.value); }
    }
    WindowEmpty(FlatOver(t, bs[i + 1..]), start, end);
  }

  /** Below an edge whose whole subtree is before `start`, so is everything under the earlier edges. */
  lemma NothingBefore<V>(t: Shape<V>, path: Key, bs: seq<byte>, k: nat, start: Option<Key>, end: Option<Key>)
    requires t.Inner? && Canonical(t, path) && Ascending(bs) && k < |bs|
    requires SubtreeBefore(path + t.prefix, bs[k], start)
    ensures Window(FlatOver(t, bs[..k]), start, end) == []
  {
    var here := path + t.prefix;
    var least := here + [bs[k]];
    BelowBound(here, bs[k], start, least);
    forall x | x in FlatOver(t, bs[..k]) ensures !InWindow(x.0, start, end) {
      var c := EarlierEntry(t, path, bs, k, x);
      assert here <= here + [c] <= x.0 && here <= least;
      assert x.0[|here|] == (here + [c])[|here|];
      LessByBranch(here, x.0, least);
      LessTransitive(x.0, least, start.value);
    }
    WindowEmpty(FlatOver(t, bs[..k]), start, end);
  }

  lemma EarlierEntry<V>(t: Shape<V>, path: Key, bs: seq<byte>, k: nat, x: Entry<V>) returns (c: byte)
    requires t.Inner? && Canonical(t, path) && Ascending(bs) && k < |bs| && x in FlatOver(t, bs[..k])
    ensures c < bs[k] && path + t.prefix + [c] <= x.0
  {
    FlatOverMembers(t, path, bs[..k], x);
    hide Canonical, Entries, FlatOver, Ascending;
    c :| c in bs[..k] && c in t.kids && x in Entries(t.kids[c]);
    var j :| 0 <= j < k && bs[..k][j] == c;
    AscendingPair(bs, j, k);
    UnderEdge(t, path, c, x);
  }

  // ---------- Forward ----------

  /**
   * A forward walk over `xs` is the plain feed of `xs`, except that a false answer may also mean
   * that the end bound has been reached.
   */
  ghost predicate Ranged<V>(accept: seq<Entry<V>> -> bool, log: seq<Entry<V>>, log': seq<Entry<V>>, more: bool,
                            xs: seq<Entry<V>>, path: Key, end: Option<Key>)
  {
    var fed := Feed(accept, log, xs);
    log' == fed.log && (more ==> fed.more) && (!more ==> !fed.more || PastEnd(path, end))
  }

  /** The first part was offered without a refusal. */
  lemma RangedAfter<V>(accept: seq<Entry<V>> -> bool, log: seq<Entry<V>>, mid: seq<Entry<V>>, log': seq<Entry<V>>,
                       more: bool, first: seq<Entry<V>>, rest: seq<Entry<V>>, path: Key, end: Option<Key>)
    requires Fed(mid, true) == Feed(accept, log, first) && Ranged(accept, mid, log', more, rest, path, end)
    ensures Ranged(accept, log, log', more, first + rest, path, end)
  {
    FeedConcat(accept, log, first, rest);
  }

  lemma RangedRefused<V>(accept: seq<Entry<V>> -> bool, log: seq<Entry<V>>, log': seq<Entry<V>>,
                         first: seq<Entry<V>>, rest: seq<Entry<V>>, path: Key, end: Option<Key>)
    requires Fed(log', false) == Feed(accept, log, first)
    ensures Ranged(accept, log, log', false, first + rest, path, end)
  {
    FeedConcat(accept, log, first, rest);
  }

  method YieldTerminalInRange<V>(terminal: Node<V>, here: Key, start: Option<Key>, end: Option<Key>,
                                 y: Consumer<Entry<V>>,
                                 ghost t: Shape<V>, ghost path: Key)
    returns (more: bool)
    requires t.Inner? && Canonical(t, path) && here == path + t.prefix
    requires terminal.LeafNode? ==> TermEntries(t.term) == [(terminal.leaf.key, terminal.leaf.value)]
    requires !terminal.LeafNode? ==> TermEntries(t.term) == []
    modifies y
    ensures Fed(y.log, more) == Feed(y.accept, old(y.log), Window(TermEntries(t.term), start, end))
  {
    hide Canonical, Feed, TermEntries, Window;
    WindowTerm(t, path, start, end);
    FeedNone(y.accept, y.log);
    if !terminal.LeafNode? || !InWindow(here, start, end) { return true; }
    FeedOne(y.accept, y.log, (terminal.leaf.key, terminal.leaf.value));
    more := y.Yield((terminal.leaf.key, terminal.leaf.value));
  }

  /** Exactly the pairs in the interval are offered, in ascending key order, up to the first refusal. */
  method IterateRange<V>(current: Node<V>, path: PathBuffer, start: Option<Key>, end: Option<Key>,
                         y: Consumer<Entry<V>>,
                         ghost t: Shape<V>)
    returns (more: bool)
    requires Held(t) && Root(t) == current && path.Valid() && Free(path, y, t)
    requires Canonical(t, path.Bytes())
    modifies y, path, path.data
    ensures path.Valid() && path.Bytes() == old(path.Bytes()) && (path.data == old(path.data) || fresh(path.data))
    ensures Ranged(y.accept, old(y.log), y.log, more, Window(Flat(t), start, end), path.Bytes(), end)
    decreases t, 2
  {
    hide Held, Canonical, LeadTo, Feed, Flat, FlatOver, TermEntries, Sorted, Window, PastEnd, PathBuffer.Bytes;
    match current
    case NilNode =>
      WalkNil(t);
      WindowNone<V>(start, end);
      FeedNone(y.accept, y.log);
      return true;
    case LeafNode(l) =>
      WalkLeaf(l, t);
      WindowOne((l.key, l.value), start, end);
      FeedNone(y.accept, y.log);
      FeedOne(y.accept, y.log, (l.key, l.value));
      if InWindow(l.key, start, end) {
        more := y.Yield((l.key, l.value));
      } else {
        more := true;
      }
    case InnerNode(r) =>
      more := RangeInner(r, path, start, end, y, t);
  }

  /** One inner node, with its prefix appended to the path meanwhile */
  method RangeInner<V>(r: InnerObj<V>, path: PathBuffer, start: Option<Key>, end: Option<Key>,
                       y: Consumer<Entry<V>>, ghost t: Shape<V>)
    returns (more: bool)
    requires Held(t) && Root(t) == InnerNode(r) && path.Valid() && Free(path, y, t)
    requires Canonical(t, path.Bytes())
    modifies y, path, path.data
    ensures path.Valid() && path.Bytes() == old(path.Bytes()) && (path.data == old(path.data) || fresh(path.data))
    ensures Ranged(y.accept, old(y.log), y.log, more, Window(Flat(t), start, end), path.Bytes(), end)
    decreases t, 1, 1
  {
    hide Held, Canonical, Feed, Flat, Window, PastEnd, Ranged, PathBuffer.Bytes;
    WalkNode(r, t);
    PathIsApart(path, y, t);
    var before := path.len;
    ghost var from := path.Bytes();
    path.Append(before, r.prefix.Bytes());
    more := RangeNode(r, path, path.len, start, end, y, t, from);
    path.Truncate(before);
  }

  /** The terminal first, then the children */
  method RangeNode<V>(r: InnerObj<V>, path: PathBuffer, nodeLen: nat, start: Option<Key>, end: Option<Key>,
                      y: Consumer<Entry<V>>, ghost t: Shape<V>, ghost from: Key)
    returns (more: bool)
    requires Held(t) && Root(t) == InnerNode(r) && t.Inner? && Canonical(t, from) && path.Valid() && Free(path, y, t)
    requires path.Bytes() == from + t.prefix && nodeLen == path.len
    modifies y, path, path.data
    ensures path.Valid() && path.len >= nodeLen && path.Bytes()[..nodeLen] == from + t.prefix
    ensures path.data == old(path.data) || fresh(path.data)
    ensures Ranged(y.accept, old(y.log), y.log, more, Window(Flat(t), start, end), from, end)
    decreases t, 1, 0
  {
    hide Held, Canonical, LeadTo, Feed, Flat, FlatOver, TermEntries, Sorted, Window, PastEnd, Ranged, PathBuffer.Bytes;
    WalkNode(r, t);
    PathIsApart(path, y, t);
    KidsApartFromPath(path, y, t);
    WindowNode(t, from, start, end);
    ghost var first := Window(TermEntries(t.term), start, end);
    ghost var rest := Window(FlatOver(t, Sorted(t.kids.Keys)), start, end);
    var edges := Ascend(r, t);
    more := YieldTerminalInRange(r.terminal, path.Bytes()[..nodeLen], start, end, y, t, from);
    ghost var mid := y.log;
    if !more {
      RangedRefused(y.accept, old(y.log), mid, first, rest, from, end);
      return;
    }
    SortedIsAscending(t.kids.Keys);
    KidsAreCanonical(t, from);
    more := RangeEdges(edges, path, nodeLen, start, end, y, t, from, Sorted(t.kids.Keys));
    RangedAfter(y.accept, old(y.log), mid, y.log, more, first, rest, from, end);
  }

  lemma WindowNone<V>(start: Option<Key>, end: Option<Key>)
    ensures Window<V>([], start, end) == []
  {
  }

  method RangeEdges<V>(edges: seq<Edge<V>>, path: PathBuffer, nodeLen: nat, start: Option<Key>, end: Option<Key>,
                       y: Consumer<Entry<V>>, ghost t: Shape<V>, ghost from: Key, ghost bs: seq<byte>)
    returns (more: bool)
    requires LeadTo(edges, t, bs) && Ascending(bs) && path.Valid() && Free(path, y, t)
    requires forall b | b in t.kids :: Held(t.kids[b]) && Foot(t.kids[b]) <= Foot(t)
    requires forall b | b in t.kids :: Canonical(t.kids[b], from + t.prefix + [b])
    requires Canonical(t, from) && path.Bytes() == from + t.prefix && nodeLen == path.len
    modifies y, path, path.data
    ensures path.Valid() && path.len >= nodeLen && path.Bytes()[..nodeLen] == from + t.prefix
    ensures path.data == old(path.data) || fresh(path.data)
    ensures Ranged(y.accept, old(y.log), y.log, more, Window(FlatOver(t, bs), start, end), from, end)
    decreases t, 0, 1
  {
    hide Held, Canonical, Feed, Flat, FlatOver, Window, PastEnd, PathBuffer.Bytes;
    assert bs[0..] == bs;
    var i := 0;
    while i < |edges|
      invariant 0 <= i <= |edges|
      invariant forall b | b in t.kids :: Held(t.kids[b])
      invariant path.Valid() && path.len >= nodeLen && path.Bytes()[..nodeLen] == from + t.prefix
      invariant Free(path, y, t) && (path.data == old(path.data) || fresh(path.data))
      invariant Feed(y.accept, old(y.log), Window(FlatOver(t, bs), start, end)) ==
                Feed(y.accept, y.log, Window(FlatOver(t, bs[i..]), start, end))
    {
      var b, child := edges[i].byte, edges[i].child;
      WindowOver(t, bs, i, start, end);
      if SubtreeBefore(path.Bytes()[..nodeLen], b, start) {
        PrunedBefore(t, from, b, start, end);
        assert Window(FlatOver(t, bs[i..]), start, end) == Window(FlatOver(t, bs[i + 1..]), start, end);
      } else if SubtreeAtOrAfter(path.Bytes()[..nodeLen], b, end) {
        PrunedAfter(t, from, b, start, end);
        NothingAfter(t, from, bs, i, start, end);
        FeedNone(y.accept, y.log);
        return false;
      } else {
        more := RangeKid(b, child, path, nodeLen, start, end, y, t, from, bs, i);
        if !more { return; }
      }
      i := i + 1;
    }
    WindowOverNone(t, bs[i..], start, end);
    FeedNone(y.accept, y.log);
    return true;
  }

  /** The walk of one child: what it writes to the path lies behind the node's own bytes. */
  method RangeKid<V>(b: byte, child: Node<V>, path: PathBuffer, nodeLen: nat, start: Option<Key>, end: Option<Key>,
                     y: Consumer<Entry<V>>, ghost t: Shape<V>, ghost from: Key, ghost bs: seq<byte>, ghost i: nat)
    returns (more: bool)
    requires t.Inner? && i < |bs| && b == bs[i] && b in t.kids && child == Root(t.kids[bs[i]]) && Ascending(bs)
    requires forall b | b in t.kids :: Held(t.kids[b]) && Foot(t.kids[b]) <= Foot(t)
    requires Canonical(t, from) && Canonical(t.kids[bs[i]], from + t.prefix + [bs[i]])
    requires path.Valid() && Free(path, y, t) && nodeLen <= path.len && path.Bytes()[..nodeLen] == from + t.prefix
    modifies y, path, path.data
    ensures path.Valid() && nodeLen <= path.len && path.Bytes()[..nodeLen] == from + t.prefix
    ensures path.data == old(path.data) || fresh(path.data)
    ensures forall b | b in t.kids :: Held(t.kids[b])
    ensures more ==> Feed(y.accept, old(y.log), Window(FlatOver(t, bs[i..]), start, end)) ==
                     Feed(y.accept, y.log, Window(FlatOver(t, bs[i + 1..]), start, end))
    ensures !more ==> Ranged(y.accept, old(y.log), y.log, false, Window(FlatOver(t, bs[i..]), start, end), from, end)
    decreases t, 0, 0
  {
    hide Held, Canonical, Feed, Flat, FlatOver, Window, PastEnd, Ascending, PathBuffer.Bytes;
    ghost var kid := t.kids[bs[i]];
    KidsApartFromPath(path, y, t);
    WindowOver(t, bs, i, start, end);
    FeedConcat(y.accept, y.log, Window(Flat(kid), start, end), Window(FlatOver(t, bs[i + 1..]), start, end));
    path.Append(nodeLen, [b]);
    more := IterateRange(child, path, start, end, y, kid);
    if !more && PastEnd(path.Bytes(), end) {
      NothingAfter(t, from, bs, i, start, end);
      FeedNone(y.accept, y.log);
    }
  }

  lemma WindowOverNone<V>(t: Shape<V>, bs: seq<byte>, start: Option<Key>, end: Option<Key>)
    requires t.Inner? && bs == []
    ensures Window(FlatOver(t, bs), start, end) == []
  {
  }

  // ---------- Backward ----------

  lemma FeedWindowBack<V>(accept: seq<Entry<V>> -> bool, log: seq<Entry<V>>, first: seq<Entry<V>>, last: seq<Entry<V>>)
    ensures Feed(accept, log, Reverse(first + last)) ==
            var fed := Feed(accept, log, Reverse(last));
            if fed.more then Feed(accept, fed.log, Reverse(first)) else fed
  {
    ReverseConcat(first, last);
    FeedConcat(accept, log, Reverse(last), Reverse(first));
  }

  lemma ReverseWindowTerm<V>(t: Shape<V>, start: Option<Key>, end: Option<Key>)
    requires t.Inner?
    ensures Reverse(Window(TermEntries(t.term), start, end)) == Window(TermEntries(t.term), start, end)
  {
    if t.term.Leaf? {
      WindowOne((t.term.key, t.term.value), start, end);
      ReverseOne((t.term.key, t.term.value));
    }
  }

  /** Exactly the pairs in the interval are offered, in descending key order, up to the first refusal. */
  method IterateRangeDescending<V>(current: Node<V>, path: PathBuffer, start: Option<Key>, end: Option<Key>,
                                   y: Consumer<Entry<V>>, ghost t: Shape<V>)
    returns (more: bool)
    requires Held(t) && Root(t) == current && path.Valid() && Free(path, y, t)
    requires Canonical(t, path.Bytes())
    modifies y, path, path.data
    ensures path.Valid() && path.Bytes() == old(path.Bytes()) && (path.data == old(path.data) || fresh(path.data))
    ensures Fed(y.log, more) == Feed(y.accept, old(y.log), Reverse(Window(Flat(t), start, end)))
    decreases t, 2
  {
    hide Held, Canonical, LeadTo, Feed, Flat, FlatOver, TermEntries, Sorted, Window, PathBuffer.Bytes;
    match current
    case NilNode =>
      WalkNil(t);
      WindowNone<V>(start, end);
      FeedNone(y.accept, y.log);
      return true;
    case LeafNode(l) =>
      WalkLeaf(l, t);
      WindowOne((l.key, l.value), start, end);
      ReverseOne((l.key, l.value));
      FeedNone(y.accept, y.log);
      FeedOne(y.accept, y.log, (l.key, l.value));
      if InWindow(l.key, start, end) {
        more := y.Yield((l.key, l.value));
      } else {
        more := true;
      }
    case InnerNode(r) =>
      more := RangeInnerDescending(r, path, start, end, y, t);
  }

  method RangeInnerDescending<V>(r: InnerObj<V>, path: PathBuffer, start: Option<Key>, end: Option<Key>,
                                 y: Consumer<Entry<V>>, ghost t: Shape<V>)
    returns (more: bool)
    requires Held(t) && Root(t) == InnerNode(r) && path.Valid() && Free(path, y, t)
    requires Canonical(t, path.Bytes())
    modifies y, path, path.data
    ensures path.Valid() && path.Bytes() == old(path.Bytes()) && (path.data == old(path.data) || fresh(path.data))
    ensures Fed(y.log, more) == Feed(y.accept, old(y.log), Reverse(Window(Flat(t), start, end)))
    decreases t, 1, 1
  {
    hide Held, Canonical, Feed, Flat, Window, Reverse, PathBuffer.Bytes;
    WalkNode(r, t);
    PathIsApart(path, y, t);
    var before := path.len;
    ghost var from := path.Bytes();
    path.Append(before, r.prefix.Bytes());
    more := RangeNodeDescending(r, path, path.len, start, end, y, t, from);
    path.Truncate(before);
  }

  /** The children first, then the terminal, unless one was refused; stopping early is no refusal. */
  method RangeNodeDescending<V>(r: InnerObj<V>, path: PathBuffer, nodeLen: nat, start: Option<Key>, end: Option<Key>,
                                y: Consumer<Entry<V>>, ghost t: Shape<V>, ghost from: Key)
    returns (more: bool)
    requires Held(t) && Root(t) == InnerNode(r) && t.Inner? && Canonical(t, from) && path.Valid() && Free(path, y, t)
    requires path.Bytes() == from + t.prefix && nodeLen == path.len
    modifies y, path, path.data
    ensures path.Valid() && path.len >= nodeLen && path.Bytes()[..nodeLen] == from + t.prefix
    ensures path.data == old(path.data) || fresh(path.data)
    ensures Fed(y.log, more) == Feed(y.accept, old(y.log), Reverse(Window(Flat(t), start, end)))
    decreases t, 1, 0
  {
    hide Held, Canonical, LeadTo, Feed, Flat, FlatOver, TermEntries, Sorted, Window, Reverse, PathBuffer.Bytes;
    WalkNode(r, t);
    PathIsApart(path, y, t);
    KidsApartFromPath(path, y, t);
    WindowNode(t, from, start, end);
    FeedWindowBack(y.accept, y.log, Window(TermEntries(t.term), start, end),
                   Window(FlatOver(t, Sorted(t.kids.Keys)), start, end));
    ReverseWindowTerm(t, start, end);
    SortedIsAscending(t.kids.Keys);
    KidsAreCanonical(t, from);
    var edges := Descend(r, t);
    var cont, stoppedEarly := RangeEdgesDescending(edges, path, nodeLen, start, end, y, t, from, Sorted(t.kids.Keys));
    if !cont && !stoppedEarly { return false; }
    more := YieldTerminalInRange(r.terminal, path.Bytes()[..nodeLen], start, end, y, t, from);
  }

  /** A false `cont` means a refusal, unless the walk stopped because all the rest is before `start`. */
  method RangeEdgesDescending<V>(edges: seq<Edge<V>>, path: PathBuffer, nodeLen: nat, start: Option<Key>,
                                 end: Option<Key>, y: Consumer<Entry<V>>, ghost t: Shape<V>, ghost from: Key,
                                 ghost bs: seq<byte>)
    returns (cont: bool, stoppedEarly: bool)
    requires LeadTo(edges, t, Reverse(bs)) && Ascending(bs) && path.Valid() && Free(path, y, t)
    requires forall b | b in t.kids :: Held(t.kids[b]) && Foot(t.kids[b]) <= Foot(t)
    requires forall b | b in t.kids :: Canonical(t.kids[b], from + t.prefix + [b])
    requires Canonical(t, from) && path.Bytes() == from + t.prefix && nodeLen == path.len
    modifies y, path, path.data
    ensures path.Valid() && path.len >= nodeLen && path.Bytes()[..nodeLen] == from + t.prefix
    ensures path.data == old(path.data) || fresh(path.data)
    ensures Fed(y.log, cont || stoppedEarly) == Feed(y.accept, old(y.log), Reverse(Window(FlatOver(t, bs), start, end)))
    decreases t, 0, 1
  {
    hide Held, Canonical, Feed, Flat, FlatOver, Window, Reverse, PathBuffer.Bytes;
    assert bs[..|bs|] == bs;
    stoppedEarly := false;
    var i := 0;
    while i < |edges|
      invariant 0 <= i <= |edges| && !stoppedEarly
      invariant forall b | b in t.kids :: Held(t.kids[b])
      invariant path.Valid() && path.len >= nodeLen && path.Bytes()[..nodeLen] == from + t.prefix
      invariant Free(path, y, t) && (path.data == old(path.data) || fresh(path.data))
      invariant Feed(y.accept, old(y.log), Reverse(Window(FlatOver(t, bs), start, end))) ==
                Feed(y.accept, y.log, Reverse(Window(FlatOver(t, bs[..|bs| - i]), start, end)))
    {
      var b, child := edges[i].byte, edges[i].child;
      ghost var k := |bs| - i;
      ReverseAt(bs, i);
      WindowOverLast(t, bs, k, start, end);
      if SubtreeAtOrAfter(path.Bytes()[..nodeLen], b, end) {
        PrunedAfter(t, from, b, start, end);
        assert Window(FlatOver(t, bs[..k]), start, end) == Window(FlatOver(t, bs[..k - 1]), start, end);
      } else if SubtreeBefore(path.Bytes()[..nodeLen], b, start) {
        PrunedBefore(t, from, b, start, end);
        NothingBefore(t, from, bs, k - 1, start, end);
        FeedNone(y.accept, y.log);
        return false, true;
      } else {
        cont := RangeKidDescending(b, child, path, nodeLen, start, end, y, t, from, bs, k);
        if !cont { return; }
      }
      i := i + 1;
    }
    WindowOverNone(t, bs[..|bs| - i], start, end);
    FeedNone(y.accept, y.log);
    cont := true;
  }

  method RangeKidDescending<V>(b: byte, child: Node<V>, path: PathBuffer, nodeLen: nat, start: Option<Key>,
                               end: Option<Key>,
                               y: Consumer<Entry<V>>, ghost t: Shape<V>, ghost from: Key, ghost bs: seq<byte>,
                               ghost k: nat)
    returns (more: bool)
    requires t.Inner? && 0 < k <= |bs| && b == bs[k - 1] && b in t.kids && child == Root(t.kids[bs[k - 1]])
    requires forall b | b in t.kids :: Held(t.kids[b]) && Foot(t.kids[b]) <= Foot(t)
    requires Canonical(t.kids[bs[k - 1]], from + t.prefix + [bs[k - 1]])
    requires path.Valid() && Free(path, y, t) && nodeLen <= path.len && path.Bytes()[..nodeLen] == from + t.prefix
    modifies y, path, path.data
    ensures path.Valid() && nodeLen <= path.len && path.Bytes()[..nodeLen] == from + t.prefix
    ensures path.data == old(path.data) || fresh(path.data)
    ensures forall b | b in t.kids :: Held(t.kids[b])
    ensures var all := Feed(y.accept, old(y.log), Reverse(Window(FlatOver(t, bs[..k]), start, end)));
            if more then all == Feed(y.accept, y.log, Reverse(Window(FlatOver(t, bs[..k - 1]), start, end)))
            else all == Fed(y.log, false)
    decreases t, 0, 0
  {
    hide Held, Canonical, Feed, Flat, FlatOver, Window, Reverse, PathBuffer.Bytes;
    ghost var kid := t.kids[bs[k - 1]];
    KidsApartFromPath(path, y, t);
    WindowOverLast(t, bs, k, start, end);
    FeedWindowBack(y.accept, y.log, Window(FlatOver(t, bs[..k - 1]), start, end), Window(Flat(kid), start, end));
    path.Append(nodeLen, [b]);
    more := IterateRangeDescending(child, path, start, end, y, kid);
  }
}
