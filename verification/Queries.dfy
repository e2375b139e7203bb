/** The read-only descents: get.go, and the least, greatest, ceiling and floor searches of sorted.go. */
module Queries {
  import opened Bytes
  import opened Tries
  import opened Edits
  import opened Layouts
  import opened Shapes
  import opened Nodes
  import opened Extremes
  import opened Walks

  /** The pair a leaf holds */
  ghost function PairOf<V>(l: Option<LeafObj<V>>): Option<Entry<V>>
    reads if l.Some? then {l.value} else {}
  {
    if l.Some? then Some((l.value.key, l.value.value)) else None
  }

  // ---------- What the heap says about one node ----------

  lemma NilHas<V>(t: Shape<V>)
    requires Held(t) && Root(t) == NilNode
    ensures t == Nil && Entries(t) == {}
  {
  }

  lemma LeafHas<V>(t: Shape<V>, l: LeafObj<V>)
    requires Held(t) && Root(t) == LeafNode(l)
    ensures t.Leaf? && Entries(t) == {(l.key, l.value)}
  {
  }

  lemma TermHas<V>(t: Shape<V>, n: InnerObj<V>, path: Key)
    requires Held(t) && Root(t) == InnerNode(n) && Canonical(t, path)
    ensures t.Inner? && (t.term.Leaf? || t.term.Nil?) && (n.terminal.LeafNode? <==> t.term.Leaf?)
    ensures t.term.Leaf? ==> (n.terminal.leaf.key, n.terminal.leaf.value) == (t.term.key, t.term.value)
    ensures t.term.Leaf? ==> t.term.key == path + t.prefix && Entries(t.term) == {(t.term.key, t.term.value)}
  {
  }

  lemma KidsHave<V>(t: Shape<V>, n: InnerObj<V>, path: Key)
    requires Held(t) && Root(t) == InnerNode(n) && Canonical(t, path)
    ensures t.Inner? && t.kids.Keys != {}
    ensures forall b | b in t.kids :: Held(t.kids[b]) && Canonical(t.kids[b], path + t.prefix + [b])
  {
    assert |t.kids| == |t.kids.Keys|;
  }

  lemma InnerHas<V>(t: Shape<V>, n: InnerObj<V>, path: Key)
    requires Held(t) && Root(t) == InnerNode(n) && Canonical(t, path)
    ensures t.Inner? && n.prefix.InBounds() && n.prefix.Bytes() == t.prefix
    ensures n.terminal.LeafNode? <==> t.term.Leaf?
    ensures t.term.Leaf? ==> (n.terminal.leaf.key, n.terminal.leaf.value) == (t.term.key, t.term.value)
    ensures t.term.Leaf? ==> t.term.key == path + t.prefix && Entries(t.term) == {(t.term.key, t.term.value)}
    ensures t.term.Leaf? || t.term.Nil?
    ensures t.kids.Keys != {}
    ensures forall b | b in t.kids :: Held(t.kids[b]) && Canonical(t.kids[b], path + t.prefix + [b])
  {
    TermHas(t, n, path);
    KidsHave(t, n, path);
    hide Canonical, Entries;
  }

  method ChildUnder<V>(n: InnerObj<V>, b: byte, ghost t: Shape<V>) returns (c: Node<V>, ghost kid: Shape<V>)
    requires Held(t) && Root(t) == InnerNode(n) && t.Inner?
    ensures kid == (if b in t.kids then t.kids[b] else Nil) && Held(kid) && Root(kid) == c
    ensures b in t.kids <==> c != NilNode
    ensures Entries(kid) == KidEntries(t, b)
  {
    hide Held;
    KidHas(n, t, b);
    kid := if b in t.kids then t.kids[b] else Nil;
    HeldApart(kid);
    c := FindChild(n.layout, b);
  }

  lemma KidHas<V>(n: InnerObj<V>, t: Shape<V>, b: byte)
    requires Held(t) && Root(t) == InnerNode(n) && t.Inner?
    ensures LayoutValid(n.layout) && KidsOf(n.layout).Keys == t.kids.Keys
    ensures b in t.kids ==> Held(t.kids[b]) && Root(t.kids[b]) == KidsOf(n.layout)[b] != NilNode
    ensures Held<V>(Nil) && Entries<Ref<V>, V>(Nil) == {}
  {
  }

  // ---------- Get ----------

  /** The entries under one key */
  ghost function At<V>(es: set<Entry<V>>, key: Key): set<Entry<V>> {
    set e | e in es && e.0 == key
  }

  lemma OffPrefix<V>(t: Shape<V>, path: Key, key: Key)
    requires t.Inner? && Canonical(t, path) && !(path + t.prefix <= key)
    ensures At(Entries(t), key) == {}
  {
    forall e | e in At(Entries(t), key) ensures false { EntriesUnderKey(t, path, e); }
  }

  lemma AtTerm<V>(t: Shape<V>, path: Key, all: set<Entry<V>>, key: Key)
    requires t.Inner? && Canonical(t, path) && key == path + t.prefix && all == Entries(t)
    ensures At(all, key) == Entries(t.term)
  {
    forall e | e in At(all, key) ensures e in Entries(t.term) { EntriesUnderKey(t, path, e); }
  }

  lemma AtKid<V>(t: Shape<V>, path: Key, b: byte, all: set<Entry<V>>, kid: set<Entry<V>>, key: Key)
    requires t.Inner? && Canonical(t, path) && path + t.prefix + [b] <= key
    requires all == Entries(t) && kid == KidEntries(t, b)
    ensures At(all, key) == At(kid, key)
  {
    forall e: Entry<V> | e.0 == key ensures e in all <==> e in kid { KeyInKid(t, path, b, e); }
  }

  /** The number of inner nodes on the way that `key` takes from `t` on, with `depth` of its bytes consumed */
  ghost function InnerMet<A, V>(t: Trie<A, V>, key: Key, depth: nat): nat
    requires depth <= |key|
    decreases |key| - depth
  {
    if !t.Inner? then 0 else
      var d := ConsumePrefix(t.prefix, key, depth);
      if d.None? || d.value == |key| || key[d.value] !in t.kids then 1
      else 1 + InnerMet(t.kids[key[d.value]], key, d.value + 1)
  }

  /** At most one inner node for each byte that is left, and one more */
  lemma {:induction false} InnerMetBound<A, V>(t: Trie<A, V>, key: Key, depth: nat)
    requires depth <= |key|
    ensures InnerMet(t, key, depth) <= |key| - depth + 1
    decreases |key| - depth
  {
    if t.Inner? {
      var d := ConsumePrefix(t.prefix, key, depth);
      if d.Some? && d.value < |key| && key[d.value] in t.kids {
        InnerMetBound(t.kids[key[d.value]], key, d.value + 1);
      }
    }
  }

  /** One turn of the loop of Get */
  lemma InnerMetTurn<A, V>(t: Trie<A, V>, key: Key, depth: nat, kid: Trie<A, V>)
    requires t.Inner? && depth <= |key|
    ensures var d := ConsumePrefix(t.prefix, key, depth);
            if d.None? || d.value == |key| then InnerMet(t, key, depth) == 1
            else kid == (if key[d.value] in t.kids then t.kids[key[d.value]] else Nil) ==>
                   InnerMet(t, key, depth) == 1 + InnerMet(kid, key, d.value + 1)
  {
  }

  lemma NoneMet<A, V>(t: Trie<A, V>, key: Key, depth: nat)
    requires !t.Inner? && depth <= |key|
    ensures InnerMet(t, key, depth) == 0
  {
  }

  /** The loop of Get, and the number of inner nodes it meets */
  method Lookup<V>(root: Node<V>, key: Key, ghost t: Shape<V>) returns (value: Option<V>, ghost visits: nat)
    requires Held(t) && Root(t) == root && Canonical(t, [])
    ensures value.Some? ==> (key, value.value) in Entries(t)
    ensures value.None? ==> forall e | e in Entries(t) :: e.0 != key
    ensures visits == InnerMet(t, key, 0)
  {
    hide Held, Canonical, Entries, InnerMet, At;
    var current, depth := root, 0;
    ghost var u := t;
    visits := 0;
    while current != NilNode
      invariant depth <= |key| && visits + InnerMet(u, key, depth) == InnerMet(t, key, 0)
      invariant Held(u) && Root(u) == current && Canonical(u, key[..depth])
      invariant At(Entries(u), key) == At(Entries(t), key)
      decreases |key| - depth
    {
      match current
      case LeafNode(l) =>
        LeafHas(u, l);
        NoneMet(u, key, depth);
        AtOne((l.key, l.value), key);
        value := if l.key == key then Some(l.value) else None;
        Answered(value, key, At(Entries(u), key), Entries(t));
        return;
      case InnerNode(n) =>
        ghost var path := key[..depth];
        visits := visits + 1;
        InnerHas(u, n, path);
        var consumed := ConsumePrefix(n.prefix.Bytes(), key, depth);
        InnerMetTurn(u, key, depth, Nil);
        if consumed.None? {
          OffPrefix(u, path, key);
          Answered(None, key, At(Entries(u), key), Entries(t));
          return None, visits;
        }
        var d := consumed.value;
        if d == |key| {
          AtTerm(u, path, Entries(u), key);
          value := if n.terminal.LeafNode? && n.terminal.leaf.key == key then Some(n.terminal.leaf.value) else None;
          if !n.terminal.LeafNode? { NoTerm(u.term); }
          Answered(value, key, Entries(u.term), Entries(t));
          return;
        }
        ghost var kid: Shape<V>;
        current, kid := NextChild(n, key, depth, d, u);
        u := kid;
        depth := d + 1;
    }
    NilHas(u);
    NoneMet(u, key, depth);
    AtNone<V>(key);
    Answered(None, key, At(Entries(u), key), Entries(t));
    value := None;
  }

  /** The child to look in next, and why it settles the question */
  method NextChild<V>(n: InnerObj<V>, key: Key, depth: nat, d: nat, ghost t: Shape<V>)
    returns (c: Node<V>, ghost kid: Shape<V>)
    requires Held(t) && Root(t) == InnerNode(n) && depth <= |key| && Canonical(t, key[..depth]) && t.Inner?
    requires ConsumePrefix(t.prefix, key, depth) == Some(d) && d < |key|
    ensures Held(kid) && Root(kid) == c && Canonical(kid, key[..d + 1])
    ensures At(Entries(kid), key) == At(Entries(t), key)
    ensures InnerMet(t, key, depth) == 1 + InnerMet(kid, key, d + 1)
  {
    hide Held, Canonical, Entries, InnerMet, At;
    ghost var path := key[..depth];
    assert key[..d + 1] == path + t.prefix + [key[d]] <= key;
    InnerHas(t, n, path);
    NilIsCanonical<V>(key[..d + 1]);
    c, kid := ChildUnder(n, key[d], t);
    AtKid(t, path, key[d], Entries(t), Entries(kid), key);
    InnerMetTurn(t, key, depth, kid);
  }

  lemma AtOne<V>(e: Entry<V>, key: Key)
    ensures At({e}, key) == if e.0 == key then {e} else {}
  {
  }

  lemma AtNone<V>(key: Key)
    ensures At<V>({}, key) == {}
  {
  }

  lemma NilIsCanonical<V>(path: Key)
    ensures Canonical<Ref<V>, V>(Nil, path)
  {
  }

  lemma NoTerm<V>(term: Shape<V>)
    requires term == Nil
    ensures Entries(term) == {}
  {
  }

  lemma Answered<V>(value: Option<V>, key: Key, at: set<Entry<V>>, all: set<Entry<V>>)
    requires at == At(all, key)
    requires value.Some? ==> (key, value.value) in at
    requires value.None? ==> at == {}
    ensures value.Some? ==> (key, value.value) in all
    ensures value.None? ==> forall e | e in all :: e.0 != key
  {
    forall e | e in all && e.0 == key ensures e in at {}
  }

  // ---------- First and last children ----------

  /** `c` is the child of `t` under `b`, which is the least edge in `among`; or there is no such edge. */
  ghost predicate FirstOf<V>(c: Node<V>, b: byte, among: set<byte>, t: Shape<V>) {
    t.Inner? &&
    if among == {} then c == NilNode
    else b in among && b in t.kids && c == Root(t.kids[b]) != NilNode && forall d | d in among :: b <= d
  }

  ghost predicate LastOf<V>(c: Node<V>, b: byte, among: set<byte>, t: Shape<V>) {
    t.Inner? &&
    if among == {} then c == NilNode
    else b in among && b in t.kids && c == Root(t.kids[b]) != NilNode && forall d | d in among :: d <= b
  }

  lemma KidRoots<V>(t: Shape<V>, n: InnerObj<V>)
    requires Held(t) && Root(t) == InnerNode(n)
    ensures t.Inner? && forall b | b in t.kids :: Root(t.kids[b]) != NilNode
  {
  }

  lemma SortedEnds(bs: seq<byte>, s: set<byte>)
    requires bs == Sorted(s) && bs != []
    ensures bs[0] in s && forall d | d in s :: bs[0] <= d
    ensures bs[|bs| - 1] in s && forall d | d in s :: d <= bs[|bs| - 1]
  {
    SortedIsAscending(s);
    hide Ascending, Sorted;
    assert bs[0] in bs && bs[|bs| - 1] in bs;
    forall d | d in s ensures bs[0] <= d <= bs[|bs| - 1] {
      var j :| 0 <= j < |bs| && bs[j] == d;
      if 0 < j { AscendingPair(bs, 0, j); }
      if j < |bs| - 1 { AscendingPair(bs, j, |bs| - 1); }
    }
  }

  ghost function EdgesAbove(s: set<byte>, b: byte): set<byte> {
    set d | d in s && d > b
  }

  ghost function EdgesBelow(s: set<byte>, b: byte): set<byte> {
    set d | d in s && d < b
  }

  /** The first edge above `b`, seen from below */
  lemma FirstAbove(bs: seq<byte>, s: set<byte>, i: nat, b: byte)
    requires bs == Sorted(s) && i <= |bs| && forall j | 0 <= j < i :: bs[j] <= b
    ensures i == |bs| ==> EdgesAbove(s, b) == {}
    ensures i < |bs| && bs[i] > b ==> bs[i] in EdgesAbove(s, b) && forall d | d in EdgesAbove(s, b) :: bs[i] <= d
  {
    SortedIsAscending(s);
    hide Ascending, Sorted;
    assert i < |bs| ==> bs[i] in bs;
    forall d | d in EdgesAbove(s, b) ensures i < |bs| && bs[i] <= d {
      var j :| 0 <= j < |bs| && bs[j] == d;
      if i < j { AscendingPair(bs, i, j); }
    }
  }

  /** The last edge below `b`, seen from above */
  lemma LastBelow(bs: seq<byte>, s: set<byte>, k: nat, b: byte)
    requires bs == Sorted(s) && k <= |bs| && forall j | k <= j < |bs| :: bs[j] >= b
    ensures k == 0 ==> EdgesBelow(s, b) == {}
    ensures k > 0 && bs[k - 1] < b ==> bs[k - 1] in EdgesBelow(s, b)
    ensures k > 0 && bs[k - 1] < b ==> forall d | d in EdgesBelow(s, b) :: d <= bs[k - 1]
  {
    SortedIsAscending(s);
    hide Ascending, Sorted;
    assert k > 0 ==> bs[k - 1] in bs;
    forall d | d in EdgesBelow(s, b) ensures k > 0 && d <= bs[k - 1] {
      var j :| 0 <= j < |bs| && bs[j] == d;
      if j < k - 1 { AscendingPair(bs, j, k - 1); }
    }
  }

  /** The edge at which a forward walk over the children of `t` stops */
  lemma StoppedAt<V>(edges: seq<Edge<V>>, t: Shape<V>, bs: seq<byte>, stop: byte -> bool, at: nat)
    requires LeadTo(edges, t, bs) && StopsAt(edges, stop, at)
    ensures |bs| == |edges| && at <= |bs| && forall j | 0 <= j < at :: !stop(bs[j])
    ensures at < |bs| ==> bs[at] in t.kids && edges[at].child == Root(t.kids[bs[at]]) && stop(bs[at])
  {
    forall j | 0 <= j < at ensures !stop(bs[j]) { assert edges[j].byte == bs[j]; }
  }

  method FirstChildOf<V>(n: InnerObj<V>, ghost t: Shape<V>) returns (c: Node<V>, ghost b: byte)
    requires Held(t) && Root(t) == InnerNode(n)
    ensures FirstOf(c, b, t.kids.Keys, t)
  {
    hide Held, Sorted, LeadTo, StopsAt, OrderedEdges;
    KidRoots(t, n);
    OrderedEdgesLead(n, t);
    ghost var bs, edges := Sorted(t.kids.Keys), OrderedEdges(KidsOf(n.layout));
    ghost var at;
    c, at := FindAscending(n.layout, _ => true);
    StoppedAt(edges, t, bs, _ => true, at);
    SortedIsAscending(t.kids.Keys);
    if bs != [] { SortedEnds(bs, t.kids.Keys); }
    b := if bs != [] then bs[0] else 0;
  }

  method LastChildOf<V>(n: InnerObj<V>, ghost t: Shape<V>) returns (c: Node<V>, ghost b: byte)
    requires Held(t) && Root(t) == InnerNode(n)
    ensures LastOf(c, b, t.kids.Keys, t)
  {
    hide Held, Sorted, LeadTo, StopsAt, OrderedEdges, Reverse;
    KidRoots(t, n);
    OrderedEdgesLead(n, t);
    ghost var bs, edges := Sorted(t.kids.Keys), OrderedEdges(KidsOf(n.layout));
    LeadBack(edges, t, bs);
    ghost var at;
    c, at := FindDescending(n.layout, _ => true);
    StoppedAt(Reverse(edges), t, Reverse(bs), _ => true, at);
    SortedIsAscending(t.kids.Keys);
    if bs != [] {
      SortedEnds(bs, t.kids.Keys);
      ReverseAt(bs, 0);
    }
    b := if bs != [] then bs[|bs| - 1] else 0;
  }

  method FirstChildGT<V>(n: InnerObj<V>, b: byte, ghost t: Shape<V>) returns (c: Node<V>, ghost edge: byte)
    requires Held(t) && Root(t) == InnerNode(n)
    ensures FirstOf(c, edge, EdgesAbove(t.kids.Keys, b), t)
  {
    hide Held, Sorted, LeadTo, StopsAt, OrderedEdges;
    KidRoots(t, n);
    OrderedEdgesLead(n, t);
    ghost var bs, edges := Sorted(t.kids.Keys), OrderedEdges(KidsOf(n.layout));
    ghost var at;
    c, at := FindAscending(n.layout, e => e > b);
    StoppedAt(edges, t, bs, e => e > b, at);
    FirstAbove(bs, t.kids.Keys, at, b);
    edge := if at < |bs| then bs[at] else 0;
  }

  method LastChildLT<V>(n: InnerObj<V>, b: byte, ghost t: Shape<V>) returns (c: Node<V>, ghost edge: byte)
    requires Held(t) && Root(t) == InnerNode(n)
    ensures LastOf(c, edge, EdgesBelow(t.kids.Keys, b), t)
  {
    hide Held, Sorted, LeadTo, StopsAt, OrderedEdges, Reverse;
    KidRoots(t, n);
    OrderedEdgesLead(n, t);
    ghost var bs, edges := Sorted(t.kids.Keys), OrderedEdges(KidsOf(n.layout));
    LeadBack(edges, t, bs);
    ghost var at;
    c, at := FindDescending(n.layout, e => e < b);
    StoppedAt(Reverse(edges), t, Reverse(bs), e => e < b, at);
    forall j | |bs| - at <= j < |bs| ensures bs[j] >= b { ReverseAt(bs, |bs| - 1 - j); }
    if at < |bs| { ReverseAt(bs, at); }
    LastBelow(bs, t.kids.Keys, |bs| - at, b);
    edge := if at < |bs| then bs[|bs| - 1 - at] else 0;
  }

  // ---------- Min and Max ----------

  /** The leaf with the least key below `root` */
  method MinLeafOf<V>(root: Node<V>, ghost t: Shape<V>, ghost path: Key) returns (l: Option<LeafObj<V>>)
    requires Held(t) && Root(t) == root && Canonical(t, path)
    ensures Least(PairOf(l), Entries(t))
  {
    hide Held, Canonical, Entries, FirstOf, Least, LowPart;
    var n := root;
    ghost var u, p := t, path;
    WholeIsPart(Entries(t));
    while n != NilNode
      invariant Held(u) && Root(u) == n && Canonical(u, p) && LowPart(Entries(u), Entries(t))
      decreases u
    {
      match n
      case LeafNode(leaf) =>
        LeafHas(u, leaf);
        OnlyEntry((leaf.key, leaf.value));
        LeastOfLowPart(Some((leaf.key, leaf.value)), Entries(u), Entries(t));
        return Some(leaf);
      case InnerNode(r) =>
        InnerHas(u, r, p);
        if r.terminal.LeafNode? {
          ghost var e := (r.terminal.leaf.key, r.terminal.leaf.value);
          TermIsLow(u, p, Entries(u));
          LowPartTransitive({e}, Entries(u), Entries(t));
          OnlyEntry(e);
          LeastOfLowPart(Some(e), {e}, Entries(t));
          return Some(r.terminal.leaf);
        }
        ghost var b;
        HeldApart(u);
        n, b := FirstChildOf(r, u);
        InnerHas(u, r, p);
        FirstChild(n, b, u);
        FirstKidIsLow(u, p, b, Entries(u.kids[b]), Entries(u));
        LowPartTransitive(Entries(u.kids[b]), Entries(u), Entries(t));
        u, p := u.kids[b], p + u.prefix + [b];
    }
    NilHas(u);
    LeastOfLowPart(None, Entries(u), Entries(t));
    l := None;
  }

  /** The leaf with the greatest key below `root` */
  method MaxLeafOf<V>(root: Node<V>, ghost t: Shape<V>, ghost path: Key) returns (l: Option<LeafObj<V>>)
    requires Held(t) && Root(t) == root && Canonical(t, path)
    ensures Greatest(PairOf(l), Entries(t))
  {
    hide Held, Canonical, Entries, LastOf, Greatest, HighPart;
    var n := root;
    ghost var u, p := t, path;
    WholeIsPart(Entries(t));
    while n != NilNode
      invariant Held(u) && Root(u) == n && Canonical(u, p) && HighPart(Entries(u), Entries(t))
      decreases u
    {
      match n
      case LeafNode(leaf) =>
        LeafHas(u, leaf);
        OnlyEntry((leaf.key, leaf.value));
        GreatestOfHighPart(Some((leaf.key, leaf.value)), Entries(u), Entries(t));
        return Some(leaf);
      case InnerNode(r) =>
        InnerHas(u, r, p);
        HeldApart(u);
        var c;
        ghost var b;
        c, b := LastChildOf(r, u);
        InnerHas(u, r, p);
        LastChild(c, b, u);
        if c == NilNode {
          // A node without children would answer with its terminal; no reachable node is childless.
          assert false;
        }
        n := c;
        LastKidIsHigh(u, p, b, Entries(u.kids[b]), Entries(u));
        HighPartTransitive(Entries(u.kids[b]), Entries(u), Entries(t));
        u, p := u.kids[b], p + u.prefix + [b];
    }
    NilHas(u);
    GreatestOfHighPart(None, Entries(u), Entries(t));
    l := None;
  }

  lemma FirstChild<V>(c: Node<V>, b: byte, t: Shape<V>)
    requires t.Inner? && FirstOf(c, b, t.kids.Keys, t) && t.kids.Keys != {}
    ensures b in t.kids && c == Root(t.kids[b]) != NilNode && forall d | d in t.kids :: b <= d
  {
  }

  lemma LastChild<V>(c: Node<V>, b: byte, t: Shape<V>)
    requires t.Inner? && LastOf(c, b, t.kids.Keys, t) && t.kids.Keys != {}
    ensures b in t.kids && c == Root(t.kids[b]) != NilNode && forall d | d in t.kids :: d <= b
  {
  }

  lemma WholeIsPart<V>(es: set<Entry<V>>)
    ensures LowPart(es, es) && HighPart(es, es)
  {
  }

  lemma OnlyEntry<V>(e: Entry<V>)
    ensures Least(Some(e), {e}) && Greatest(Some(e), {e})
    ensures Least<V>(None, {}) && Greatest<V>(None, {})
  {
  }

  // ---------- Ceiling and Floor ----------

  datatype PrefixOutcome = Matched | TargetEndsHere | DivergedBelow | DivergedAbove

  /** How `here`, the path of a node, lies relative to the target */
  ghost predicate Compares(here: Key, target: Key, outcome: PrefixOutcome) {
    match outcome
    case Matched => here <= target
    case TargetEndsHere => target < here
    case DivergedBelow => Less(here, target) && !(here <= target)
    case DivergedAbove => Less(target, here) && !(target <= here)
  }

  method WalkPrefixToward(prefix: Key, target: Key, depth: nat) returns (consumed: nat, outcome: PrefixOutcome)
    requires depth <= |target|
    ensures Compares(target[..depth] + prefix, target, outcome)
    ensures outcome.Matched? ==> consumed == depth + |prefix| <= |target|
    ensures outcome.Matched? ==> target[..consumed] == target[..depth] + prefix
  {
    var remaining := |target| - depth;
    var m := if |prefix| > remaining then remaining else |prefix|;
    ghost var here := target[..depth] + prefix;
    var i := 0;
    while i < m
      invariant 0 <= i <= m && here[..depth + i] == target[..depth + i]
    {
      if prefix[i] < target[depth + i] {
        Branched(here, target, depth + i);
        return 0, DivergedBelow;
      }
      if prefix[i] > target[depth + i] {
        Branched(target, here, depth + i);
        return 0, DivergedAbove;
      }
      i := i + 1;
    }
    WalkedThrough(prefix, target, depth, m);
    if remaining < |prefix| {
      return 0, TargetEndsHere;
    }
    return depth + |prefix|, Matched;
  }

  /** Neither the prefix nor the rest of the target goes on after `m` equal bytes. */
  lemma WalkedThrough(prefix: Key, target: Key, depth: nat, m: nat)
    requires depth <= |target| && m <= |prefix| && m <= |target| - depth && (m == |prefix| || m == |target| - depth)
    requires (target[..depth] + prefix)[..depth + m] == target[..depth + m]
    ensures |target| - depth < |prefix| ==> target < target[..depth] + prefix
    ensures |target| - depth >= |prefix| ==> target[..depth + |prefix|] == target[..depth] + prefix <= target
  {
    var here := target[..depth] + prefix;
    if m == |prefix| {
      assert here[..depth + m] == here;
    } else {
      assert target[..depth + m] == target;
    }
  }

  lemma Branched(a: Key, b: Key, n: nat)
    requires n < |a| && n < |b| && a[..n] == b[..n] && a[n] < b[n]
    ensures Less(a, b) && !(a <= b)
  {
    LessByBranch(a[..n], a, b);
  }

  /** The leaf with the least key at or above the target */
  method CeilingLeafOf<V>(n: Node<V>, target: Key, depth: nat, ghost t: Shape<V>) returns (l: Option<LeafObj<V>>)
    requires Held(t) && Root(t) == n && depth <= |target| && Canonical(t, target[..depth])
    ensures Least(PairOf(l), AtOrAbove(Entries(t), target))
    decreases t, 1
  {
    hide Held, Canonical, Entries, Least, AtOrAbove, Compares;
    ghost var path := target[..depth];
    match n
    case NilNode =>
      NilHas(t);
      CeilingOfNone<V>(target);
      return None;
    case LeafNode(leaf) =>
      LeafHas(t, leaf);
      CeilingOfOne((leaf.key, leaf.value), target);
      return if Less(leaf.key, target) then None else Some(leaf);
    case InnerNode(r) =>
      InnerHas(t, r, path);
      HeldApart(t);
      var consumed, outcome := WalkPrefixToward(r.prefix.Bytes(), target, depth);
      CeilingByOutcome(t, path, target, outcome, Entries(t));
      match outcome
      case DivergedBelow =>
        return None;
      case DivergedAbove =>
        l := MinLeafOf(n, t, path);
      case TargetEndsHere =>
        l := MinLeafOf(n, t, path);
      case Matched =>
        l := CeilingBelow(r, consumed, target, t, path);
  }

  lemma CeilingOfNone<V>(target: Key)
    ensures Least<V>(None, AtOrAbove({}, target))
  {
  }

  lemma CeilingOfOne<V>(e: Entry<V>, target: Key)
    ensures Least(if Less(e.0, target) then None else Some(e), AtOrAbove({e}, target))
  {
    LessOrAtMost(e.0, target);
    var es := AtOrAbove({e}, target);
    if Less(e.0, target) { assert es == {}; } else { assert es == {e}; }
  }

  lemma CeilingByOutcome<A, V>(t: Trie<A, V>, path: Key, target: Key, outcome: PrefixOutcome, all: set<Entry<V>>)
    requires t.Inner? && Canonical(t, path) && all == Entries(t) && Compares(path + t.prefix, target, outcome)
    ensures outcome.DivergedBelow? ==> Least<V>(None, AtOrAbove(all, target))
    ensures outcome.DivergedAbove? || outcome.TargetEndsHere? ==> AtOrAbove(all, target) == all
    ensures outcome.Matched? && path + t.prefix == target ==> AtOrAbove(all, target) == all
  {
    match outcome
    case DivergedBelow => AllBelow(t, path, target, all);
    case DivergedAbove => AllAbove(t, path, target, all);
    case TargetEndsHere => AllAbove(t, path, target, all);
    case Matched => if path + t.prefix == target { AllAbove(t, path, target, all); }
  }

  /** The node's whole path is matched by the target. */
  method CeilingBelow<V>(r: InnerObj<V>, consumed: nat, target: Key, ghost t: Shape<V>, ghost path: Key)
    returns (l: Option<LeafObj<V>>)
    requires Held(t) && Root(t) == InnerNode(r) && t.Inner? && Canonical(t, path)
    requires consumed <= |target| && target[..consumed] == path + t.prefix
    requires path + t.prefix == target ==> AtOrAbove(Entries(t), target) == Entries(t)
    ensures Least(PairOf(l), AtOrAbove(Entries(t), target))
    decreases t, 0
  {
    hide Held, Canonical, Entries, Least, AtOrAbove, FirstOf, Towards;
    InnerHas(t, r, path);
    HeldApart(t);
    if consumed == |target| {
      assert target == target[..consumed];
      l := MinBelow(r, t, path);
      return;
    }
    var b := target[consumed];
    assert target[..consumed + 1] == path + t.prefix + [b];
    IsTowards(t, path, target, b);
    var child;
    ghost var kid;
    child, kid := ChildUnder(r, b, t);
    ghost var inKid, all := Entries(kid), Entries(t);
    if child != NilNode {
      HeldApart(kid);
      l := CeilingLeafOf(child, target, consumed + 1, kid);
      if l.Some? {
        CeilingInKid(t, path, target, b, PairOf(l), inKid, all);
        return;
      }
      NoneMeansEmpty(AtOrAbove(inKid, target));
    } else {
      NothingAround(kid, target);
    }
    var sib;
    ghost var edge;
    sib, edge := FirstChildGT(r, b, t);
    FirstSibling(sib, edge, b, t);
    if sib != NilNode {
      InnerHas(t, r, path);
      l := MinLeafOf(sib, t.kids[edge], path + t.prefix + [edge]);
      CeilingInSibling(t, path, target, b, edge, PairOf(l), inKid, all);
      return;
    }
    NoCeiling(t, path, target, b, inKid, all);
    l := None;
    EmptyHasNone(AtOrAbove(all, target));
  }

  lemma IsTowards<A, V>(t: Trie<A, V>, path: Key, target: Key, b: byte)
    requires t.Inner? && Canonical(t, path) && path + t.prefix + [b] <= target
    ensures Towards(t, path, target, b)
  {
  }

  lemma NoneMeansEmpty<V>(es: set<Entry<V>>)
    ensures Least(None, es) || Greatest(None, es) ==> es == {}
  {
  }

  lemma EmptyHasNone<V>(es: set<Entry<V>>)
    ensures es == {} ==> Least(None, es) && Greatest(None, es)
  {
  }

  lemma NothingAround<V>(kid: Shape<V>, target: Key)
    requires kid == Nil
    ensures AtOrAbove(Entries(kid), target) == {} && AtOrBelow(Entries(kid), target) == {}
  {
  }

  lemma FirstSibling<V>(c: Node<V>, edge: byte, b: byte, t: Shape<V>)
    requires t.Inner? && FirstOf(c, edge, EdgesAbove(t.kids.Keys, b), t)
    ensures c == NilNode ==> forall d | d in t.kids :: d <= b
    ensures c != NilNode ==> edge in t.kids && c == Root(t.kids[edge]) && edge > b
    ensures c != NilNode ==> forall d | d in t.kids && b < d :: edge <= d
  {
    if c == NilNode {
      forall d | d in t.kids ensures d <= b { assert d in EdgesAbove(t.kids.Keys, b) <==> d > b; }
    } else {
      forall d | d in t.kids && b < d ensures edge <= d { assert d in EdgesAbove(t.kids.Keys, b); }
    }
  }

  lemma LastSibling<V>(c: Node<V>, edge: byte, b: byte, t: Shape<V>)
    requires t.Inner? && LastOf(c, edge, EdgesBelow(t.kids.Keys, b), t)
    ensures c == NilNode ==> forall d | d in t.kids :: d >= b
    ensures c != NilNode ==> edge in t.kids && c == Root(t.kids[edge]) && edge < b
    ensures c != NilNode ==> forall d | d in t.kids && d < b :: d <= edge
  {
    if c == NilNode {
      forall d | d in t.kids ensures d >= b { assert d in EdgesBelow(t.kids.Keys, b) <==> d < b; }
    } else {
      forall d | d in t.kids && d < b ensures d <= edge { assert d in EdgesBelow(t.kids.Keys, b); }
    }
  }

  /** The node's own terminal, or else the least leaf of its first child */
  method MinBelow<V>(r: InnerObj<V>, ghost t: Shape<V>, ghost path: Key) returns (l: Option<LeafObj<V>>)
    requires Held(t) && Root(t) == InnerNode(r) && Canonical(t, path)
    ensures Least(PairOf(l), Entries(t))
  {
    hide Held, Canonical, Entries, Least, LowPart, FirstOf;
    InnerHas(t, r, path);
    if r.terminal.LeafNode? {
      ghost var e := (r.terminal.leaf.key, r.terminal.leaf.value);
      TermIsLow(t, path, Entries(t));
      OnlyEntry(e);
      LeastOfLowPart(Some(e), {e}, Entries(t));
      return Some(r.terminal.leaf);
    }
    HeldApart(t);
    var c;
    ghost var b;
    c, b := FirstChildOf(r, t);
    InnerHas(t, r, path);
    FirstChild(c, b, t);
    l := MinLeafOf(c, t.kids[b], path + t.prefix + [b]);
    FirstKidIsLow(t, path, b, Entries(t.kids[b]), Entries(t));
    LeastOfLowPart(PairOf(l), Entries(t.kids[b]), Entries(t));
  }

  /** The leaf with the greatest key at or below the target */
  method FloorLeafOf<V>(n: Node<V>, target: Key, depth: nat, ghost t: Shape<V>) returns (l: Option<LeafObj<V>>)
    requires Held(t) && Root(t) == n && depth <= |target| && Canonical(t, target[..depth])
    ensures Greatest(PairOf(l), AtOrBelow(Entries(t), target))
    decreases t, 1
  {
    hide Held, Canonical, Entries, Greatest, AtOrBelow, Compares;
    ghost var path := target[..depth];
    match n
    case NilNode =>
      NilHas(t);
      FloorOfNone<V>(target);
      return None;
    case LeafNode(leaf) =>
      LeafHas(t, leaf);
      FloorOfOne((leaf.key, leaf.value), target);
      return if Less(target, leaf.key) then None else Some(leaf);
    case InnerNode(r) =>
      InnerHas(t, r, path);
      HeldApart(t);
      var consumed, outcome := WalkPrefixToward(r.prefix.Bytes(), target, depth);
      FloorByOutcome(t, path, target, outcome, Entries(t));
      match outcome
      case DivergedAbove =>
        return None;
      case TargetEndsHere =>
        return None;
      case DivergedBelow =>
        l := MaxLeafOf(n, t, path);
      case Matched =>
        l := FloorBelow(r, consumed, target, t, path);
  }

  lemma FloorOfNone<V>(target: Key)
    ensures Greatest<V>(None, AtOrBelow({}, target))
  {
  }

  lemma FloorOfOne<V>(e: Entry<V>, target: Key)
    ensures Greatest(if Less(target, e.0) then None else Some(e), AtOrBelow({e}, target))
  {
    LessOrAtMost(target, e.0);
    var es := AtOrBelow({e}, target);
    if Less(target, e.0) { assert es == {}; } else { assert es == {e}; }
  }

  lemma FloorByOutcome<A, V>(t: Trie<A, V>, path: Key, target: Key, outcome: PrefixOutcome, all: set<Entry<V>>)
    requires t.Inner? && Canonical(t, path) && all == Entries(t) && Compares(path + t.prefix, target, outcome)
    ensures outcome.DivergedBelow? ==> AtOrBelow(all, target) == all
    ensures outcome.DivergedAbove? || outcome.TargetEndsHere? ==> Greatest<V>(None, AtOrBelow(all, target))
  {
    match outcome
    case DivergedBelow => AllBelow(t, path, target, all);
    case DivergedAbove => AllAbove(t, path, target, all);
    case TargetEndsHere => AllAbove(t, path, target, all);
    case Matched =>
  }

  method FloorBelow<V>(r: InnerObj<V>, consumed: nat, target: Key, ghost t: Shape<V>, ghost path: Key)
    returns (l: Option<LeafObj<V>>)
    requires Held(t) && Root(t) == InnerNode(r) && t.Inner? && Canonical(t, path)
    requires consumed <= |target| && target[..consumed] == path + t.prefix
    ensures Greatest(PairOf(l), AtOrBelow(Entries(t), target))
    decreases t, 0
  {
    hide Held, Canonical, Entries, Greatest, AtOrBelow, LastOf, Towards;
    InnerHas(t, r, path);
    HeldApart(t);
    var tl := if r.terminal.LeafNode? then Some(r.terminal.leaf) else None;
    if consumed == |target| {
      assert target == target[..consumed];
      FloorHere(t, path, target, Entries(t));
      return tl;
    }
    var b := target[consumed];
    assert target[..consumed + 1] == path + t.prefix + [b];
    IsTowards(t, path, target, b);
    var child;
    ghost var kid;
    child, kid := ChildUnder(r, b, t);
    ghost var inKid, all := Entries(kid), Entries(t);
    if child != NilNode {
      HeldApart(kid);
      l := FloorLeafOf(child, target, consumed + 1, kid);
      if l.Some? {
        FloorInKid(t, path, target, b, PairOf(l), inKid, all);
        return;
      }
      NoneMeansEmpty(AtOrBelow(inKid, target));
    } else {
      NothingAround(kid, target);
    }
    var sib;
    ghost var edge;
    sib, edge := LastChildLT(r, b, t);
    LastSibling(sib, edge, b, t);
    if sib != NilNode {
      InnerHas(t, r, path);
      l := MaxLeafOf(sib, t.kids[edge], path + t.prefix + [edge]);
      FloorInSibling(t, path, target, b, edge, PairOf(l), inKid, all);
      return;
    }
    FloorAtTerm(t, path, target, b, inKid, all);
    l := tl;
  }
}
