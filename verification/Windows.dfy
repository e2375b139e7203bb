/** Half-open intervals of keys, and the part of an ascending list that one selects. */
module Windows {
  import opened Bytes
  import opened Tries
  import opened Listings

  /** The entries of `xs` whose keys lie in the interval */
  function Window<V>(xs: seq<Entry<V>>, start: Option<Key>, end: Option<Key>): seq<Entry<V>>
    decreases |xs|
  {
    if xs == [] then []
    else (if InWindow(xs[0].0, start, end) then [xs[0]] else []) + Window(xs[1..], start, end)
  }

  lemma {:induction false} WindowConcat<V>(xs: seq<Entry<V>>, ys: seq<Entry<V>>, start: Option<Key>, end: Option<Key>)
    ensures Window(xs + ys, start, end) == Window(xs, start, end) + Window(ys, start, end)
    decreases |xs|
  {
    if xs == [] {
      assert xs + ys == ys;
    } else {
      assert (xs + ys)[1..] == xs[1..] + ys;
      WindowConcat(xs[1..], ys, start, end);
      var rest := Window(xs[1..], start, end);
      assert (if InWindow(xs[0].0, start, end) then [xs[0]] else []) + (rest + Window(ys, start, end)) ==
             Window(xs, start, end) + Window(ys, start, end);
    }
  }

  lemma {:induction false} WindowEmpty<V>(xs: seq<Entry<V>>, start: Option<Key>, end: Option<Key>)
    requires forall x | x in xs :: !InWindow(x.0, start, end)
    ensures Window(xs, start, end) == []
    decreases |xs|
  {
    if xs != [] {
      assert xs[0] in xs;
      WindowEmpty(xs[1..], start, end);
    }
  }

  lemma {:induction false} WindowUnbounded<V>(xs: seq<Entry<V>>)
    ensures Window(xs, None, None) == xs
    decreases |xs|
  {
    if xs != [] { WindowUnbounded(xs[1..]); }
  }

  lemma {:induction false} WindowMembers<V>(xs: seq<Entry<V>>, start: Option<Key>, end: Option<Key>)
    ensures forall x | x in Window(xs, start, end) :: x in xs && InWindow(x.0, start, end)
    ensures forall x | x in xs && InWindow(x.0, start, end) :: x in Window(xs, start, end)
    decreases |xs|
  {
    if xs != [] {
      WindowMembers(xs[1..], start, end);
      assert xs == [xs[0]] + xs[1..];
    }
  }

  /** A window of an ascending list ascends. */
  lemma {:induction false} WindowAscends<V>(xs: seq<Entry<V>>, start: Option<Key>, end: Option<Key>)
    requires KeysAscend(xs)
    ensures KeysAscend(Window(xs, start, end))
    decreases |xs|
  {
    if xs != [] {
      WindowAscends(xs[1..], start, end);
      WindowMembers(xs[1..], start, end);
      forall x | x in Window(xs[1..], start, end) ensures Less(xs[0].0, x.0) {
        assert x in xs[1..];
        var i :| 0 <= i < |xs[1..]| && xs[1..][i] == x;
        assert xs[i + 1] == x;
      }
      AscendConcat(if InWindow(xs[0].0, start, end) then [xs[0]] else [], Window(xs[1..], start, end));
    }
  }

  ghost function EntriesWithin<V>(es: set<Entry<V>>, start: Option<Key>, end: Option<Key>): set<Entry<V>> {
    set e | e in es && InWindow(e.0, start, end)
  }

  /** A window of a listing lists exactly the entries inside the interval. */
  lemma WindowIsListing<V>(xs: seq<Entry<V>>, es: set<Entry<V>>, start: Option<Key>, end: Option<Key>)
    requires Listing(xs, es)
    ensures Listing(Window(xs, start, end), EntriesWithin(es, start, end))
  {
    var ys, inside := Window(xs, start, end), EntriesWithin(es, start, end);
    WindowAscends(xs, start, end);
    WindowMembers(xs, start, end);
    forall x | x in ys ensures x in inside { assert x in xs; }
    forall x | x in inside ensures x in ys { assert x in es; }
  }

  /** What a range offers, told from the order alone: the start is included and the end is not. */
  lemma WindowBetween<V>(xs: seq<Entry<V>>, es: set<Entry<V>>, start: Key, end: Key)
    requires Listing(xs, es)
    ensures forall x :: x in Window(xs, Some(start), Some(end)) <==> x in es && AtMost(start, x.0) && Less(x.0, end)
    ensures forall x :: x in Window(xs, Some(start), None) <==> x in es && AtMost(start, x.0)
    ensures forall x :: x in Window(xs, None, Some(end)) <==> x in es && Less(x.0, end)
  {
    WindowMembers(xs, Some(start), Some(end));
    WindowMembers(xs, Some(start), None);
    WindowMembers(xs, None, Some(end));
    forall x | x in es ensures !Less(x.0, start) <==> AtMost(start, x.0) { LessOrAtMost(x.0, start); }
    hide Window, Less, AtMost;
  }

  lemma WindowOne<V>(x: Entry<V>, start: Option<Key>, end: Option<Key>)
    ensures Window([x], start, end) == if InWindow(x.0, start, end) then [x] else []
  {
    var tail: seq<Entry<V>> := [x][1..];
    assert tail == [];
  }

  /** A window of the backward walk is the backward window. */
  lemma {:induction false} WindowReverse<V>(xs: seq<Entry<V>>, start: Option<Key>, end: Option<Key>)
    ensures Window(Reverse(xs), start, end) == Reverse(Window(xs, start, end))
    decreases |xs|
  {
    if xs != [] {
      WindowReverse(xs[1..], start, end);
      WindowConcat(Reverse(xs[1..]), [xs[0]], start, end);
      var head: seq<Entry<V>> := if InWindow(xs[0].0, start, end) then [xs[0]] else [];
      var rest := Window(xs[1..], start, end);
      ReverseConcat(head, rest);
      WindowOne(xs[0], start, end);
      assert head != [] ==> head[1..] == [];
      assert Window(xs, start, end) == head + rest;
    }
  }
}
