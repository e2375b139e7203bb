/** Callbacks that may refuse to go on. */
module Feeds {
  /**
   * The caller's `yield`: it records what it is given and answers as it likes. Its answers are an
   * arbitrary function of everything it has been given so far.
   */
  class Consumer<E> {
    const accept: seq<E> -> bool
    var log: seq<E>

    constructor (accept: seq<E> -> bool)
      ensures this.accept == accept && log == []
    {
      this.accept := accept;
      log := [];
    }

    method Yield(x: E) returns (more: bool)
      modifies this
      ensures log == old(log) + [x] && more == accept(log)
    {
      log := log + [x];
      more := accept(log);
    }
  }

  datatype Fed<E> = Fed(log: seq<E>, more: bool)

  /** Offering `xs` one by one until the first refusal */
  function Feed<E>(accept: seq<E> -> bool, log: seq<E>, xs: seq<E>): Fed<E>
    decreases |xs|
  {
    if xs == [] then Fed(log, true)
    else
      var log' := log + [xs[0]];
      if accept(log') then Feed(accept, log', xs[1..]) else Fed(log', false)
  }

  lemma {:induction false} FeedConcat<E>(accept: seq<E> -> bool, log: seq<E>, xs: seq<E>, ys: seq<E>)
    ensures Feed(accept, log, xs + ys) ==
            var first := Feed(accept, log, xs);
            if first.more then Feed(accept, first.log, ys) else first
    decreases |xs|
  {
    if xs == [] {
      assert xs + ys == ys;
    } else {
      assert (xs + ys)[1..] == xs[1..] + ys;
      FeedConcat(accept, log + [xs[0]], xs[1..], ys);
    }
  }

  /** What was offered is the shortest prefix of `xs` that ends at the first refusal. */
  lemma {:induction false} FeedStopsAtFirstRefusal<E>(accept: seq<E> -> bool, log: seq<E>, xs: seq<E>)
    returns (n: nat)
    ensures n <= |xs| && Feed(accept, log, xs).log == log + xs[..n]
    ensures forall i | 0 < i < n :: accept(log + xs[..i])
    ensures Feed(accept, log, xs).more ==> n == |xs| && (n > 0 ==> accept(log + xs[..n]))
    ensures !Feed(accept, log, xs).more ==> n > 0 && !accept(log + xs[..n])
    decreases |xs|
  {
    if xs == [] {
      n := 0;
      assert log + xs[..0] == log;
    } else {
      var log' := log + [xs[0]];
      assert log + xs[..1] == log';
      if accept(log') {
        var m := FeedStopsAtFirstRefusal(accept, log', xs[1..]);
        n := m + 1;
        forall i | 0 < i <= n ensures log + xs[..i] == log' + xs[1..][..i - 1] {
          assert xs[..i] == [xs[0]] + xs[1..][..i - 1];
        }
        forall i | 0 < i < n ensures accept(log + xs[..i]) {
          assert log' + xs[1..][..0] == log';
        }
      } else {
        n := 1;
      }
    }
  }

  lemma FeedNone<E>(accept: seq<E> -> bool, log: seq<E>)
    ensures Feed(accept, log, []) == Fed(log, true)
  {
  }

  lemma FeedOne<E>(accept: seq<E> -> bool, log: seq<E>, x: E)
    ensures Feed(accept, log, [x]) == Fed(log + [x], accept(log + [x]))
  {
    var rest: seq<E> := [x][1..];
    assert rest == [];
  }

  /** One more element, after a feed that was not refused */
  lemma FeedMore<E>(accept: seq<E> -> bool, log: seq<E>, xs: seq<E>, x: E)
    requires Feed(accept, log, xs).more
    ensures var log' := Feed(accept, log, xs).log + [x]; Feed(accept, log, xs + [x]) == Fed(log', accept(log'))
  {
    FeedConcat(accept, log, xs, [x]);
    FeedOne(accept, Feed(accept, log, xs).log, x);
  }

  /** One element fewer to come */
  lemma FeedHead<E>(accept: seq<E> -> bool, log: seq<E>, x: E, rest: seq<E>)
    ensures var log' := log + [x];
            Feed(accept, log, [x] + rest) == if accept(log') then Feed(accept, log', rest) else Fed(log', false)
  {
    FeedConcat(accept, log, [x], rest);
    FeedOne(accept, log, x);
  }

  /** A consumer that never refuses collects everything. */
  lemma FeedAll<E>(accept: seq<E> -> bool, log: seq<E>, xs: seq<E>)
    requires forall i | 0 < i <= |xs| :: accept(log + xs[..i])
    ensures Feed(accept, log, xs) == Fed(log + xs, true)
  {
    var n := FeedStopsAtFirstRefusal(accept, log, xs);
    assert xs[..|xs|] == xs;
  }

  /** Offering once more what was offered ends the same way. */
  lemma FeedAgain<E>(accept: seq<E> -> bool, log: seq<E>, xs: seq<E>, offered: seq<E>)
    requires Feed(accept, log, xs).log == log + offered
    ensures Feed(accept, log, offered) == Feed(accept, log, xs)
  {
    var n := FeedStopsAtFirstRefusal(accept, log, xs);
    assert offered == (log + offered)[|log|..] == (log + xs[..n])[|log|..] == xs[..n];
    FeedConcat(accept, log, offered, xs[n..]);
    assert xs == offered + xs[n..];
    if Feed(accept, log, offered).more { FeedIsWhole(accept, log, offered, xs); }
  }

  lemma FeedIsWhole<E>(accept: seq<E> -> bool, log: seq<E>, offered: seq<E>, xs: seq<E>)
    requires offered <= xs && Feed(accept, log, xs).log == log + offered && Feed(accept, log, offered).more
    ensures Feed(accept, log, offered) == Feed(accept, log, xs)
  {
    var n := FeedStopsAtFirstRefusal(accept, log, xs);
    var k := FeedStopsAtFirstRefusal(accept, log, offered);
    assert offered[..|offered|] == offered;
  }
}
