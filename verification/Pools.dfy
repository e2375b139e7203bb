/** Runs over any number of trees, where cloning is one of the operations. */
module Pools {
  import opened Bytes
  import opened Layouts
  import opened Shapes
  import opened Trees
  import opened Histories
  import opened Runs

  /** The trees of the pool and their nodes */
  ghost function Owned<V>(pool: seq<Tree<V>>): set<object>
    reads pool
  {
    (set t | t in pool :: t as object) + set t, o | t in pool && o in Foot(t.shape) :: o
  }

  /** The prefix buffers their nodes point into */
  ghost function Shared<V>(pool: seq<Tree<V>>): set<Buffer>
    reads pool
  {
    set t, o | t in pool && o in Bufs(t.shape) :: o
  }

  /** Valid trees that stand for these maps */
  ghost predicate StandFor<V>(pool: seq<Tree<V>>, maps: seq<map<Key, V>>)
    reads pool, Owned(pool), Shared(pool)
  {
    |pool| == |maps| && forall i | 0 <= i < |pool| :: pool[i].Valid() && pool[i].contents == maps[i]
  }

  /** No two of them have a node in common. */
  ghost predicate AllApart<V>(pool: seq<Tree<V>>)
    reads pool
  {
    forall i, j | 0 <= i < |pool| && 0 <= j < |pool| && i != j :: pool[i].ApartFrom(pool[j])
  }

  lemma MemberIsOwned<V>(pool: seq<Tree<V>>, i: nat)
    requires i < |pool|
    ensures {pool[i] as object} + Foot(pool[i].shape) <= Owned(pool)
  {
    assert pool[i] in pool;
  }

  /** An operation on one tree of a pool leaves the others as they were, and apart from it. */
  method PerformAmong<V>(pool: seq<Tree<V>>, i: nat, op: Op<Key, V>)
    requires i < |pool| && AllApart(pool) && forall j | 0 <= j < |pool| :: pool[j].Valid()
    modifies pool[i], Foot(pool[i].shape)
    ensures pool[i].Valid() && pool[i].contents == Apply(old(pool[i].contents), op)
    ensures forall j | 0 <= j < |pool| && j != i ::
              pool[j].Valid() && pool[j].contents == old(pool[j].contents) && pool[j].shape == old(pool[j].shape)
    ensures fresh(Foot(pool[i].shape) - old(Foot(pool[i].shape)))
  {
    hide Tree.Valid, Apply;
    forall j | 0 <= j < |pool| && j != i
      ensures ({pool[i] as object} + Foot(pool[i].shape)) !!
              ({pool[j] as object} + Foot(pool[j].shape) + Bufs(pool[j].shape))
    {
      Separation(pool[i], pool[j]);
    }
    Execute(pool[i], op);
  }

  /** One operation on one tree */
  method PerformOn<V>(pool: seq<Tree<V>>, i: nat, op: Op<Key, V>, ghost maps: seq<map<Key, V>>)
    requires i < |pool| && StandFor(pool, maps) && AllApart(pool)
    modifies pool[i], Foot(pool[i].shape)
    ensures StandFor(pool, maps[i := Apply(maps[i], op)]) && AllApart(pool)
    ensures fresh(Owned(pool) - old(Owned(pool)))
  {
    hide Tree.Valid, Apply, Bufs;
    PerformAmong(pool, i, op);
  }

  /** A clone joins the pool, apart from every tree in it. */
  method CloneFrom<V>(pool: seq<Tree<V>>, i: nat, ghost maps: seq<map<Key, V>>) returns (pool': seq<Tree<V>>)
    requires i < |pool| && StandFor(pool, maps) && AllApart(pool)
    ensures pool <= pool' && StandFor(pool', maps + [maps[i]]) && AllApart(pool')
    ensures fresh(Owned(pool') - old(Owned(pool)))
  {
    hide Tree.Valid;
    forall j | 0 <= j < |pool| ensures Foot(pool[j].shape) !! Bufs(pool[j].shape) && pool[j] !in Foot(pool[j].shape) {
      SeparateFromBuffers(pool[j]);
    }
    var copy := pool[i].Clone();
    pool' := pool + [copy];
  }

  lemma SeparateFromBuffers<V>(t: Tree<V>)
    requires t.Valid()
    ensures Foot(t.shape) !! Bufs(t.shape) && t !in Foot(t.shape)
  {
  }

  /**
   * Any run over a pool: every tree stays valid and follows the operations addressed to it and no others, a clone
   * starts as the map it was cloned from was at that step, and no two trees ever share a node.
   */
  method Run<V>(pool: seq<Tree<V>>, ops: seq<PoolOp<Key, V>>, ghost maps: seq<map<Key, V>>)
    returns (pool': seq<Tree<V>>)
    requires StandFor(pool, maps) && AllApart(pool)
    modifies Owned(pool)
    ensures |pool'| == |ApplyAllTo(maps, ops)| && |pool| == |maps| <= |pool'|
    ensures forall i | 0 <= i < |pool| :: pool'[i].contents == ApplyAll(maps[i], Own(ops, i))
    ensures forall s | 0 <= s < |ops| && ops[s].CloneOf? && ops[s].at < |After(maps, ops, s)| ::
              var before := After(maps, ops, s);
              |before| < |pool'| &&
              pool'[|before|].contents == ApplyAll(before[ops[s].at], Own(ops[s + 1..], |before|))
    ensures pool <= pool' && StandFor(pool', ApplyAllTo(maps, ops)) && AllApart(pool')
    ensures fresh(Owned(pool') - old(Owned(pool)))
  {
    hide *;
    PoolSize(pool, maps);
    pool' := RunAll(pool, ops, maps);
    PoolSize(pool', ApplyAllTo(maps, ops));
    EachFollowsItsOwn(pool', maps, ops);
  }

  lemma EachFollowsItsOwn<V>(pool: seq<Tree<V>>, maps: seq<map<Key, V>>, ops: seq<PoolOp<Key, V>>)
    requires StandFor(pool, ApplyAllTo(maps, ops))
    ensures |maps| <= |pool|
    ensures forall i | 0 <= i < |maps| :: pool[i].contents == ApplyAll(maps[i], Own(ops, i))
    ensures forall s | 0 <= s < |ops| && ops[s].CloneOf? && ops[s].at < |After(maps, ops, s)| ::
              var before := After(maps, ops, s);
              |before| < |pool| &&
              pool[|before|].contents == ApplyAll(before[ops[s].at], Own(ops[s + 1..], |before|))
  {
    hide ApplyAllTo, ApplyAll, Own, After, Tree.Valid;
    if maps != [] { FollowsItsOwn(maps, ops, |maps| - 1); }
    forall i | 0 <= i < |maps| ensures pool[i].contents == ApplyAll(maps[i], Own(ops, i)) {
      FollowsItsOwn(maps, ops, i);
    }
    forall s | 0 <= s < |ops| && ops[s].CloneOf? && ops[s].at < |After(maps, ops, s)|
      ensures var before := After(maps, ops, s);
              |before| < |pool| &&
              pool[|before|].contents == ApplyAll(before[ops[s].at], Own(ops[s + 1..], |before|))
    {
      CloneFollowsItsOwn(maps, ops, s);
    }
  }

  method RunAll<V>(pool: seq<Tree<V>>, ops: seq<PoolOp<Key, V>>, ghost maps: seq<map<Key, V>>)
    returns (pool': seq<Tree<V>>)
    requires StandFor(pool, maps) && AllApart(pool)
    modifies Owned(pool)
    ensures pool <= pool' && StandFor(pool', ApplyAllTo(maps, ops)) && AllApart(pool')
    ensures fresh(Owned(pool') - old(Owned(pool)))
    decreases |ops|
  {
    hide StandFor, AllApart, ApplyAllTo, ApplyTo;
    if ops == [] {
      NoOpsLeft(maps, ops);
      return pool;
    }
    NextOp(maps, ops);
    pool' := Step(pool, ops[0], maps);
    pool' := RunAll(pool', ops[1..], ApplyTo(maps, ops[0]));
  }

  method Step<V>(pool: seq<Tree<V>>, op: PoolOp<Key, V>, ghost maps: seq<map<Key, V>>) returns (pool': seq<Tree<V>>)
    requires StandFor(pool, maps) && AllApart(pool)
    modifies Owned(pool)
    ensures pool <= pool' && StandFor(pool', ApplyTo(maps, op)) && AllApart(pool')
    ensures fresh(Owned(pool') - old(Owned(pool)))
  {
    PoolSize(pool, maps);
    hide StandFor, AllApart, Apply;
    pool' := pool;
    if op.at < |pool| {
      match op
      case On(i, o) =>
        MemberIsOwned(pool, i);
        PerformOn(pool, i, o, maps);
      case CloneOf(i) =>
        pool' := CloneFrom(pool, i, maps);
    }
  }

  lemma PoolSize<V>(pool: seq<Tree<V>>, maps: seq<map<Key, V>>)
    requires StandFor(pool, maps)
    ensures |pool| == |maps|
  {
  }

  method Start<V>() returns (pool: seq<Tree<V>>)
    ensures StandFor(pool, [map[]]) && AllApart(pool) && fresh(Owned(pool))
  {
    hide Tree.Valid;
    var first := new Tree<V>();
    pool := [first];
  }

  /** The same from one empty tree */
  method Replay<V>(ops: seq<PoolOp<Key, V>>) returns (pool: seq<Tree<V>>)
    ensures 1 <= |pool| == |ApplyAllTo([map[]], ops)| && pool[0].contents == ApplyAll(map[], Own(ops, 0))
    ensures forall s | 0 <= s < |ops| && ops[s].CloneOf? && ops[s].at < |After([map[]], ops, s)| ::
              var before := After([map[]], ops, s);
              |before| < |pool| &&
              pool[|before|].contents == ApplyAll(before[ops[s].at], Own(ops[s + 1..], |before|))
    ensures StandFor(pool, ApplyAllTo([map[]], ops)) && AllApart(pool) && fresh(Owned(pool))
  {
    hide StandFor, AllApart, ApplyAllTo, ApplyAll, Own, After, Tree.Valid;
    var first := Start();
    ghost var mine := Owned(first);
    assert fresh(mine);
    pool := Run(first, ops, [map[]]);
    ghost var rest := Owned(pool) - mine;
    assert fresh(rest);
    assert Owned(pool) <= mine + rest;
  }
}
