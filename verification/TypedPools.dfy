/** Runs over any number of typed maps of one kind, where cloning is one of the operations. */
module TypedPools {
  import opened Shapes
  import opened Codec
  import opened Trees
  import opened OrderedMaps
  import opened Runs

  /** Typed maps have no Clear; keys are of the maps' kind. */
  predicate Fits<V>(kind: KeyKind, op: PoolOp<Item, V>) {
    op.CloneOf? || (!op.op.ClearOp? && OfKind(kind, op.op.key))
  }

  ghost function TreesOf<V>(pool: seq<Ordered<V>>): set<Tree<V>> {
    set t | t in pool :: t.tree
  }

  /** Everything that operations on the pool may write */
  ghost function Owned<V>(pool: seq<Ordered<V>>): set<object>
    reads pool, TreesOf(pool)
  {
    set t, o | t in pool && o in t.Objects() :: o
  }

  /** Everything they read */
  ghost function Reached<V>(pool: seq<Ordered<V>>): set<object>
    reads pool, TreesOf(pool)
  {
    set t, o | t in pool && o in t.Reach() :: o
  }

  /** Valid maps of the kind, with these contents */
  ghost predicate StandFor<V>(kind: KeyKind, pool: seq<Ordered<V>>, maps: seq<map<Item, V>>)
    reads pool, TreesOf(pool), Reached(pool)
  {
    && |pool| == |maps|
    && forall i | 0 <= i < |pool| :: pool[i].Valid() && pool[i].kind == kind && pool[i].contents == maps[i]
  }

  /** No two of them have an object in common. */
  ghost predicate AllApart<V>(pool: seq<Ordered<V>>)
    reads pool, TreesOf(pool)
  {
    forall i, j | 0 <= i < |pool| && 0 <= j < |pool| && i != j :: pool[i].Objects() !! pool[j].Objects()
  }

  lemma MemberIsOwned<V>(pool: seq<Ordered<V>>, i: nat)
    requires i < |pool|
    ensures pool[i].Objects() <= Owned(pool)
  {
    assert pool[i] in pool;
  }

  /** Nothing that an operation on `t` writes is read by `u`: buffers are never written. */
  lemma Separation<V>(t: Ordered<V>, u: Ordered<V>)
    requires t.Valid() && u.Valid() && t.Objects() !! u.Objects()
    ensures t.Objects() !! u.Reach()
  {
    hide Represents;
  }

  method PutIntoMap<V>(kind: KeyKind, pool: seq<Ordered<V>>, i: nat, key: Item, value: V, ghost maps: seq<map<Item, V>>)
    requires i < |pool| && StandFor(kind, pool, maps) && AllApart(pool) && OfKind(kind, key)
    modifies pool[i].Objects()
    ensures StandFor(kind, pool, maps[i := maps[i][key := value]]) && AllApart(pool)
    ensures fresh(Owned(pool) - old(Owned(pool)))
  {
    hide Ordered.Valid, OfKind;
    forall j | 0 <= j < |pool| && j != i ensures pool[i].Objects() !! pool[j].Reach() {
      Separation(pool[i], pool[j]);
    }
    pool[i].Put(key, value);
  }

  method DeleteFromMap<V>(kind: KeyKind, pool: seq<Ordered<V>>, i: nat, key: Item, ghost maps: seq<map<Item, V>>)
    requires i < |pool| && StandFor(kind, pool, maps) && AllApart(pool) && OfKind(kind, key)
    modifies pool[i].Objects()
    ensures StandFor(kind, pool, maps[i := maps[i] - {key}]) && AllApart(pool)
    ensures fresh(Owned(pool) - old(Owned(pool)))
  {
    hide Ordered.Valid, OfKind;
    forall j | 0 <= j < |pool| && j != i ensures pool[i].Objects() !! pool[j].Reach() {
      Separation(pool[i], pool[j]);
    }
    var _ := pool[i].Delete(key);
  }

  lemma SeparateFromBuffers<V>(t: Ordered<V>)
    requires t.Valid()
    ensures t.Objects() !! Bufs(t.tree.shape) && t.Reach() == t.Objects() + Bufs(t.tree.shape)
  {
    hide Represents;
  }

  /** A clone joins the pool, apart from every map in it. */
  method CloneFrom<V>(kind: KeyKind, pool: seq<Ordered<V>>, i: nat, ghost maps: seq<map<Item, V>>)
    returns (pool': seq<Ordered<V>>)
    requires i < |pool| && StandFor(kind, pool, maps) && AllApart(pool)
    ensures pool <= pool' && StandFor(kind, pool', maps + [maps[i]]) && AllApart(pool')
    ensures fresh(Owned(pool') - old(Owned(pool)))
  {
    hide Ordered.Valid;
    forall j | 0 <= j < |pool|
      ensures pool[j].Objects() !! Bufs(pool[j].tree.shape)
      ensures pool[j].Reach() == pool[j].Objects() + Bufs(pool[j].tree.shape)
    {
      SeparateFromBuffers(pool[j]);
    }
    var copy := pool[i].Clone();
    pool' := pool + [copy];
  }

  /** A Put or a Delete */
  method PerformOn<V>(kind: KeyKind, pool: seq<Ordered<V>>, i: nat, op: Op<Item, V>, ghost maps: seq<map<Item, V>>)
    requires StandFor(kind, pool, maps) && AllApart(pool) && i < |pool| == |maps| && Fits(kind, On(i, op))
    modifies pool[i].Objects()
    ensures StandFor(kind, pool, maps[i := Apply(maps[i], op)]) && AllApart(pool)
    ensures fresh(Owned(pool) - old(Owned(pool)))
  {
    hide *;
    FitsIs(kind, i, op);
    ApplyIs(maps[i], op);
    match op
    case PutOp(key, value) => PutIntoMap(kind, pool, i, key, value, maps);
    case DeleteOp(key) => DeleteFromMap(kind, pool, i, key, maps);
    case ClearOp => assert false;
  }

  method Step<V>(kind: KeyKind, pool: seq<Ordered<V>>, op: PoolOp<Item, V>, ghost maps: seq<map<Item, V>>)
    returns (pool': seq<Ordered<V>>)
    requires StandFor(kind, pool, maps) && AllApart(pool) && Fits(kind, op)
    modifies Owned(pool)
    ensures pool <= pool' && StandFor(kind, pool', ApplyTo(maps, op)) && AllApart(pool')
    ensures fresh(Owned(pool') - old(Owned(pool)))
  {
    hide *;
    PoolSize(kind, pool, maps);
    StepIs(maps, op);
    pool' := pool;
    if op.at < |pool| {
      MemberIsOwned(pool, op.at);
      match op
      case On(i, o) => PerformOn(kind, pool, i, o, maps);
      case CloneOf(i) => pool' := CloneFrom(kind, pool, i, maps);
    }
  }

  lemma FitsIs<V>(kind: KeyKind, i: nat, op: Op<Item, V>)
    ensures Fits(kind, On(i, op)) <==> (op.PutOp? || op.DeleteOp?) && OfKind(kind, op.key)
  {
  }

  lemma ApplyIs<V>(m: map<Item, V>, op: Op<Item, V>)
    ensures op.PutOp? ==> Apply(m, op) == m[op.key := op.value]
    ensures op.DeleteOp? ==> Apply(m, op) == m - {op.key}
  {
  }

  lemma StepIs<V>(maps: seq<map<Item, V>>, op: PoolOp<Item, V>)
    ensures op.at >= |maps| ==> ApplyTo(maps, op) == maps
    ensures op.On? && op.at < |maps| ==> ApplyTo(maps, op) == maps[op.at := Apply(maps[op.at], op.op)]
    ensures op.CloneOf? && op.at < |maps| ==> ApplyTo(maps, op) == maps + [maps[op.at]]
  {
  }

  lemma PoolSize<V>(kind: KeyKind, pool: seq<Ordered<V>>, maps: seq<map<Item, V>>)
    requires StandFor(kind, pool, maps)
    ensures |pool| == |maps|
  {
  }

  /**
   * Any run over a pool of typed maps: each follows the operations addressed to it and no others, and a clone starts
   * as the map it was cloned from was at that step.
   */
  method Run<V>(kind: KeyKind, pool: seq<Ordered<V>>, ops: seq<PoolOp<Item, V>>, ghost maps: seq<map<Item, V>>)
    returns (pool': seq<Ordered<V>>)
    requires StandFor(kind, pool, maps) && AllApart(pool) && forall i | 0 <= i < |ops| :: Fits(kind, ops[i])
    modifies Owned(pool)
    ensures |pool'| == |ApplyAllTo(maps, ops)| && |pool| == |maps| <= |pool'|
    ensures forall i | 0 <= i < |pool| :: pool'[i].contents == ApplyAll(maps[i], Own(ops, i))
    ensures forall s | 0 <= s < |ops| && ops[s].CloneOf? && ops[s].at < |After(maps, ops, s)| ::
              var before := After(maps, ops, s);
              |before| < |pool'| &&
              pool'[|before|].contents == ApplyAll(before[ops[s].at], Own(ops[s + 1..], |before|))
    ensures pool <= pool' && StandFor(kind, pool', ApplyAllTo(maps, ops)) && AllApart(pool')
    ensures fresh(Owned(pool') - old(Owned(pool)))
  {
    hide *;
    PoolSize(kind, pool, maps);
    pool' := RunAll(kind, pool, ops, maps);
    PoolSize(kind, pool', ApplyAllTo(maps, ops));
    EachFollowsItsOwn(kind, pool', maps, ops);
  }

  lemma EachFollowsItsOwn<V>(kind: KeyKind, pool: seq<Ordered<V>>, maps: seq<map<Item, V>>, ops: seq<PoolOp<Item, V>>)
    requires StandFor(kind, pool, ApplyAllTo(maps, ops))
    ensures |maps| <= |pool|
    ensures forall i | 0 <= i < |maps| :: pool[i].contents == ApplyAll(maps[i], Own(ops, i))
    ensures forall s | 0 <= s < |ops| && ops[s].CloneOf? && ops[s].at < |After(maps, ops, s)| ::
              var before := After(maps, ops, s);
              |before| < |pool| &&
              pool[|before|].contents == ApplyAll(before[ops[s].at], Own(ops[s + 1..], |before|))
  {
    hide ApplyAllTo, ApplyAll, Own, After, Ordered.Valid;
    if maps != [] { FollowsItsOwn(maps, ops, |maps| - 1); }
    forall i | 0 <= i < |maps| ensures pool[i].contents == ApplyAll(maps[i], Own(ops, i)) {
      FollowsItsOwn(maps, ops, i);
    }
    forall s | 0 <= s < |ops| && ops[s].CloneOf? && ops[s].at < |After(maps, ops, s)|
      ensures var before := After(maps, ops, s);
              |before| < |pool| &&
              pool[|before|].contents == ApplyAll(before[ops[s].at], Own(ops[s + 1..], |before|))
    {
      CloneFollowsItsOwn(maps, ops, s);
    }
  }

  method RunAll<V>(kind: KeyKind, pool: seq<Ordered<V>>, ops: seq<PoolOp<Item, V>>, ghost maps: seq<map<Item, V>>)
    returns (pool': seq<Ordered<V>>)
    requires StandFor(kind, pool, maps) && AllApart(pool) && forall i | 0 <= i < |ops| :: Fits(kind, ops[i])
    modifies Owned(pool)
    ensures pool <= pool' && StandFor(kind, pool', ApplyAllTo(maps, ops)) && AllApart(pool')
    ensures fresh(Owned(pool') - old(Owned(pool)))
    decreases |ops|
  {
    hide StandFor, AllApart, ApplyAllTo, ApplyTo, Fits;
    if ops == [] {
      NoOpsLeft(maps, ops);
      return pool;
    }
    NextOp(maps, ops);
    pool' := Step(kind, pool, ops[0], maps);
    pool' := RunAll(kind, pool', ops[1..], ApplyTo(maps, ops[0]));
  }

  method Start<V>(kind: KeyKind) returns (pool: seq<Ordered<V>>)
    ensures StandFor(kind, pool, [map[]]) && AllApart(pool) && fresh(Owned(pool))
  {
    hide Ordered.Valid;
    var first := new Ordered<V>(kind);
    pool := [first];
  }

  /** The same from one empty map */
  method Replay<V>(kind: KeyKind, ops: seq<PoolOp<Item, V>>) returns (pool: seq<Ordered<V>>)
    requires forall i | 0 <= i < |ops| :: Fits(kind, ops[i])
    ensures 1 <= |pool| == |ApplyAllTo([map[]], ops)| && pool[0].contents == ApplyAll(map[], Own(ops, 0))
    ensures forall s | 0 <= s < |ops| && ops[s].CloneOf? && ops[s].at < |After([map[]], ops, s)| ::
              var before := After([map[]], ops, s);
              |before| < |pool| &&
              pool[|before|].contents == ApplyAll(before[ops[s].at], Own(ops[s + 1..], |before|))
    ensures StandFor(kind, pool, ApplyAllTo([map[]], ops)) && AllApart(pool) && fresh(Owned(pool))
  {
    hide StandFor, AllApart, ApplyAllTo, ApplyAll, Own, After, Ordered.Valid, Fits;
    var first := Start(kind);
    ghost var mine := Owned(first);
    assert fresh(mine);
    pool := Run(kind, first, ops, [map[]]);
    ghost var rest := Owned(pool) - mine;
    assert fresh(rest);
    assert Owned(pool) <= mine + rest;
  }
}
