/** Runs on maps: what a sequence of operations leaves, on one map and on a pool of maps that grows by cloning. */
module Runs {
  // ---------- One map ----------

  datatype Op<K, V> = PutOp(key: K, value: V) | DeleteOp(key: K) | ClearOp

  /** What an operation does to the map */
  ghost function Apply<K, V>(m: map<K, V>, op: Op<K, V>): map<K, V> {
    match op
    case PutOp(key, value) => m[key := value]
    case DeleteOp(key) => m - {key}
    case ClearOp => map[]
  }

  ghost function ApplyAll<K, V>(m: map<K, V>, ops: seq<Op<K, V>>): map<K, V>
    decreases |ops|
  {
    if ops == [] then m else ApplyAll(Apply(m, ops[0]), ops[1..])
  }

  lemma NoOps<K, V>(m: map<K, V>, ops: seq<Op<K, V>>)
    requires ops == []
    ensures ApplyAll(m, ops) == m
  {
  }

  lemma FirstOp<K, V>(m: map<K, V>, ops: seq<Op<K, V>>)
    requires ops != []
    ensures ApplyAll(m, ops) == ApplyAll(Apply(m, ops[0]), ops[1..])
  {
  }

  /** The last operation that concerns a key decides what is under it; without one, nothing changes there. */
  lemma {:induction false} LastOperationDecides<K, V>(m: map<K, V>, ops: seq<Op<K, V>>, k: K, i: nat)
    requires i <= |ops| && forall j | i <= j < |ops| :: ops[j] != ClearOp && ops[j].key != k
    requires i > 0 ==> ops[i - 1] == ClearOp || ops[i - 1].key == k
    ensures var after := ApplyAll(m, ops);
            if i == 0 then (k in after <==> k in m) && (k in m ==> after[k] == m[k])
            else (k in after <==> ops[i - 1].PutOp?) && (k in after ==> after[k] == ops[i - 1].value)
    decreases |ops|
  {
    if ops != [] {
      LastOperationDecides(Apply(m, ops[0]), ops[1..], k, if i == 0 then 0 else i - 1);
    }
  }

  /** How many operations there are up to the last one that concerns a key */
  ghost function UpToLast<K, V>(ops: seq<Op<K, V>>, k: K): (i: nat)
    ensures i <= |ops| && forall j | i <= j < |ops| :: ops[j] != ClearOp && ops[j].key != k
    ensures i > 0 ==> ops[i - 1] == ClearOp || ops[i - 1].key == k
    decreases |ops|
  {
    if ops == [] then 0 else
      var last := |ops| - 1;
      if ops[last] == ClearOp || ops[last].key == k then |ops| else UpToLast(ops[..last], k)
  }

  /**
   * A value that was put stays if nothing later concerns its key, and so does one that was there before; and
   * whatever is there in the end got there in one of these ways.
   */
  lemma Outcome<K, V>(m: map<K, V>, ops: seq<Op<K, V>>)
    ensures forall i | 0 <= i < |ops| && ops[i].PutOp? &&
                       (forall j | i < j < |ops| :: ops[j] != ClearOp && ops[j].key != ops[i].key) ::
              ops[i].key in ApplyAll(m, ops) && ApplyAll(m, ops)[ops[i].key] == ops[i].value
    ensures forall k | k in m && (forall j | 0 <= j < |ops| :: ops[j] != ClearOp && ops[j].key != k) ::
              k in ApplyAll(m, ops) && ApplyAll(m, ops)[k] == m[k]
    ensures forall k | k in ApplyAll(m, ops) ::
              || (exists i | 0 <= i < |ops| :: ops[i] == PutOp(k, ApplyAll(m, ops)[k]) &&
                   forall j | i < j < |ops| :: ops[j] != ClearOp && ops[j].key != k)
              || (k in m && ApplyAll(m, ops)[k] == m[k] &&
                  forall j | 0 <= j < |ops| :: ops[j] != ClearOp && ops[j].key != k)
  {
    forall i | 0 <= i < |ops| && ops[i].PutOp? &&
               (forall j | i < j < |ops| :: ops[j] != ClearOp && ops[j].key != ops[i].key)
      ensures ops[i].key in ApplyAll(m, ops) && ApplyAll(m, ops)[ops[i].key] == ops[i].value
    {
      LastOperationDecides(m, ops, ops[i].key, i + 1);
    }
    forall k | k in m && (forall j | 0 <= j < |ops| :: ops[j] != ClearOp && ops[j].key != k)
      ensures k in ApplyAll(m, ops) && ApplyAll(m, ops)[k] == m[k]
    {
      LastOperationDecides(m, ops, k, 0);
    }
    forall k | k in ApplyAll(m, ops)
      ensures || (exists i | 0 <= i < |ops| :: ops[i] == PutOp(k, ApplyAll(m, ops)[k]) &&
                   forall j | i < j < |ops| :: ops[j] != ClearOp && ops[j].key != k)
              || (k in m && ApplyAll(m, ops)[k] == m[k] &&
                  forall j | 0 <= j < |ops| :: ops[j] != ClearOp && ops[j].key != k)
    {
      LastOperationDecides(m, ops, k, UpToLast(ops, k));
    }
    hide ApplyAll, UpToLast;
  }

  // ---------- Two maps ----------

  /** The operations addressed to one of two maps */
  function Share<K, V>(ops: seq<(bool, Op<K, V>)>, side: bool): seq<Op<K, V>>
    decreases |ops|
  {
    if ops == [] then []
    else (if ops[0].0 == side then [ops[0].1] else []) + Share(ops[1..], side)
  }

  lemma NoShare<K, V>(m: map<K, V>, ops: seq<(bool, Op<K, V>)>, side: bool)
    requires ops == []
    ensures ApplyAll(m, Share(ops, side)) == m
  {
  }

  lemma ShareStep<K, V>(m: map<K, V>, ops: seq<(bool, Op<K, V>)>, side: bool)
    requires ops != []
    ensures ApplyAll(m, Share(ops, side)) ==
            ApplyAll(if ops[0].0 == side then Apply(m, ops[0].1) else m, Share(ops[1..], side))
  {
    var rest := Share(ops[1..], side);
    assert ops[0].0 == side ==> ([ops[0].1] + rest)[1..] == rest;
    assert ops[0].0 != side ==> Share(ops, side) == rest;
  }

  /** The shares of a run are put together from those of its parts, and an operation belongs to its own side only. */
  lemma {:induction false} ShareLaws<K, V>(first: seq<(bool, Op<K, V>)>, second: seq<(bool, Op<K, V>)>,
                                           side: bool, op: Op<K, V>)
    ensures Share(first + second, side) == Share(first, side) + Share(second, side)
    ensures Share([(side, op)], side) == [op] && Share([(side, op)], !side) == []
    decreases |first|
  {
    var none: seq<(bool, Op<K, V>)> := [(side, op)][1..];
    assert none == [];
    if first == [] {
      assert first + second == second;
    } else {
      assert (first + second)[1..] == first[1..] + second;
      ShareLaws(first[1..], second, side, op);
    }
  }

  // ---------- Any number of maps ----------

  /** An operation on one map of the pool, or a new map cloned from one; a missing map is left out. */
  datatype PoolOp<K, V> = On(at: nat, op: Op<K, V>) | CloneOf(at: nat)

  /** What an operation does to the maps of the pool */
  ghost function ApplyTo<K, V>(maps: seq<map<K, V>>, op: PoolOp<K, V>): seq<map<K, V>> {
    if op.at >= |maps| then maps
    else match op
      case On(i, o) => maps[i := Apply(maps[i], o)]
      case CloneOf(i) => maps + [maps[i]]
  }

  ghost function ApplyAllTo<K, V>(maps: seq<map<K, V>>, ops: seq<PoolOp<K, V>>): seq<map<K, V>>
    decreases |ops|
  {
    if ops == [] then maps else ApplyAllTo(ApplyTo(maps, ops[0]), ops[1..])
  }

  lemma NoOpsLeft<K, V>(maps: seq<map<K, V>>, ops: seq<PoolOp<K, V>>)
    requires ops == []
    ensures ApplyAllTo(maps, ops) == maps
  {
  }

  lemma NextOp<K, V>(maps: seq<map<K, V>>, ops: seq<PoolOp<K, V>>)
    requires ops != []
    ensures ApplyAllTo(maps, ops) == ApplyAllTo(ApplyTo(maps, ops[0]), ops[1..])
  {
  }

  /** The operations addressed to the map at `i` */
  function Own<K, V>(ops: seq<PoolOp<K, V>>, i: nat): seq<Op<K, V>>
    decreases |ops|
  {
    if ops == [] then []
    else (if ops[0].On? && ops[0].at == i then [ops[0].op] else []) + Own(ops[1..], i)
  }

  /** As for `Share`: what is addressed to other maps, or clones one, is nobody's own. */
  lemma {:induction false} OwnLaws<K, V>(first: seq<PoolOp<K, V>>, second: seq<PoolOp<K, V>>, i: nat, op: PoolOp<K, V>)
    ensures Own(first + second, i) == Own(first, i) + Own(second, i)
    ensures op.On? && op.at == i ==> Own([op], i) == [op.op]
    ensures op.CloneOf? || op.at != i ==> Own([op], i) == []
    decreases |first|
  {
    var none: seq<PoolOp<K, V>> := [op][1..];
    assert none == [];
    if first == [] {
      assert first + second == second;
    } else {
      assert (first + second)[1..] == first[1..] + second;
      OwnLaws(first[1..], second, i, op);
    }
  }

  lemma {:induction false} PoolConcat<K, V>(maps: seq<map<K, V>>, first: seq<PoolOp<K, V>>, second: seq<PoolOp<K, V>>)
    ensures ApplyAllTo(maps, first + second) == ApplyAllTo(ApplyAllTo(maps, first), second)
    decreases |first|
  {
    if first == [] {
      assert first + second == second;
    } else {
      assert (first + second)[1..] == first[1..] + second;
      PoolConcat(ApplyTo(maps, first[0]), first[1..], second);
    }
  }

  /** Every map follows the operations addressed to it, and no others. */
  lemma {:induction false} FollowsItsOwn<K, V>(maps: seq<map<K, V>>, ops: seq<PoolOp<K, V>>, i: nat)
    requires i < |maps|
    ensures i < |ApplyAllTo(maps, ops)| && ApplyAllTo(maps, ops)[i] == ApplyAll(maps[i], Own(ops, i))
    decreases |ops|
  {
    if ops != [] {
      var mine, rest := ops[0].On? && ops[0].at == i, Own(ops[1..], i);
      FollowsItsOwn(ApplyTo(maps, ops[0]), ops[1..], i);
      assert mine ==> ([ops[0].op] + rest)[1..] == rest;
      assert !mine ==> Own(ops, i) == rest;
    }
  }

  /** The maps after the first `n` operations of a run */
  ghost function After<K, V>(maps: seq<map<K, V>>, ops: seq<PoolOp<K, V>>, n: nat): seq<map<K, V>>
    requires n <= |ops|
  {
    ApplyAllTo(maps, ops[..n])
  }

  /** A clone starts as what it was cloned from was at that step, and follows its own operations from then on. */
  lemma CloneFollowsItsOwn<K, V>(maps: seq<map<K, V>>, ops: seq<PoolOp<K, V>>, step: nat)
    requires step < |ops| && ops[step].CloneOf? && ops[step].at < |After(maps, ops, step)|
    ensures var before, after := After(maps, ops, step), ApplyAllTo(maps, ops);
            |before| < |after| &&
            after[|before|] == ApplyAll(before[ops[step].at], Own(ops[step + 1..], |before|))
  {
    var before := After(maps, ops, step);
    assert ops == ops[..step] + ops[step..] && ops[step..][1..] == ops[step + 1..];
    PoolConcat(maps, ops[..step], ops[step..]);
    FollowsItsOwn(before + [before[ops[step].at]], ops[step + 1..], |before|);
  }

  /** Each step adds one map when it clones one that is there, and none otherwise. */
  lemma PoolGrows<K, V>(maps: seq<map<K, V>>, ops: seq<PoolOp<K, V>>, step: nat)
    requires step < |ops|
    ensures |After(maps, ops, 0)| == |maps| && After(maps, ops, |ops|) == ApplyAllTo(maps, ops)
    ensures |After(maps, ops, step + 1)| == |After(maps, ops, step)| +
            if ops[step].CloneOf? && ops[step].at < |After(maps, ops, step)| then 1 else 0
  {
    var before := After(maps, ops, step);
    assert ops[..step + 1] == ops[..step] + [ops[step]] && ops[..|ops|] == ops;
    PoolConcat(maps, ops[..step], [ops[step]]);
    assert [ops[step]][1..] == [];
    assert ApplyAllTo(before, [ops[step]]) == ApplyTo(before, ops[step]);
    assert |After(maps, ops, 0)| == |maps|;
  }
}
