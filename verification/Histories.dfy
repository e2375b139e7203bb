/** Whole runs: sequences of operations on one tree, or on a tree and its clone. */
module Histories {
  import opened Bytes
  import opened Tries
  import opened Shapes
  import opened Canon
  import opened Listings
  import opened Trees
  import opened Runs

  method Execute<V>(t: Tree<V>, op: Op<Key, V>)
    requires t.Valid()
    modifies t, Foot(t.shape)
    ensures t.Valid() && t.contents == Apply(old(t.contents), op)
    ensures fresh(Foot(t.shape) - old(Foot(t.shape)))
  {
    match op
    case PutOp(key, value) => t.Put(key, value);
    case DeleteOp(key) => var _ := t.Delete(key);
    case ClearOp => t.Clear();
  }

  /** One operation on one tree */
  method Perform<V>(t: Tree<V>, op: Op<Key, V>)
    requires t.Valid()
    modifies t, Foot(t.shape)
    ensures t.Valid()
    ensures op.PutOp? ==> t.contents == old(t.contents)[op.key := op.value]
    ensures op.DeleteOp? ==> t.contents == old(t.contents) - {op.key}
    ensures op.ClearOp? ==> t.contents == map[]
    ensures fresh(Foot(t.shape) - old(Foot(t.shape)))
  {
    hide Tree.Valid;
    Execute(t, op);
  }

  /** Nothing that an operation on `t` writes is read by `u`: the prefix buffers they may share are never written. */
  lemma Separation<V>(t: Tree<V>, u: Tree<V>)
    requires t.Valid() && u.Valid() && t.ApartFrom(u)
    ensures ({t as object} + Foot(t.shape)) !! ({u as object} + Foot(u.shape) + Bufs(u.shape))
    ensures ({u as object} + Foot(u.shape)) !! ({t as object} + Foot(t.shape) + Bufs(t.shape))
  {
  }

  /** An operation on `t` leaves a separate tree `u` as it was, and separate. */
  method PerformBeside<V>(t: Tree<V>, op: Op<Key, V>, ghost u: Tree<V>)
    requires t.Valid() && u.Valid() && t.ApartFrom(u)
    modifies t, Foot(t.shape)
    ensures t.Valid() && t.contents == Apply(old(t.contents), op)
    ensures fresh(Foot(t.shape) - old(Foot(t.shape)))
    ensures u.Valid() && t.ApartFrom(u) && u.contents == old(u.contents) && u.shape == old(u.shape)
  {
    hide Tree.Valid, Apply;
    Separation(t, u);
    Execute(t, op);
  }

  /** Any interleaving of operations on two separate trees: each tree sees its own operations only. */
  method Interleave<V>(t: Tree<V>, u: Tree<V>, ops: seq<(bool, Op<Key, V>)>)
    requires t.Valid() && u.Valid() && t.ApartFrom(u)
    modifies t, u, Foot(t.shape), Foot(u.shape)
    ensures t.Valid() && u.Valid() && t.ApartFrom(u)
    ensures t.contents == ApplyAll(old(t.contents), Share(ops, true))
    ensures u.contents == ApplyAll(old(u.contents), Share(ops, false))
    ensures fresh(Foot(t.shape) - old(Foot(t.shape))) && fresh(Foot(u.shape) - old(Foot(u.shape)))
    decreases |ops|
  {
    hide Tree.Valid, ApplyAll, Apply, Share;
    if ops == [] {
      NoShare(t.contents, ops, true);
      NoShare(u.contents, ops, false);
      return;
    }
    ShareStep(t.contents, ops, true);
    ShareStep(u.contents, ops, false);
    if ops[0].0 {
      PerformBeside(t, ops[0].1, u);
    } else {
      PerformBeside(u, ops[0].1, t);
    }
    Interleave(t, u, ops[1..]);
  }

  /** A clone starts with the same map; from then on neither tree notices what is done to the other. */
  method CloneAndDiverge<V>(t: Tree<V>, ops: seq<(bool, Op<Key, V>)>) returns (copy: Tree<V>)
    requires t.Valid()
    modifies t, Foot(t.shape)
    ensures t.Valid() && copy.Valid() && fresh(copy) && t.ApartFrom(copy)
    ensures t.contents == ApplyAll(old(t.contents), Share(ops, true))
    ensures copy.contents == ApplyAll(old(t.contents), Share(ops, false))
  {
    hide Tree.Valid, ApplyAll, Share, SameShape;
    copy := t.Clone();
    Interleave(t, copy, ops);
  }

  /**
   * Every run keeps a tree valid and takes its map through the operations one by one. So a value is there in the end
   * just when a Put left it there, or it was there before, and nothing later concerned its key.
   */
  method Run<V>(t: Tree<V>, ops: seq<Op<Key, V>>)
    requires t.Valid()
    modifies t, Foot(t.shape)
    ensures forall i | 0 <= i < |ops| && ops[i].PutOp? &&
                       (forall j | i < j < |ops| :: ops[j] != ClearOp && ops[j].key != ops[i].key) ::
              ops[i].key in t.contents && t.contents[ops[i].key] == ops[i].value
    ensures forall k | k in old(t.contents) && (forall j | 0 <= j < |ops| :: ops[j] != ClearOp && ops[j].key != k) ::
              k in t.contents && t.contents[k] == old(t.contents)[k]
    ensures forall k | k in t.contents ::
              || (exists i | 0 <= i < |ops| :: ops[i] == PutOp(k, t.contents[k]) &&
                   forall j | i < j < |ops| :: ops[j] != ClearOp && ops[j].key != k)
              || (k in old(t.contents) && t.contents[k] == old(t.contents)[k] &&
                  forall j | 0 <= j < |ops| :: ops[j] != ClearOp && ops[j].key != k)
    ensures t.Valid() && t.contents == ApplyAll(old(t.contents), ops)
    ensures fresh(Foot(t.shape) - old(Foot(t.shape)))
  {
    hide *;
    Outcome(t.contents, ops);
    RunAll(t, ops);
  }

  method RunAll<V>(t: Tree<V>, ops: seq<Op<Key, V>>)
    requires t.Valid()
    modifies t, Foot(t.shape)
    ensures t.Valid() && t.contents == ApplyAll(old(t.contents), ops)
    ensures fresh(Foot(t.shape) - old(Foot(t.shape)))
    decreases |ops|
  {
    hide Tree.Valid, ApplyAll, Apply;
    if ops == [] {
      NoOps(t.contents, ops);
      return;
    }
    FirstOp(t.contents, ops);
    Execute(t, ops[0]);
    RunAll(t, ops[1..]);
  }

  /** Every run from the empty tree ends in a valid tree that holds what was put and not touched since. */
  method Replay<V>(ops: seq<Op<Key, V>>) returns (t: Tree<V>)
    ensures forall i | 0 <= i < |ops| && ops[i].PutOp? &&
                       (forall j | i < j < |ops| :: ops[j] != ClearOp && ops[j].key != ops[i].key) ::
              ops[i].key in t.contents && t.contents[ops[i].key] == ops[i].value
    ensures forall k | k in t.contents ::
              exists i | 0 <= i < |ops| :: ops[i] == PutOp(k, t.contents[k]) &&
                forall j | i < j < |ops| :: ops[j] != ClearOp && ops[j].key != k
    ensures fresh(t) && t.Valid() && t.contents == ApplyAll(map[], ops)
  {
    hide *;
    t := new Tree();
    Run(t, ops);
  }

  /** Two trees that stand for the same map have the same shape, whatever their histories. */
  lemma SameMapSameShape<V>(t: Tree<V>, u: Tree<V>)
    requires t.Valid() && u.Valid() && t.contents == u.contents
    ensures SameShape(t.shape, u.shape)
  {
    HistoryIndependence(t.shape, u.shape, []);
  }

  lemma WhatValidSays<V>(t: Tree<V>)
    requires t.Valid()
    ensures Canonical(t.shape, []) && Entries(t.shape) == Pairs(t.contents)
  {
  }

  /** Putting a new key and deleting it again restores the shape. */
  method PutThenDelete<V>(t: Tree<V>, key: Key, value: V)
    requires t.Valid() && key !in t.contents
    modifies t, Foot(t.shape)
    ensures t.Valid() && t.contents == old(t.contents) && SameShape(old(t.shape), t.shape)
  {
    hide Tree.Valid, SameShape, Canonical, Entries;
    ghost var shape := t.shape;
    WhatValidSays(t);
    t.Put(key, value);
    var _ := t.Delete(key);
    WhatValidSays(t);
    assert t.contents == old(t.contents);
    HistoryIndependence(shape, t.shape, []);
  }

  /** Bounds on every valid tree: inner nodes, size classes, and the count of entries. */
  lemma ValidTreeIsCompact<V>(t: Tree<V>)
    requires t.Valid()
    ensures Sized(t.shape)
    ensures t.contents != map[] ==> InnerNodes(t.shape) <= |t.contents| - 1
    ensures t.contents == map[] ==> InnerNodes(t.shape) == 0
  {
    CanonicalIsSized(t.shape, []);
    t.FlatIsSorted();
    if t.shape != Nil { SpaceBound(t.shape, []); NonEmpty(t.shape, []); }
  }

  /** What a valid tree looks like, told from its map alone. */
  lemma ValidTreeIsDescribed<V>(t: Tree<V>)
    requires t.Valid()
    ensures Describes(t.shape, Pairs(t.contents), [])
  {
    CanonicalIsDescribed(t.shape, []);
  }
}
