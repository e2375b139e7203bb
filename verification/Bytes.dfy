/** Byte strings and the order in which the tree keeps its keys. */
module Bytes {
  type byte = x: int | 0 <= x < 256
  type Key = seq<byte>

  datatype Option<+T> = None | Some(value: T)

  /** `bytes.Compare(a, b) < 0`: the first differing byte decides, and a proper prefix comes first. */
  predicate Less(a: Key, b: Key)
    decreases a
  {
    b != [] && (a == [] || a[0] < b[0] || (a[0] == b[0] && Less(a[1..], b[1..])))
  }

  /** `bytes.Compare(a, b) <= 0` */
  predicate AtMost(a: Key, b: Key) {
    a == b || Less(a, b)
  }

  /** The byte after the longest common prefix decides, and a key that ends there comes first. */
  lemma {:induction false} FirstDifference(a: Key, b: Key, n: nat)
    requires n <= |a| && n <= |b| && a[..n] == b[..n]
    requires n == |a| || n == |b| || a[n] != b[n]
    ensures Less(a, b) <==> n < |b| && (n == |a| || a[n] < b[n])
  {
    if n > 0 {
      assert a[0] == a[..n][0] && a[1..][..n - 1] == a[..n][1..] && b[1..][..n - 1] == b[..n][1..];
      FirstDifference(a[1..], b[1..], n - 1);
    }
  }

  lemma {:induction false} LessIrreflexive(a: Key)
    ensures !Less(a, a)
  {
    if a != [] { LessIrreflexive(a[1..]); }
  }

  lemma {:induction false} LessTotal(a: Key, b: Key)
    ensures Less(a, b) || a == b || Less(b, a)
    decreases a
  {
    if a != [] && b != [] && a[0] == b[0] {
      LessTotal(a[1..], b[1..]);
      assert a == [a[0]] + a[1..] && b == [b[0]] + b[1..];
    }
  }

  lemma {:induction false} LessTransitive(a: Key, b: Key, c: Key)
    requires Less(a, b) && Less(b, c)
    ensures Less(a, c)
    decreases a
  {
    if a != [] && a[0] == b[0] == c[0] { LessTransitive(a[1..], b[1..], c[1..]); }
  }

  lemma LessAsymmetric(a: Key, b: Key)
    requires Less(a, b)
    ensures !Less(b, a) && a != b
  {
    LessIrreflexive(a);
    if Less(b, a) { LessTransitive(a, b, a); }
  }

  /** Exactly one of `Less(a, b)` and `AtMost(b, a)` holds. */
  lemma LessOrAtMost(a: Key, b: Key)
    ensures Less(a, b) <==> !AtMost(b, a)
  {
    LessTotal(a, b);
    LessIrreflexive(a);
    if Less(a, b) { LessAsymmetric(a, b); }
  }

  lemma AtMostLess(a: Key, b: Key, c: Key)
    requires AtMost(a, b) && Less(b, c)
    ensures Less(a, c)
  {
    if a != b { LessTransitive(a, b, c); }
  }

  lemma LessAtMost(a: Key, b: Key, c: Key)
    requires Less(a, b) && AtMost(b, c)
    ensures Less(a, c)
  {
    if b != c { LessTransitive(a, b, c); }
  }

  lemma {:induction false} PrefixAtMost(p: Key, k: Key)
    requires p <= k
    ensures AtMost(p, k)
  {
    if p != [] {
      PrefixAtMost(p[1..], k[1..]);
      assert p == [p[0]] + p[1..] && k == [k[0]] + k[1..];
    }
  }

  /** A longer key continues a prefix of it with one particular byte. */
  lemma NextByte(p: Key, k: Key)
    requires p <= k && |p| < |k|
    ensures p + [k[|p|]] <= k
    ensures forall b: byte :: p + [b] <= k ==> b == k[|p|]
  {
    forall b: byte | p + [b] <= k ensures b == k[|p|] {
      assert (p + [b])[|p|] == b;
    }
  }

  /** Two keys that share `p` and then differ are ordered by the byte after `p`. */
  lemma {:induction false} LessByBranch(p: Key, a: Key, b: Key)
    requires p <= a && p <= b && |p| < |b|
    requires |p| == |a| || a[|p|] < b[|p|]
    ensures Less(a, b)
    decreases p
  {
    if p != [] { LessByBranch(p[1..], a[1..], b[1..]); }
  }

  /** A common prefix does not affect the order. */
  lemma {:induction false} LessUnderPrefix(p: Key, a: Key, b: Key)
    ensures Less(p + a, p + b) <==> Less(a, b)
    decreases p
  {
    if p == [] {
      assert p + a == a && p + b == b;
    } else {
      LessUnderPrefix(p[1..], a, b);
      assert (p + a)[1..] == p[1..] + a && (p + b)[1..] == p[1..] + b;
    }
  }

  /** Length of the longest common prefix of `a` and `b`. */
  method LongestCommonPrefix(a: Key, b: Key) returns (n: nat)
    ensures n <= |a| && n <= |b| && a[..n] == b[..n]
    ensures n == |a| || n == |b| || a[n] != b[n]
  {
    n := 0;
    while n < |a| && n < |b| && a[n] == b[n]
      invariant n <= |a| && n <= |b| && a[..n] == b[..n]
    {
      n := n + 1;
    }
  }

  /** The depth after the prefix, when the key continues with it */
  function ConsumePrefix(prefix: Key, key: Key, depth: nat): (d: Option<nat>)
    requires depth <= |key|
    ensures d.Some? <==> key[..depth] + prefix <= key
    ensures d.Some? ==> d.value == depth + |prefix| <= |key| && key[..d.value] == key[..depth] + prefix
  {
    var end := depth + |prefix|;
    assert end <= |key| ==> key[..end] == key[..depth] + key[depth..end];
    if |prefix| == 0 then Some(depth)
    else if end > |key| || prefix != key[depth..end] then None
    else Some(end)
  }

  // ---------- Enumerations of edge bytes ----------

  function Reverse<T>(s: seq<T>): (r: seq<T>)
    ensures |r| == |s|
  {
    if s == [] then [] else Reverse(s[1..]) + [s[0]]
  }

  lemma {:induction false} ReverseConcat<T>(s: seq<T>, r: seq<T>)
    ensures Reverse(s + r) == Reverse(r) + Reverse(s)
  {
    if s == [] {
      assert s + r == r;
    } else {
      ReverseConcat(s[1..], r);
      assert (s + r)[1..] == s[1..] + r;
    }
  }

  ghost predicate Ascending(bs: seq<byte>) {
    |bs| <= 1 || (bs[0] < bs[1] && Ascending(bs[1..]))
  }

  lemma {:induction false} AscendingPair(bs: seq<byte>, i: nat, j: nat)
    requires Ascending(bs) && i < j < |bs|
    ensures bs[i] < bs[j]
  {
    if i > 0 {
      AscendingPair(bs[1..], i - 1, j - 1);
    } else if j > 1 {
      AscendingPair(bs[1..], 0, j - 1);
    }
  }

  lemma NotBefore(bs: seq<byte>, b: byte)
    requires Ascending(bs) && bs != [] && b < bs[0]
    ensures b !in bs
  {
    forall i | 0 < i < |bs| ensures b < bs[i] { AscendingPair(bs, 0, i); }
  }

  function Inserted<T>(s: seq<T>, i: nat, x: T): seq<T>
    requires i <= |s|
  {
    s[..i] + [x] + s[i..]
  }

  function Removed<T>(s: seq<T>, i: nat): seq<T>
    requires i < |s|
  {
    s[..i] + s[i + 1..]
  }

  lemma {:induction false} AscendingInserted(bs: seq<byte>, i: nat, b: byte)
    requires Ascending(bs) && i <= |bs|
    requires (i > 0 ==> bs[i - 1] < b) && (i < |bs| ==> b < bs[i])
    ensures Ascending(Inserted(bs, i, b))
  {
    if i == 0 {
      assert Inserted(bs, i, b) == [b] + bs;
    } else {
      AscendingInserted(bs[1..], i - 1, b);
      assert Inserted(bs, i, b)[1..] == Inserted(bs[1..], i - 1, b);
    }
  }

  lemma {:induction false} AscendingRemoved(bs: seq<byte>, i: nat)
    requires Ascending(bs) && i < |bs|
    ensures Ascending(Removed(bs, i))
  {
    if i == 0 {
      assert Removed(bs, i) == bs[1..];
    } else {
      AscendingRemoved(bs[1..], i - 1);
      assert Removed(bs, i)[1..] == Removed(bs[1..], i - 1);
      if |bs| > 2 { AscendingPair(bs, 0, 2); }
    }
  }

  lemma BytesAreFew(s: set<byte>)
    ensures |s| <= 256
  {
    BytesBelow(s, 256);
  }

  lemma {:induction false} BytesBelow(s: set<byte>, hi: nat)
    requires hi <= 256 && forall b | b in s :: b < hi
    ensures |s| <= hi
  {
    if hi == 0 {
      assert forall b: byte :: b !in s;
    } else {
      BytesBelow(s - {hi - 1}, hi - 1);
    }
  }

  /** The members of `s` that are at least `lo`, in ascending order. */
  ghost function SortedFrom(s: set<byte>, lo: nat): seq<byte>
    requires lo <= 256
    decreases 256 - lo
  {
    if lo == 256 then []
    else (if lo in s then [lo] else []) + SortedFrom(s, lo + 1)
  }

  ghost function Sorted(s: set<byte>): seq<byte> {
    SortedFrom(s, 0)
  }

  lemma {:induction false} SortedFromMembers(s: set<byte>, lo: nat)
    requires lo <= 256
    ensures forall b: byte :: b in SortedFrom(s, lo) <==> b in s && b >= lo
    decreases 256 - lo
  {
    if lo < 256 { SortedFromMembers(s, lo + 1); }
  }

  lemma {:induction false} SortedFromAscending(s: set<byte>, lo: nat)
    requires lo <= 256
    ensures Ascending(SortedFrom(s, lo))
    decreases 256 - lo
  {
    if lo < 256 {
      var rest := SortedFrom(s, lo + 1);
      SortedFromAscending(s, lo + 1);
      SortedFromMembers(s, lo + 1);
      assert rest == [] || rest[0] in rest;
      assert ([lo] + rest)[1..] == rest;
      assert lo !in s ==> SortedFrom(s, lo) == rest;
    }
  }

  lemma SortedIsAscending(s: set<byte>)
    ensures Ascending(Sorted(s)) && forall b: byte :: b in Sorted(s) <==> b in s
  {
    SortedFromAscending(s, 0);
    SortedFromMembers(s, 0);
  }

  /** An ascending list is determined by its members. */
  lemma {:induction false} AscendingIsSortedFrom(bs: seq<byte>, s: set<byte>, lo: nat)
    requires lo <= 256 && Ascending(bs) && forall b: byte :: b in bs <==> b in s && b >= lo
    ensures bs == SortedFrom(s, lo)
    decreases 256 - lo
  {
    assert bs == [] || bs[0] in bs;
    if lo == 256 {
    } else if lo in s {
      var i :| 0 <= i < |bs| && bs[i] == lo;
      if i > 0 { AscendingPair(bs, 0, i); }
      forall b: byte ensures b in bs[1..] <==> b in s && b >= lo + 1 {
        if b in bs[1..] {
          var j :| 1 <= j < |bs| && bs[j] == b;
          AscendingPair(bs, 0, j);
        }
      }
      AscendingIsSortedFrom(bs[1..], s, lo + 1);
    } else {
      AscendingIsSortedFrom(bs, s, lo + 1);
    }
  }

  lemma AscendingIsSorted(bs: seq<byte>, s: set<byte>)
    requires Ascending(bs) && forall b: byte :: b in bs <==> b in s
    ensures bs == Sorted(s)
  {
    AscendingIsSortedFrom(bs, s, 0);
  }

  // ---------- Bounds of a half-open interval ----------

  /** `keyInRange`: a missing bound imposes no constraint on its side. */
  predicate InWindow(k: Key, start: Option<Key>, end: Option<Key>) {
    && (start.Some? ==> !Less(k, start.value))
    && (end.Some? ==> Less(k, end.value))
  }

  /** `subtreeBeforeWithByte`: the whole subtree under `path + [extra]` lies below `bound`. */
  predicate SubtreeBefore(path: Key, extra: byte, bound: Option<Key>) {
    bound.Some? &&
    var b := bound.value;
    if |b| <= |path| then Less(path[..|b|], b)
    else if path != b[..|path|] then Less(path, b[..|path|])
    else extra < b[|path|]
  }

  /** `subtreeAtOrAfterWithByte`: the whole subtree under `path + [extra]` lies at or above `bound`. */
  predicate SubtreeAtOrAfter(path: Key, extra: byte, bound: Option<Key>) {
    bound.Some? &&
    var b := bound.value;
    if |b| <= |path| then !Less(path[..|b|], b)
    else if path != b[..|path|] then Less(b[..|path|], path)
    else if extra != b[|path|] then extra > b[|path|]
    else |b| <= |path| + 1
  }

  /** Once `p` is below `q` at a differing byte, no extension of either changes that. */
  lemma {:induction false} LessStaysUnderExtension(p: Key, q: Key, k: Key, l: Key)
    requires Less(p, q) && !(p <= q) && p <= k && q <= l
    ensures Less(k, l)
    decreases p
  {
    if p[0] == q[0] {
      assert p == [p[0]] + p[1..] && q == [q[0]] + q[1..];
      LessStaysUnderExtension(p[1..], q[1..], k[1..], l[1..]);
    }
  }

  /** The two pruning tests, read as statements about the subtree's least member. */
  lemma PruningByLeastMember(path: Key, extra: byte, bound: Key)
    ensures SubtreeBefore(path, extra, Some(bound)) <==> Less(path + [extra], bound) && !(path + [extra] <= bound)
    ensures SubtreeAtOrAfter(path, extra, Some(bound)) <==> !Less(path + [extra], bound)
  {
    var least := path + [extra];
    if |bound| <= |path| {
      var cut := path[..|bound|];
      assert cut <= least;
      LessIrreflexive(bound);
      if Less(cut, bound) {
        assert cut <= bound ==> cut == bound;
        LessStaysUnderExtension(cut, bound, least, bound);
      } else {
        LessTotal(cut, bound);
        PrefixAtMost(cut, least);
        if AtMost(bound, cut) && cut != bound { LessAtMost(bound, cut, least); }
        LessOrAtMost(least, bound);
      }
    } else {
      var cut := bound[..|path|];
      assert cut <= bound && path <= least;
      LessTotal(path, cut);
      if path != cut {
        if Less(path, cut) {
          LessAsymmetric(path, cut);
          LessStaysUnderExtension(path, cut, least, bound);
        } else {
          LessAsymmetric(cut, path);
          LessStaysUnderExtension(cut, path, bound, least);
          LessAsymmetric(bound, least);
        }
      } else {
        var rest := bound[|path|..];
        assert bound == path + rest;
        LessUnderPrefix(path, [extra], rest);
        assert least <= bound <==> extra == rest[0];
        assert Less([extra], rest) <==> extra < rest[0] || (extra == rest[0] && |rest| > 1) by {
          assert Less([], rest[1..]) <==> |rest| > 1;
          assert [extra][1..] == [];
        }
      }
    }
  }

  /** `SubtreeBefore` is exact: it holds just when every key under `path + [extra]` is below the bound. */
  lemma SubtreeBeforeIsExact(path: Key, extra: byte, bound: Key)
    ensures SubtreeBefore(path, extra, Some(bound)) <==> forall k :: path + [extra] <= k ==> Less(k, bound)
  {
    var least := path + [extra];
    PruningByLeastMember(path, extra, bound);
    if SubtreeBefore(path, extra, Some(bound)) {
      forall k | least <= k ensures Less(k, bound) {
        LessStaysUnderExtension(least, bound, k, bound);
      }
    } else {
      LessIrreflexive(bound);
      assert exists k :: least <= k && !Less(k, bound) by {
        if least <= bound { assert !Less(bound, bound); } else { assert !Less(least, bound); }
      }
    }
  }

  /** `SubtreeAtOrAfter` is exact: it holds just when no key under `path + [extra]` is below the bound. */
  lemma SubtreeAtOrAfterIsExact(path: Key, extra: byte, bound: Key)
    ensures SubtreeAtOrAfter(path, extra, Some(bound)) <==> forall k :: path + [extra] <= k ==> !Less(k, bound)
  {
    var least := path + [extra];
    PruningByLeastMember(path, extra, bound);
    if SubtreeAtOrAfter(path, extra, Some(bound)) {
      forall k | least <= k ensures !Less(k, bound) {
        PrefixAtMost(least, k);
        LessOrAtMost(least, bound);
        if Less(k, bound) { AtMostLess(least, k, bound); }
      }
    } else {
      assert least <= least && Less(least, bound);
    }
  }

  lemma BelowBound(path: Key, extra: byte, bound: Option<Key>, k: Key)
    requires SubtreeBefore(path, extra, bound) && path + [extra] <= k
    ensures bound.Some? && Less(k, bound.value)
  {
    var b := bound.value;
    assert bound == Some(b);
    PruningByLeastMember(path, extra, b);
    LessStaysUnderExtension(path + [extra], b, k, b);
  }

  lemma NotBelowBound(path: Key, extra: byte, bound: Option<Key>, k: Key)
    requires SubtreeAtOrAfter(path, extra, bound) && path + [extra] <= k
    ensures bound.Some? && !Less(k, bound.value)
  {
    var b := bound.value;
    assert bound == Some(b);
    PruningByLeastMember(path, extra, b);
    PrefixAtMost(path + [extra], k);
    if Less(k, b) { AtMostLess(path + [extra], k, b); }
  }
}
