/**
 * Major-version buckets: the range of one bucket, collapsing a version
 * sequence to one representative per bucket (`bucket_versions`), and the
 * test whether a range stays inside one bucket (`single_bucket_spanned`).
 */
module Buckets {
  import opened Wrappers
  import opened Versions

  /** `Range::between((b, 0, 0), (b + 1, 0, 0))`: exactly the versions of major line b. */
  function BucketRange(b: u32): (r: Range)
    requires b + 1 < U32_LIMIT
    ensures forall v :: Contains(r, v) <==> v.major == b
  {
    Between(SemVer(b, 0, 0), SemVer(b + 1, 0, 0))
  }

  /** What `bucket_versions` still emits for `vs` when `current` is the last bucket it emitted. */
  function CollapseFrom(vs: seq<SemVer>, current: Option<SemVer>): seq<SemVer>
    decreases |vs|
  {
    if vs == [] then []
    else
      var b := BucketVersion(vs[0]);
      if Some(b) != current then [b] + CollapseFrom(vs[1..], Some(b))
      else CollapseFrom(vs[1..], current)
  }

  /** The whole output of `bucket_versions`. */
  function Collapse(vs: seq<SemVer>): seq<SemVer> {
    CollapseFrom(vs, None)
  }

  /**
   * `bucket_versions`: each version becomes its bucket version, which is
   * dropped when it equals the bucket emitted last.
   */
  method BucketVersions(vs: seq<SemVer>) returns (out: seq<SemVer>)
    ensures out == Collapse(vs)
    ensures forall x :: x in out <==> exists i :: 0 <= i < |vs| && x == BucketVersion(vs[i])
  {
    var current: Option<SemVer> := None;
    out := [];
    var i := 0;
    while i < |vs|
      invariant 0 <= i <= |vs|
      invariant out + CollapseFrom(vs[i..], current) == Collapse(vs)
    {
      assert vs[i..][1..] == vs[i + 1..];
      var vBucket := Some(BucketVersion(vs[i]));
      if vBucket != current {
        current := vBucket;
        out := out + [vBucket.value];
      }
      i := i + 1;
    }
    assert vs[i..] == [];
    CollapseMembers(vs);
  }

  /** Everything emitted is the bucket version of some input. */
  lemma {:induction false} CollapseSound(vs: seq<SemVer>, current: Option<SemVer>, x: SemVer)
    requires x in CollapseFrom(vs, current)
    ensures exists i :: 0 <= i < |vs| && x == BucketVersion(vs[i])
    decreases |vs|
  {
    var b := BucketVersion(vs[0]);
    if x != b {
      var next := if Some(b) != current then Some(b) else current;
      CollapseSound(vs[1..], next, x);
      var i :| 0 <= i < |vs[1..]| && x == BucketVersion(vs[1..][i]);
      assert vs[1..][i] == vs[i + 1];
    }
  }

  /** Every input's bucket is emitted, unless it is the bucket already current. */
  lemma {:induction false} CollapseComplete(vs: seq<SemVer>, current: Option<SemVer>, i: nat)
    requires i < |vs|
    ensures BucketVersion(vs[i]) in CollapseFrom(vs, current) || current == Some(BucketVersion(vs[i]))
    decreases |vs|
  {
    var b := BucketVersion(vs[0]);
    if i > 0 {
      var next := if Some(b) != current then Some(b) else current;
      assert vs[1..][i - 1] == vs[i];
      CollapseComplete(vs[1..], next, i - 1);
    }
  }

  /** The output holds exactly the bucket versions of the input. */
  lemma CollapseMembers(vs: seq<SemVer>)
    ensures forall x :: x in Collapse(vs) <==> exists i :: 0 <= i < |vs| && x == BucketVersion(vs[i])
  {
    forall x | x in Collapse(vs) ensures exists i :: 0 <= i < |vs| && x == BucketVersion(vs[i]) {
      CollapseSound(vs, None, x);
    }
    forall i | 0 <= i < |vs| ensures BucketVersion(vs[i]) in Collapse(vs) {
      CollapseComplete(vs, None, i);
    }
  }

  /** No emitted bucket repeats the one just before it (nor the current one). */
  lemma {:induction false} CollapseAdjacentDistinct(vs: seq<SemVer>, current: Option<SemVer>)
    ensures var r := CollapseFrom(vs, current);
      && (|r| > 0 ==> Some(r[0]) != current)
      && forall i :: 0 <= i < |r| - 1 ==> r[i] != r[i + 1]
    decreases |vs|
  {
    if vs != [] {
      var b := BucketVersion(vs[0]);
      var next := if Some(b) != current then Some(b) else current;
      CollapseAdjacentDistinct(vs[1..], next);
    }
  }

  /** a is not after b in the chosen direction (descending when `desc`). */
  predicate Ordered(a: SemVer, b: SemVer, desc: bool) {
    if desc then Le(b, a) else Le(a, b)
  }

  /** a is strictly before b in the chosen direction. */
  predicate StrictlyOrdered(a: SemVer, b: SemVer, desc: bool) {
    if desc then Less(b, a) else Less(a, b)
  }

  /** The caller's hypothesis of `bucket_versions`: ascending or descending input. */
  predicate Monotone(vs: seq<SemVer>, desc: bool) {
    forall i, j :: 0 <= i < j < |vs| ==> Ordered(vs[i], vs[j], desc)
  }

  predicate StrictlyMonotone(vs: seq<SemVer>, desc: bool) {
    forall i, j :: 0 <= i < j < |vs| ==> StrictlyOrdered(vs[i], vs[j], desc)
  }

  lemma {:induction false} CollapseMonotoneFrom(vs: seq<SemVer>, current: Option<SemVer>, desc: bool)
    requires Monotone(vs, desc)
    ensures var r := CollapseFrom(vs, current);
      && StrictlyMonotone(r, desc)
      && (vs != [] ==> forall x :: x in r ==> Ordered(BucketVersion(vs[0]), x, desc))
    decreases |vs|
  {
    if vs != [] {
      var b := BucketVersion(vs[0]);
      var rest := vs[1..];
      var r' := CollapseFrom(rest, Some(b));
      var next := if Some(b) != current then Some(b) else current;
      assert Monotone(rest, desc) by {
        forall i, j | 0 <= i < j < |rest| ensures Ordered(rest[i], rest[j], desc) {
          assert rest[i] == vs[i + 1] && rest[j] == vs[j + 1];
        }
      }
      CollapseMonotoneFrom(rest, next, desc);
      CollapseMonotoneFrom(rest, Some(b), desc);
      CollapseAdjacentDistinct(rest, Some(b));
      if rest != [] {
        assert Ordered(vs[0], vs[1], desc);
        forall x | x in r' ensures StrictlyOrdered(b, x, desc) {
          var k :| 0 <= k < |r'| && r'[k] == x;
          assert Ordered(BucketVersion(rest[0]), r'[0], desc);
          assert r'[0] != b;
          if k > 0 {
            assert StrictlyOrdered(r'[0], r'[k], desc);
          }
        }
      }
    }
  }

  /**
   * On ascending or descending input the output lists every bucket present
   * exactly once, in the order first met, strictly ordered the same way.
   */
  lemma CollapseMonotone(vs: seq<SemVer>, desc: bool)
    requires Monotone(vs, desc)
    ensures StrictlyMonotone(Collapse(vs), desc)
    ensures forall i, j :: 0 <= i < j < |Collapse(vs)| ==> Collapse(vs)[i].major != Collapse(vs)[j].major
    ensures forall x :: x in Collapse(vs) <==> exists i :: 0 <= i < |vs| && x == BucketVersion(vs[i])
  {
    CollapseMonotoneFrom(vs, None, desc);
    CollapseMembers(vs);
    var r := Collapse(vs);
    forall i, j | 0 <= i < j < |r| ensures r[i].major != r[j].major {
      assert StrictlyOrdered(r[i], r[j], desc);
      CollapseSound(vs, None, r[i]);
      CollapseSound(vs, None, r[j]);
    }
  }

  /** Buckets 3, 3, 2, 2, 2, 1 (descending) collapse to 3.0.0, 2.0.0, 1.0.0. */
  lemma CollapseExample()
    ensures Collapse([SemVer(3, 1, 0), SemVer(3, 0, 0), SemVer(2, 5, 1), SemVer(2, 1, 0), SemVer(2, 0, 0), SemVer(1, 4, 0)])
         == [SemVer(3, 0, 0), SemVer(2, 0, 0), SemVer(1, 0, 0)]
  {
  }

  /** Without ordered input a bucket can be emitted twice. */
  lemma CollapseUnorderedRepeats()
    ensures Collapse([SemVer(1, 0, 0), SemVer(2, 0, 0), SemVer(1, 1, 0)])
         == [SemVer(1, 0, 0), SemVer(2, 0, 0), SemVer(1, 0, 0)]
  {
  }

  /** The lowest version of a non-empty range has a major that `bump_major` can raise. */
  predicate BumpableLow(r: Range) {
    r.Span? ==> r.lo.major + 1 < U32_LIMIT
  }

  /**
   * `single_bucket_spanned`: the major of the range's lowest version when
   * the range equals its intersection with [lowest, next major); otherwise None.
   */
  function SingleBucketSpanned(r: Range): (b: Option<u32>)
    requires BumpableLow(r)
    ensures r.Empty? ==> b.None?
    ensures b.Some? ==> r.Span? && b.value == r.lo.major
    ensures b.Some? ==> forall v :: Contains(r, v) ==> v.major == b.value
  {
    match Lowest(r)
    case None => None
    case Some(low) =>
      var bucketRange := Between(low, BumpMajor(low));
      var inter := Intersection(r, bucketRange);
      if r == inter then Some(low.major) else None
  }

  /**
   * For a non-empty range: Some(m) exactly when every version of the range
   * has major m, the major of its lowest version; None exactly when two of
   * its versions have different majors.
   */
  lemma SingleBucketSpannedIff(r: Range)
    requires BumpableLow(r) && r.Span?
    ensures SingleBucketSpanned(r).Some? <==> forall v :: Contains(r, v) ==> v.major == r.lo.major
    ensures SingleBucketSpanned(r).None? <==>
      exists v, w :: Contains(r, v) && Contains(r, w) && v.major != w.major
  {
    var low := r.lo;
    assert Contains(r, low);
    var bucketRange := Between(low, BumpMajor(low));
    var inter := Intersection(r, bucketRange);
    if forall v :: Contains(r, v) ==> v.major == low.major {
      RangeExtensional(r, inter);
    }
    if SingleBucketSpanned(r).None? {
      var v: SemVer :| Contains(r, v) && !Contains(inter, v) by {
        if forall v :: Contains(r, v) ==> Contains(inter, v) {
          RangeExtensional(r, inter);
        }
      }
      assert Contains(r, low) && v.major != low.major;
    }
  }
}
