/**
 * Semantic versions (pubgrub's `SemanticVersion`) and the single-interval
 * version ranges (pubgrub's `Range<SemanticVersion>`) this layer builds.
 */
module Versions {
  import opened Wrappers

  const U32_LIMIT: int := 0x1_0000_0000

  /** Rust's `u32`. */
  type u32 = x: int | 0 <= x < U32_LIMIT

  /** A version triple; the derived Rust ordering is lexicographic. */
  datatype SemVer = SemVer(major: u32, minor: u32, patch: u32)

  predicate Less(a: SemVer, b: SemVer) {
    || a.major < b.major
    || (a.major == b.major && a.minor < b.minor)
    || (a.major == b.major && a.minor == b.minor && a.patch < b.patch)
  }

  predicate Le(a: SemVer, b: SemVer) {
    a == b || Less(a, b)
  }

  /** `V::lowest()`. */
  const Zero: SemVer := SemVer(0, 0, 0)

  lemma LessTotal(a: SemVer, b: SemVer)
    ensures a == b || Less(a, b) || Less(b, a)
    ensures !(Less(a, b) && Less(b, a))
  {
  }

  /** `bump_patch`: the next version, with nothing in between. */
  function Bump(v: SemVer): (r: SemVer)
    requires v.patch + 1 < U32_LIMIT
    ensures Less(v, r)
    ensures forall w :: Less(v, w) <==> Le(r, w)
  {
    SemVer(v.major, v.minor, v.patch + 1)
  }

  /** `bump_major`: the first version of the next major line. */
  function BumpMajor(v: SemVer): (r: SemVer)
    requires v.major + 1 < U32_LIMIT
    ensures Less(v, r)
    ensures forall w: SemVer :: Less(w, r) <==> w.major <= v.major
  {
    SemVer(v.major + 1, 0, 0)
  }

  /** `bucket_version`: the least version of v's major line. */
  function BucketVersion(v: SemVer): (r: SemVer)
    ensures r.major == v.major && Le(r, v)
    ensures forall w: SemVer :: w.major == v.major ==> Le(r, w)
  {
    SemVer(v.major, 0, 0)
  }

  /** Range representation: empty, or [lo, hi) where a missing hi means unbounded. */
  datatype Interval = Empty | Span(lo: SemVer, hi: Option<SemVer>)

  /** Every pubgrub constructor used here yields a normalised single interval. */
  type Range = r: Interval | r.Empty? || r.hi.None? || Less(r.lo, r.hi.value) witness Empty

  predicate Contains(r: Range, v: SemVer) {
    match r
    case Empty => false
    case Span(lo, hi) => Le(lo, v) && (hi.None? || Less(v, hi.value))
  }

  /** A range is one interval: it holds every version between two of its members. */
  lemma ContainsConvex(r: Range, a: SemVer, v: SemVer, b: SemVer)
    requires Contains(r, a) && Contains(r, b) && Le(a, v) && Le(v, b)
    ensures Contains(r, v)
  {
    assert Le(r.lo, v) by {
      LessTotal(r.lo, v);
    }
  }

  /** Normalised ranges with the same versions are the same value. */
  lemma {:induction false} RangeExtensional(r1: Range, r2: Range)
    requires forall v :: Contains(r1, v) <==> Contains(r2, v)
    ensures r1 == r2
  {
    if r1.Span? {
      assert Contains(r1, r1.lo);
    }
    if r2.Span? {
      assert Contains(r2, r2.lo);
    }
    if r1.Span? && r2.Span? {
      LessTotal(r1.lo, r2.lo);
      assert r1.lo == r2.lo;
      match (r1.hi, r2.hi)
      case (None, None) =>
      case (Some(h1), None) =>
        assert Contains(r2, h1);
      case (None, Some(h2)) =>
        assert Contains(r1, h2);
      case (Some(h1), Some(h2)) =>
        LessTotal(h1, h2);
        if Less(h1, h2) {
          assert Contains(r2, h1);
        } else if Less(h2, h1) {
          assert Contains(r1, h2);
        }
    }
  }

  /** `Range::any()`, which is `higher_than(V::lowest())`. */
  function Any(): (r: Range)
    ensures forall v :: Contains(r, v)
  {
    Span(Zero, None)
  }

  /** `Range::higher_than(v)`. */
  function HigherThan(v: SemVer): (r: Range)
    ensures forall w :: Contains(r, w) <==> Le(v, w)
  {
    Span(v, None)
  }

  /** `Range::strictly_lower_than(v)`: empty when v is the lowest version. */
  function StrictlyLowerThan(v: SemVer): (r: Range)
    ensures forall w :: Contains(r, w) <==> Less(w, v)
  {
    if v == Zero then Empty else Span(Zero, Some(v))
  }

  /** `Range::between(a, b)`: empty unless a < b. */
  function Between(a: SemVer, b: SemVer): (r: Range)
    ensures forall w :: Contains(r, w) <==> Le(a, w) && Less(w, b)
  {
    if Less(a, b) then Span(a, Some(b)) else Empty
  }

  /** `Range::exact(v)`, which is `[v, v.bump())`. */
  function Exact(v: SemVer): (r: Range)
    requires v.patch + 1 < U32_LIMIT
    ensures forall w :: Contains(r, w) <==> w == v
  {
    Span(v, Some(Bump(v)))
  }

  function MaxOf(a: SemVer, b: SemVer): SemVer {
    if Less(a, b) then b else a
  }

  function MinHi(a: Option<SemVer>, b: Option<SemVer>): Option<SemVer> {
    match (a, b)
    case (None, _) => b
    case (_, None) => a
    case (Some(x), Some(y)) => if Less(x, y) then a else b
  }

  /** `Range::intersection`. */
  function Intersection(r1: Range, r2: Range): (r: Range)
    ensures forall v :: Contains(r, v) <==> Contains(r1, v) && Contains(r2, v)
  {
    match (r1, r2)
    case (Empty, _) => Empty
    case (_, Empty) => Empty
    case (Span(lo1, hi1), Span(lo2, hi2)) =>
      var lo := MaxOf(lo1, lo2);
      var hi := MinHi(hi1, hi2);
      if hi.Some? && !Less(lo, hi.value) then Empty else Span(lo, hi)
  }

  /** `Range::lowest_version`. */
  function Lowest(r: Range): (l: Option<SemVer>)
    ensures l.None? <==> forall v :: !Contains(r, v)
    ensures l.Some? ==> Contains(r, l.value) && forall v :: Contains(r, v) ==> Le(l.value, v)
  {
    match r
    case Empty => None
    case Span(lo, _) =>
      assert Contains(r, lo);
      Some(lo)
  }

  /** Every element is strictly older than the one before it. */
  predicate StrictlyDescending(s: seq<SemVer>) {
    forall i, j :: 0 <= i < j < |s| ==> Less(s[j], s[i])
  }

  predicate IsMax(m: SemVer, s: set<SemVer>) {
    m in s && forall x :: x in s ==> Le(x, m)
  }

  lemma {:induction false} MaxExists(s: set<SemVer>)
    requires s != {}
    ensures exists m :: IsMax(m, s)
    decreases |s|
  {
    var x :| x in s;
    if s != {x} {
      MaxExists(s - {x});
      var m :| IsMax(m, s - {x});
      LessTotal(x, m);
      if Less(m, x) {
        forall y | y in s ensures Le(y, x) {
          if y != x {
            assert Le(y, m);
          }
        }
        assert IsMax(x, s);
      } else {
        assert IsMax(m, s);
      }
    } else {
      assert IsMax(x, s);
    }
  }

  /** The versions of a set, newest first (a `BTreeMap`'s keys walked in reverse). */
  function Descending(keys: set<SemVer>): (r: seq<SemVer>)
    ensures StrictlyDescending(r)
    ensures forall v :: v in r <==> v in keys
    ensures |r| == |keys|
    decreases |keys|
  {
    if keys == {} then []
    else
      MaxExists(keys);
      var m :| IsMax(m, keys);
      var rest := Descending(keys - {m});
      assert forall v :: v in rest ==> Less(v, m);
      [m] + rest
  }
}
