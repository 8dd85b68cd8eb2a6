/**
 * Conversion of Rust `RangeBounds` (a start and an end bound, each unbounded,
 * included or excluded) into the half-open ranges the solver works with.
 */
module Bounds {
  import opened Versions

  /** `core::ops::Bound` over version triples. */
  datatype Bound = Unbounded | Included(v: SemVer) | Excluded(v: SemVer)

  /** v lies at or after the start bound. */
  predicate AdmitsStart(start: Bound, v: SemVer) {
    match start
    case Unbounded => true
    case Included(s) => Le(s, v)
    case Excluded(s) => Less(s, v)
  }

  /** v lies at or before the end bound. */
  predicate AdmitsEnd(end: Bound, v: SemVer) {
    match end
    case Unbounded => true
    case Included(e) => Le(v, e)
    case Excluded(e) => Less(v, e)
  }

  /** The bounds that `range_from_bounds` bumps do not have the largest patch number. */
  predicate NoBumpOverflow(start: Bound, end: Bound) {
    && (start.Excluded? ==> start.v.patch + 1 < U32_LIMIT)
    && (end.Included? ==> end.v.patch + 1 < U32_LIMIT)
  }

  /** `range_from_bounds`: the nine start/end combinations. */
  function RangeFromBounds(start: Bound, end: Bound): (r: Range)
    requires NoBumpOverflow(start, end)
    ensures forall v :: Contains(r, v) <==> AdmitsStart(start, v) && AdmitsEnd(end, v)
  {
    match (start, end)
    case (Unbounded, Unbounded) => Any()
    case (Unbounded, Excluded(e)) => StrictlyLowerThan(e)
    case (Unbounded, Included(e)) => StrictlyLowerThan(Bump(e))
    case (Included(s), Unbounded) => HigherThan(s)
    case (Included(s), Included(e)) => Between(s, Bump(e))
    case (Included(s), Excluded(e)) => Between(s, e)
    case (Excluded(s), Unbounded) => HigherThan(Bump(s))
    case (Excluded(s), Included(e)) => Between(Bump(s), Bump(e))
    case (Excluded(s), Excluded(e)) => Between(Bump(s), e)
  }

  /** An inclusive end keeps e and stops before bump(e). */
  lemma InclusiveEnd(start: Bound, e: SemVer)
    requires NoBumpOverflow(start, Included(e)) && AdmitsStart(start, e)
    ensures Contains(RangeFromBounds(start, Included(e)), e)
    ensures !Contains(RangeFromBounds(start, Included(e)), Bump(e))
  {
  }

  /** An exclusive start drops s and begins at bump(s). */
  lemma ExclusiveStart(s: SemVer, end: Bound)
    requires NoBumpOverflow(Excluded(s), end) && AdmitsEnd(end, Bump(s))
    ensures !Contains(RangeFromBounds(Excluded(s), end), s)
    ensures Contains(RangeFromBounds(Excluded(s), end), Bump(s))
  {
  }
}
