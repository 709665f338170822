/** internal/ca/self_signed.go, computeTTL: the lifetime arithmetic, in int64 nanoseconds. */
module Ttl {
  import opened Prelude

  /** The longest TTL in seconds whose nanoseconds fit an int64. */
  const MAX_SECONDS: int := (TWO_63 - 1) / SECOND

  function Wrap(x: int): Int64 { (x + TWO_63) % (2 * TWO_63) - TWO_63 }

  /** time.Duration(n) * time.Second, which wraps around. */
  function Seconds(n: Int64): Int64 { Wrap(n * SECOND) }

  /** time.Until, which saturates. */
  function Until(instant: int, now: int): Int64
  {
    Max(-TWO_63, Min(instant - now, TWO_63 - 1))
  }

  datatype Limits = Limits(defaultTtl: Int64, maxTtl: Int64)

  ghost predicate Positive(l: Limits) { l.defaultTtl > 0 && l.maxTtl > 0 }

  /** The effective lifetime in nanoseconds; `remaining` is None for the zero platform expiry. */
  function Effective(l: Limits, requested: Int64, entry: Int64, remaining: Option<Int64>): Int64
  {
    var e0: Int64 := if requested > 0 then Seconds(requested) else l.defaultTtl;
    var e1: Int64 := if entry > 0 && Seconds(entry) < e0 then Seconds(entry) else e0;
    var e2: Int64 := if remaining.Some? && 0 < remaining.value < e1 then remaining.value else e1;
    var e3: Int64 := if e2 > l.maxTtl then l.maxTtl else e2;
    if e3 <= 0 then l.defaultTtl else e3
  }

  /** Duration.Seconds truncated to an int. */
  function ComputeTtl(l: Limits, requested: Int64, entry: Int64, remaining: Option<Int64>): Int64
  {
    TruncDiv(Effective(l, requested, entry, remaining), SECOND)
  }

  /** The bounds that are present, in exact nanoseconds: a request (or else the default), an entry
      TTL, a platform expiry still ahead, and the maximum. A past platform expiry is no bound. */
  ghost function Bounds(l: Limits, requested: Int64, entry: Int64, remaining: Option<Int64>): set<int>
  {
    {if requested > 0 then requested * SECOND else l.defaultTtl, l.maxTtl}
    + (if entry > 0 then {entry * SECOND} else {})
    + (if remaining.Some? && remaining.value > 0 then {remaining.value} else {})
  }

  ghost predicate IsLeast(x: int, s: set<int>) { x in s && forall y <- s :: x <= y }

  lemma WrapIsIdentity(x: int)
    requires -TWO_63 <= x < TWO_63
    ensures Wrap(x) == x
  {
  }

  lemma NoOverflow(n: Int64)
    requires 0 <= n <= MAX_SECONDS
    ensures Seconds(n) == n * SECOND
  {
  }

  lemma TruncatedSecondsFit(d: Int64)
    ensures Seconds(TruncDiv(d, SECOND)) == TruncDiv(d, SECOND) * SECOND
  {
  }

  /** Without overflow the result is the least present bound, rounded down to seconds. */
  lemma LifetimeIsLeastBound(l: Limits, requested: Int64, entry: Int64, remaining: Option<Int64>)
    requires Positive(l) && requested <= MAX_SECONDS && entry <= MAX_SECONDS
    ensures IsLeast(Effective(l, requested, entry, remaining), Bounds(l, requested, entry, remaining))
    ensures ComputeTtl(l, requested, entry, remaining) == Effective(l, requested, entry, remaining) / SECOND
    ensures 0 <= ComputeTtl(l, requested, entry, remaining) * SECOND <= l.maxTtl
  {
    if requested > 0 { NoOverflow(requested); }
    if entry > 0 { NoOverflow(entry); }
  }

  /** A platform expiry already in the past is ignored, not clamped to: the lifetime is as without one. */
  lemma PastExpiryIgnored(l: Limits, requested: Int64, entry: Int64, expiry: int, now: int)
    requires expiry <= now
    ensures ComputeTtl(l, requested, entry, Some(Until(expiry, now))) == ComputeTtl(l, requested, entry, None)
  {
  }

  /** A platform expiry still ahead bounds the lifetime, so the SVID ends no later than it. */
  lemma FutureExpiryBounds(l: Limits, requested: Int64, entry: Int64, expiry: int, now: int)
    requires Positive(l) && requested <= MAX_SECONDS && entry <= MAX_SECONDS && now < expiry
    ensures now + ComputeTtl(l, requested, entry, Some(Until(expiry, now))) * SECOND <= expiry
  {
    var left := Until(expiry, now);
    LifetimeIsLeastBound(l, requested, entry, Some(left));
    assert left in Bounds(l, requested, entry, Some(left)) && left <= expiry - now;
  }

  /** With wrap-around and all: never negative and never above both settings. */
  lemma LifetimeInRange(l: Limits, requested: Int64, entry: Int64, remaining: Option<Int64>)
    requires Positive(l)
    ensures 0 <= ComputeTtl(l, requested, entry, remaining)
    ensures ComputeTtl(l, requested, entry, remaining) * SECOND <= Max(l.defaultTtl, l.maxTtl)
  {
  }

  /** Both callers pass no entry TTL and no platform expiry. For them a request too long for an int64
      is the only trouble: the lifetime is the least bound exactly when the request fits, or wraps
      to something no less than the maximum, or wraps to nothing while the default is the maximum. */
  lemma CallersLifetimeExactly(l: Limits, requested: Int64)
    requires Positive(l)
    ensures IsLeast(Effective(l, requested, 0, None), Bounds(l, requested, 0, None))
       <==> (requested <= MAX_SECONDS
             || Seconds(requested) >= l.maxTtl
             || (Seconds(requested) <= 0 && l.defaultTtl == l.maxTtl))
  {
    if requested > MAX_SECONDS {
      assert requested * SECOND > l.maxTtl;
    } else if requested > 0 {
      NoOverflow(requested);
    }
  }

  /** The first request that overflows is answered with the default instead of the maximum. */
  lemma OverflowFallsToDefault(l: Limits)
    requires Positive(l)
    ensures Effective(l, MAX_SECONDS + 1, 0, None) == l.defaultTtl
    ensures IsLeast(Effective(l, MAX_SECONDS + 1, 0, None), Bounds(l, MAX_SECONDS + 1, 0, None))
       <==> l.defaultTtl == l.maxTtl
  {
  }

  /** With settings of at least a second, a caller gets no lifetime at all exactly when the request wraps
      around to less than a second, as 18446744074 s does. */
  lemma NoLifetimeExactly(l: Limits, requested: Int64)
    requires l.defaultTtl >= SECOND && l.maxTtl >= SECOND
    ensures ComputeTtl(l, requested, 0, None) == 0 <==> requested > 0 && 0 < Seconds(requested) < SECOND
    ensures ComputeTtl(l, 18_446_744_074, 0, None) == 0
  {
  }

  /** It exceeds the maximum exactly when a wrapped request falls back to a larger default. */
  lemma ExceedsMaximumExactly(l: Limits, requested: Int64)
    requires Positive(l)
    ensures Effective(l, requested, 0, None) > l.maxTtl
       <==> requested > 0 && Seconds(requested) <= 0 && l.defaultTtl > l.maxTtl
  {
  }

  ghost predicate NoPresentBoundLower(r1: Int64, r2: Int64, e1: Int64, e2: Int64, p1: Option<Int64>, p2: Option<Int64>)
  {
    && (0 < r1 <= r2 || (r1 <= 0 && r2 <= 0))
    && (0 < e1 <= e2 || (e1 <= 0 && e2 <= 0))
    && (if p1.Some? && p1.value > 0 then p2.Some? && p1.value <= p2.value else p2.None? || p2.value <= 0)
  }

  /** Without overflow the lifetime is monotone in every present bound. */
  lemma LifetimeMonotone(l1: Limits, l2: Limits, r1: Int64, r2: Int64, e1: Int64, e2: Int64,
                         p1: Option<Int64>, p2: Option<Int64>)
    requires Positive(l1) && l1.defaultTtl <= l2.defaultTtl && l1.maxTtl <= l2.maxTtl
    requires r2 <= MAX_SECONDS && e2 <= MAX_SECONDS && NoPresentBoundLower(r1, r2, e1, e2, p1, p2)
    ensures ComputeTtl(l1, r1, e1, p1) <= ComputeTtl(l2, r2, e2, p2)
  {
    var x, y := Effective(l1, r1, e1, p1), Effective(l2, r2, e2, p2);
    LifetimeIsLeastBound(l1, r1, e1, p1);
    LifetimeIsLeastBound(l2, r2, e2, p2);
    if r1 > 0 { NoOverflow(r1); NoOverflow(r2); }
    if e1 > 0 { NoOverflow(e1); NoOverflow(e2); }
    assert x <= y;
  }
}
