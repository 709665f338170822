/** Shared vocabulary: optional values, Go's durations, powers of two, and runs of a labelled transition
    system. */
module Prelude {

  datatype Option<+T> = None | Some(value: T)

  // Durations and instants are counted in nanoseconds, as time.Duration counts them.
  const SECOND: int := 1_000_000_000
  const MINUTE: int := 60 * SECOND
  const HOUR: int := 60 * MINUTE

  const TWO_63: int := 0x8000_0000_0000_0000

  /** Go's int and time.Duration on a 64-bit platform. */
  type Int64 = x: int | -TWO_63 <= x < TWO_63

  function Min(a: int, b: int): int { if a <= b then a else b }

  function Max(a: int, b: int): int { if a >= b then a else b }

  /** Go's `/` on integers, which truncates toward zero; the divisor is positive in every use. */
  function TruncDiv(a: int, b: int): int
    requires b > 0
  {
    if a >= 0 then a / b else -(-a / b)
  }

  function Pow2(k: nat): nat { if k == 0 then 1 else 2 * Pow2(k - 1) }

  lemma {:induction false} Pow2Positive(k: nat)
    ensures Pow2(k) >= 1
  {
    if k == 0 {
    } else {
      Pow2Positive(k - 1);
    }
  }
}

/** A transition system is an enabling condition and a total next-state function over actions.
    Everything that may happen next is an action, so one list of actions is one interleaving. */
module Runs {

  ghost predicate Legal<S(!new), A(!new)>(enabled: (S, A) -> bool, next: (S, A) -> S, s: S, acts: seq<A>)
    decreases |acts|
  {
    acts == [] || (enabled(s, acts[0]) && Legal(enabled, next, next(s, acts[0]), acts[1..]))
  }

  ghost function After<S(!new), A(!new)>(next: (S, A) -> S, s: S, acts: seq<A>): S
    decreases |acts|
  {
    if acts == [] then s else After(next, next(s, acts[0]), acts[1..])
  }

  /** One action followed by a run from where it leads. */
  lemma Cons<S(!new), A(!new)>(enabled: (S, A) -> bool, next: (S, A) -> S, s: S, a: A, rest: seq<A>)
    ensures After(next, s, [a] + rest) == After(next, next(s, a), rest)
    ensures Legal(enabled, next, s, [a] + rest) <==> enabled(s, a) && Legal(enabled, next, next(s, a), rest)
  {
    assert ([a] + rest)[1..] == rest;
  }

  /** A state predicate that every enabled action keeps holds at the end of every legal run,
      hence, since prefixes of legal runs are legal, at every reachable state. */
  lemma {:induction false} Invariance<S(!new), A(!new)>(
    enabled: (S, A) -> bool, next: (S, A) -> S, inv: S -> bool, s: S, acts: seq<A>)
    requires inv(s)
    requires forall t, a {:trigger next(t, a)} :: inv(t) && enabled(t, a) ==> inv(next(t, a))
    requires Legal(enabled, next, s, acts)
    ensures inv(After(next, s, acts))
    decreases |acts|
  {
    if acts == [] {
    } else {
      Invariance(enabled, next, inv, next(s, acts[0]), acts[1..]);
    }
  }

  /** A legal run is legal in any system that enables what it does. */
  lemma {:induction false} Transfer<S(!new), A(!new)>(
    enabled: (S, A) -> bool, other: (S, A) -> bool, next: (S, A) -> S, s: S, acts: seq<A>)
    requires Legal(enabled, next, s, acts)
    requires forall t, a :: a in acts && enabled(t, a) ==> other(t, a)
    ensures Legal(other, next, s, acts)
    decreases |acts|
  {
    if acts == [] {
    } else {
      assert acts[0] in acts;
      Transfer(enabled, other, next, next(s, acts[0]), acts[1..]);
    }
  }

  /** Runs compose: a legal run followed by a legal run from where it ended is legal. */
  lemma {:induction false} Append<S(!new), A(!new)>(
    enabled: (S, A) -> bool, next: (S, A) -> S, s: S, first: seq<A>, second: seq<A>)
    ensures After(next, s, first + second) == After(next, After(next, s, first), second)
    ensures Legal(enabled, next, s, first + second) <==>
            Legal(enabled, next, s, first) && Legal(enabled, next, After(next, s, first), second)
    decreases |first|
  {
    if first == [] {
      assert first + second == second;
    } else {
      assert (first + second)[1..] == first[1..] + second;
      Append(enabled, next, next(s, first[0]), first[1..], second);
    }
  }
}
