/** sdk/go/x509source.go, lines 129-151: how often the refresh loop retries while every attempt fails. */
module RetrySchedule {
  import opened Prelude
  import opened Runs
  import opened CredentialSource
  import opened CredentialRuns

  function CeilDiv(a: int, b: nat): int
    requires b > 0
  {
    (a + b - 1) / b
  }

  function CeilLog2(r: int): nat
    decreases r
  {
    if r <= 1 then 0 else 1 + CeilLog2((r + 1) / 2)
  }

  /** CeilLog2 is the ceiling of the binary logarithm: the least exponent whose power reaches r. */
  lemma {:induction false} CeilLog2IsLeast(r: int, n: nat)
    requires r >= 1
    ensures CeilLog2(r) <= n <==> r <= Pow2(n)
    decreases r
  {
    Pow2Positive(n);
    if r == 1 || n == 0 {
    } else {
      CeilLog2IsLeast((r + 1) / 2, n - 1);
    }
  }

  lemma {:induction false} CeilLog2Monotone(r: int, s: int)
    requires r <= s
    ensures CeilLog2(r) <= CeilLog2(s)
    decreases s
  {
    if s <= 1 {
    } else {
      CeilLog2Monotone((r + 1) / 2, (s + 1) / 2);
    }
  }

  lemma AtLeastOneMultiple(e: int, b: nat)
    ensures e >= 1 ==> e * b >= b
    ensures e <= -1 ==> e * b <= 0 - b
  {
  }

  lemma CeilDivBounds(a: int, b: nat)
    requires b > 0
    ensures (CeilDiv(a, b) - 1) * b < a <= CeilDiv(a, b) * b
  {
  }

  /** q is the ceiling of a / b when it is the least integer whose multiple reaches a. */
  lemma CeilDivIs(a: int, b: nat, q: int)
    requires b > 0 && (q - 1) * b < a <= q * b
    ensures CeilDiv(a, b) == q
  {
    var d := CeilDiv(a, b);
    CeilDivBounds(a, b);
    assert (d - q) * b == d * b - q * b;
    AtLeastOneMultiple(d - q, b);
  }

  lemma CeilDivTwice(a: int, b: nat)
    requires b > 0
    ensures CeilDiv(CeilDiv(a, 2), b) == CeilDiv(a, 2 * b)
  {
    var h := CeilDiv(a, 2);
    var q := CeilDiv(h, b);
    CeilDivBounds(h, b);
    var m, n := (q - 1) * b, q * b;
    assert m < h <= n && 2 * h - 1 <= a <= 2 * h;
    assert (q - 1) * (2 * b) == 2 * m && q * (2 * b) == 2 * n;
    CeilDivIs(a, 2 * b, q);
  }

  /** A refresh-loop iteration whose attempt fails at once. */
  function FailedCycle(remaining: int): seq<Action>
  {
    [ReadClock, Arm, Tick(Max(HalfLife(remaining), 0)), Fire, Fail]
  }

  function FailedCycles(remaining: int, k: nat): seq<Action>
    decreases k
  {
    if k == 0 then []
    else FailedCycle(remaining) + FailedCycles(remaining - HalfLife(remaining), k - 1)
  }

  /** The attempts started strictly before the held SVID expires. */
  ghost function LiveAttempts(w: World, acts: seq<Action>): nat
    decreases |acts|
  {
    if acts == [] then 0
    else
      var counted := if acts[0] == Fire && HoldsLeaf(w.fields) && w.now < Expiry(w.fields) then 1 else 0;
      counted + LiveAttempts(Next(w, acts[0]), acts[1..])
  }

  lemma LiveAttemptsCons(w: World, a: Action, rest: seq<Action>)
    ensures LiveAttempts(w, [a] + rest)
         == (if a == Fire && HoldsLeaf(w.fields) && w.now < Expiry(w.fields) then 1 else 0)
          + LiveAttempts(Next(w, a), rest)
  {
  }

  lemma CycleSteps(remaining: int, rest: seq<Action>)
    ensures FailedCycle(remaining) + rest
         == [ReadClock] + ([Arm] + ([Tick(Max(HalfLife(remaining), 0))] + ([Fire] + ([Fail] + rest))))
  {
  }

  ghost function AfterCycle(w: World, wait: int): World
  {
    World(w.now + wait, w.fields, Reading(w.now + wait), w.failed + 1)
  }

  lemma CycleLeadsOn(w: World, rest: seq<Action>)
    requires LoopContinues(w.fields) && w.loop.Reading?
    ensures
      var wait := HalfLife(Expiry(w.fields) - w.now);
      var cycle := FailedCycle(Expiry(w.fields) - w.now);
      && After(Next, w, cycle + rest) == After(Next, AfterCycle(w, wait), rest)
      && (Legal(Enabled, Next, w, cycle + rest) <==> Legal(Enabled, Next, AfterCycle(w, wait), rest))
  {
    var wait := HalfLife(Expiry(w.fields) - w.now);
    var w1 := Next(w, ReadClock);
    var w2 := Next(w1, Arm);
    var w3 := Next(w2, Tick(wait));
    var w4 := Next(w3, Fire);
    CycleSteps(Expiry(w.fields) - w.now, rest);
    Cons(Enabled, Next, w, ReadClock, [Arm] + ([Tick(wait)] + ([Fire] + ([Fail] + rest))));
    Cons(Enabled, Next, w1, Arm, [Tick(wait)] + ([Fire] + ([Fail] + rest)));
    Cons(Enabled, Next, w2, Tick(wait), [Fire] + ([Fail] + rest));
    Cons(Enabled, Next, w3, Fire, [Fail] + rest);
    Cons(Enabled, Next, w4, Fail, rest);
    assert Next(w4, Fail) == AfterCycle(w, wait);
  }

  lemma CycleAttemptsOnce(w: World, rest: seq<Action>)
    requires LoopContinues(w.fields) && w.loop.Reading?
    ensures
      var wait := HalfLife(Expiry(w.fields) - w.now);
      LiveAttempts(w, FailedCycle(Expiry(w.fields) - w.now) + rest)
      == (if w.now + wait < Expiry(w.fields) then 1 else 0) + LiveAttempts(AfterCycle(w, wait), rest)
  {
    var wait := HalfLife(Expiry(w.fields) - w.now);
    var w1 := Next(w, ReadClock);
    var w2 := Next(w1, Arm);
    var w3 := Next(w2, Tick(wait));
    var w4 := Next(w3, Fire);
    CycleSteps(Expiry(w.fields) - w.now, rest);
    LiveAttemptsCons(w, ReadClock, [Arm] + ([Tick(wait)] + ([Fire] + ([Fail] + rest))));
    LiveAttemptsCons(w1, Arm, [Tick(wait)] + ([Fire] + ([Fail] + rest)));
    LiveAttemptsCons(w2, Tick(wait), [Fire] + ([Fail] + rest));
    LiveAttemptsCons(w3, Fire, [Fail] + rest);
    LiveAttemptsCons(w4, Fail, rest);
    assert Next(w4, Fail) == AfterCycle(w, wait);
  }

  lemma HalvingOnce(left: int)
    requires left >= 2
    ensures left - HalfLife(left) == CeilDiv(left, 2) && 1 <= CeilDiv(left, 2) < left
    ensures CeilLog2(left) == 1 + CeilLog2(CeilDiv(left, 2))
  {
  }

  /** The exact retry schedule. From R nanoseconds of remaining life, after k attempts that fail at
      once ceil(R / 2^k) are left and all k attempts fell before expiry. This goes on for
      ceil(log2 R) attempts; then one nanosecond is left and only then the wait is no half-life. */
  lemma {:induction false} ExactRetrySchedule(w: World, k: nat)
    requires LoopContinues(w.fields) && w.loop.Reading? && w.now < Expiry(w.fields)
    requires k <= CeilLog2(Expiry(w.fields) - w.now)
    ensures Pow2(k) > 0
    ensures
      var left := Expiry(w.fields) - w.now;
      var acts := FailedCycles(left, k);
      var v := After(Next, w, acts);
      && Legal(Enabled, Next, w, acts) && LiveAttempts(w, acts) == k
      && v.fields == w.fields && v.loop.Reading?
      && Expiry(v.fields) - v.now == CeilDiv(left, Pow2(k)) >= 1
      && (k == CeilLog2(left) <==> Expiry(v.fields) - v.now == 1)
    decreases k
  {
    var left := Expiry(w.fields) - w.now;
    Pow2Positive(k);
    if k == 0 {
    } else {
      HalvingOnce(left);
      ExactRetrySchedule(AfterCycle(w, HalfLife(left)), k - 1);
      CycleLeadsOn(w, FailedCycles(CeilDiv(left, 2), k - 1));
      CycleAttemptsOnce(w, FailedCycles(CeilDiv(left, 2), k - 1));
      CeilDivTwice(left, Pow2(k - 1));
    }
  }

  /** The instants at which attempts start. */
  ghost function StartTimes(w: World, acts: seq<Action>): seq<int>
    decreases |acts|
  {
    if acts == [] then []
    else (if acts[0] == Fire then [w.now] else []) + StartTimes(Next(w, acts[0]), acts[1..])
  }

  lemma StartTimesCons(w: World, a: Action, rest: seq<Action>)
    ensures StartTimes(w, [a] + rest) == (if a == Fire then [w.now] else []) + StartTimes(Next(w, a), rest)
  {
    assert ([a] + rest)[1..] == rest;
  }

  lemma CycleStartsOnce(w: World, rest: seq<Action>)
    requires LoopContinues(w.fields) && w.loop.Reading?
    ensures
      var wait := HalfLife(Expiry(w.fields) - w.now);
      StartTimes(w, FailedCycle(Expiry(w.fields) - w.now) + rest)
      == [w.now + wait] + StartTimes(AfterCycle(w, wait), rest)
  {
    var wait := HalfLife(Expiry(w.fields) - w.now);
    var w1 := Next(w, ReadClock);
    var w2 := Next(w1, Arm);
    var w3 := Next(w2, Tick(wait));
    var w4 := Next(w3, Fire);
    CycleSteps(Expiry(w.fields) - w.now, rest);
    StartTimesCons(w, ReadClock, [Arm] + ([Tick(wait)] + ([Fire] + ([Fail] + rest))));
    StartTimesCons(w1, Arm, [Tick(wait)] + ([Fire] + ([Fail] + rest)));
    StartTimesCons(w2, Tick(wait), [Fire] + ([Fail] + rest));
    StartTimesCons(w3, Fire, [Fail] + rest);
    StartTimesCons(w4, Fail, rest);
    assert Next(w4, Fail) == AfterCycle(w, wait);
  }

  /** Once half of what is left is nothing, and so for ever after expiry, attempts that fail at once start
      exactly a second apart. */
  lemma {:induction false} ExpiredRetrySchedule(w: World, k: nat)
    requires LoopContinues(w.fields) && w.loop.Reading? && Expiry(w.fields) - w.now <= 1
    ensures
      var acts := FailedCycles(Expiry(w.fields) - w.now, k);
      && Legal(Enabled, Next, w, acts)
      && StartTimes(w, acts) == seq(k, i => w.now + (i + 1) * SECOND)
      && After(Next, w, acts).loop.Reading? && After(Next, w, acts).now == w.now + k * SECOND
    decreases k
  {
    if k == 0 {
    } else {
      var left := Expiry(w.fields) - w.now;
      var v := AfterCycle(w, SECOND);
      ExpiredRetrySchedule(v, k - 1);
      CycleLeadsOn(w, FailedCycles(left - SECOND, k - 1));
      CycleStartsOnce(w, FailedCycles(left - SECOND, k - 1));
      SecondsOn(w.now, k);
    }
  }

  lemma SecondsOn(now: int, k: nat)
    requires k > 0
    ensures [now + SECOND] + seq(k - 1, i => now + SECOND + (i + 1) * SECOND) == seq(k, i => now + (i + 1) * SECOND)
  {
  }

  /** How many attempts can still start before `expiry`, by where the loop stands. */
  ghost function Budget(w: World, expiry: int): nat
  {
    match w.loop
    case Reading(_) => CeilLog2(expiry - w.now)
    case Arming(_, wait) => AttemptsFrom(expiry - w.now - Max(wait, 0))
    case Waiting(fireAt) => AttemptsFrom(expiry - Max(fireAt, w.now))
    case Attempting(_) => CeilLog2(expiry - w.now)
    case Returned => 0
  }

  ghost function AttemptsFrom(left: int): nat
  {
    if left <= 0 then 0 else 1 + CeilLog2(left)
  }

  lemma HalvingSpendsOne(left: int)
    ensures AttemptsFrom(left - HalfLife(left)) <= CeilLog2(left)
  {
    if left >= 2 {
      assert HalfLife(left) == left / 2 && left - left / 2 == (left + 1) / 2;
    }
  }

  lemma TimeNeverAddsBudget(w: World, dt: nat, expiry: int)
    ensures Budget(Next(w, Tick(dt)), expiry) <= Budget(w, expiry)
  {
    var v := Next(w, Tick(dt));
    match w.loop
    case Reading(_) => CeilLog2Monotone(expiry - v.now, expiry - w.now);
    case Arming(_, wait) => CeilLog2Monotone(expiry - v.now - Max(wait, 0), expiry - w.now - Max(wait, 0));
    case Waiting(fireAt) => CeilLog2Monotone(expiry - Max(fireAt, v.now), expiry - Max(fireAt, w.now));
    case Attempting(_) => CeilLog2Monotone(expiry - v.now, expiry - w.now);
    case Returned =>
  }

  lemma BudgetPaysForStep(w: World, a: Action)
    requires HoldsLeaf(w.fields) && Enabled(w, a) && !a.Finish?
    ensures HoldsLeaf(Next(w, a).fields) && Expiry(Next(w, a).fields) == Expiry(w.fields)
    ensures Budget(w, Expiry(w.fields))
         >= (if a == Fire && w.now < Expiry(w.fields) then 1 else 0) + Budget(Next(w, a), Expiry(w.fields))
  {
    if a.Tick? {
      TimeNeverAddsBudget(w, a.dt, Expiry(w.fields));
    } else if a == ReadClock {
      HalvingSpendsOne(Expiry(w.fields) - w.now);
    } else if a == Arm {
      var wait := w.loop.wait;
      CeilLog2Monotone(Expiry(w.fields) - Max(w.now + wait, w.now), Expiry(w.fields) - w.now - Max(wait, 0));
    }
  }

  /** No schedule, whatever its latencies and delays, starts more attempts before expiry than the
      instant-failure schedule does: ceil(log2 R) bounds them until a refresh commits. */
  lemma {:induction false} AttemptsBeforeExpiryBounded(w: World, acts: seq<Action>)
    requires HoldsLeaf(w.fields) && Legal(Enabled, Next, w, acts)
    requires forall a <- acts :: !a.Finish?
    ensures LiveAttempts(w, acts) <= Budget(w, Expiry(w.fields))
    ensures w.loop.Reading? ==> LiveAttempts(w, acts) <= CeilLog2(Expiry(w.fields) - w.now)
    decreases |acts|
  {
    if acts == [] {
    } else {
      BudgetPaysForStep(w, acts[0]);
      AttemptsBeforeExpiryBounded(Next(w, acts[0]), acts[1..]);
    }
  }
}
