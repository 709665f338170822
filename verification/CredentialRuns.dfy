/** sdk/go/x509source.go as a timed system: the refresh loop, the callers of Close, whoever cancels the
    parent context, and the clock, interleaved in every possible way. */
module CredentialRuns {
  import opened Prelude
  import opened Runs
  import opened CredentialSource

  /** Where the refresh loop stands. Reading the clock and arming the timer are separate steps, and
      the scheduler may let time pass before each. */
  datatype Loop =
    | Reading(since: int)               // at the top of the loop since this instant
    | Arming(readAt: int, wait: int)    // has computed its wait, has not called time.After
    | Waiting(fireAt: int)              // in the select
    | Attempting(fireAt: int)           // in refresh, for the timer that fired at fireAt
    | Returned

  /** `failed` counts the refreshes that failed since the last one that committed. */
  datatype World = World(now: int, fields: Fields, loop: Loop, failed: nat)

  datatype Action =
    | Tick(dt: nat)
    | CancelContext            // by Close or by the owner of the parent context
    | SetClosed                // the second half of Close
    | ReadClock
    | Arm
    | Fire                     // the select takes the timer
    | Stop                     // the select takes ctx.Done
    | Finish(got: Credentials) // the refresh in flight commits
    | Fail                     // the refresh in flight fails

  ghost predicate Enabled(w: World, a: Action)
  {
    match a
    case Tick(_) => true
    case CancelContext => true
    case SetClosed => w.fields.cancelled
    case ReadClock => w.loop.Reading?
    case Arm => w.loop.Arming?
    case Fire => w.loop.Waiting? && w.now >= w.loop.fireAt
    case Stop => w.loop.Waiting? && w.fields.cancelled
    case Finish(got) => w.loop.Attempting? && got.svid.certificates != []
    case Fail => w.loop.Attempting?
  }

  ghost function Next(w: World, a: Action): World
  {
    match a
    case Tick(dt) => w.(now := w.now + dt)
    case CancelContext => w.(fields := Cancel(w.fields))
    case SetClosed => w.(fields := MarkClosed(w.fields))
    case ReadClock =>
      w.(loop := if LoopContinues(w.fields) then Arming(w.now, HalfLife(Expiry(w.fields) - w.now)) else Returned)
    case Arm => if w.loop.Arming? then w.(loop := Waiting(w.now + w.loop.wait)) else w
    case Fire => if w.loop.Waiting? then w.(loop := Attempting(w.loop.fireAt)) else w
    case Stop => w.(loop := Returned)
    case Finish(got) => w.(fields := Commit(w.fields, got), loop := Reading(w.now), failed := 0)
    case Fail => w.(loop := Reading(w.now), failed := w.failed + 1)
  }

  // ---- Credential continuity ------------------------------------------------------------------

  /** `lag` bounds each scheduling delay of the loop, `latency` the time from a timer's firing point
      to the commit or failure of its refresh, `failures` how many refreshes may fail in a row, and
      `life` is what every committed SVID has left at least. */
  datatype Timing = Timing(lag: nat, latency: nat, failures: nat, life: int)

  ghost predicate OnTime(t: Timing, w: World)
  {
    match w.loop
    case Reading(since) => w.now <= since + t.lag
    case Arming(readAt, _) => w.now <= readAt + t.lag
    case Waiting(fireAt) => w.now <= fireAt + t.latency
    case Attempting(fireAt) => w.now <= fireAt + t.latency
    case Returned => true
  }

  ghost predicate TimelyStep(t: Timing, w: World, a: Action)
  {
    && Enabled(w, a)
    && (!w.fields.cancelled ==>
          && OnTime(t, Next(w, a))
          && (a == Fail ==> w.failed < t.failures)
          && (a.Finish? ==> a.got.svid.certificates[0].notAfter - w.now >= t.life))
  }

  ghost function Timely(t: Timing): (World, Action) -> bool
  {
    (w, a) => TimelyStep(t, w, a)
  }

  /** The state in which NewX509Source hands the source out. */
  ghost predicate Starts(t: Timing, w: World)
  {
    && LoopContinues(w.fields) && !w.fields.cancelled && w.fields.bundle.Some?
    && w.loop == Reading(w.now) && w.failed == 0
    && Expiry(w.fields) - w.now >= t.life
  }

  /** A caller who asks now is served an SVID with life left. This is strict: the instant NotAfter itself,
      at which path validation still accepts the SVID, no longer counts. */
  ghost predicate ServesLiveSvid(w: World)
  {
    && ReplySvid(w.fields).Served?
    && ReplySvid(w.fields).value.certificates != []
    && w.now < ReplySvid(w.fields).value.certificates[0].notAfter
  }

  ghost predicate NeverServesExpired(t: Timing)
  {
    forall w, acts ::
      Starts(t, w) && Legal(Timely(t), Next, w, acts) && !After(Next, w, acts).fields.cancelled
      ==> ServesLiveSvid(After(Next, w, acts))
  }

  /** What the delays of one iteration cost, counted before its halving: of R left at the top of the loop
      the slowest failed iteration leaves half of R - Delay, rounded up. */
  function Delay(t: Timing): nat { 3 * t.lag + 2 * t.latency }

  /** More than this has to be left at the top of the loop when so many refreshes may still fail. */
  function LifeNeeded(delay: nat, failures: nat): (left: nat)
    ensures left >= Max(delay, 1)
  {
    if failures == 0 then Max(delay, 1) else 2 * LifeNeeded(delay, failures - 1) + delay
  }

  lemma {:induction false} LifeNeededIs(delay: nat, failures: nat)
    ensures LifeNeeded(delay, failures) == Pow2(failures) * (Max(delay, 1) + delay) - delay
    decreases failures
  {
    if failures == 0 {
    } else {
      LifeNeededIs(delay, failures - 1);
    }
  }

  lemma {:induction false} LifeNeededWithDelay(delay: nat, failures: nat)
    requires delay > 0
    ensures LifeNeeded(delay, failures) == (Pow2(failures + 1) - 1) * delay
    decreases failures
  {
    if failures == 0 {
      assert Pow2(1) == 2;
    } else {
      LifeNeededWithDelay(delay, failures - 1);
      assert (2 * Pow2(failures) - 1) * delay == 2 * ((Pow2(failures) - 1) * delay) + delay;
    }
  }

  ghost predicate EnoughLife(t: Timing)
  {
    t.life > LifeNeeded(Delay(t), t.failures)
  }

  /** Until the context is cancelled, the pending refresh is due before expiry, and if it may fail, so are
      the ones after it. */
  ghost predicate Covered(t: Timing, w: World)
  {
    !w.fields.cancelled ==>
      && LoopContinues(w.fields)
      && OnTime(t, w)
      && w.failed <= t.failures
      && var need := LifeNeeded(Delay(t), t.failures - w.failed);
         match w.loop
         case Reading(since) => since <= w.now && Expiry(w.fields) - since > need
         case Arming(readAt, wait) =>
           && readAt <= w.now
           && Expiry(w.fields) - readAt > need - t.lag
           && wait == HalfLife(Expiry(w.fields) - readAt)
         case Waiting(fireAt) => LeavesEnough(t, w, fireAt + t.latency)
         case Attempting(fireAt) => LeavesEnough(t, w, fireAt + t.latency)
         case Returned => false
  }

  /** If the refresh in hand fails at this instant, enough is left for those that may fail after it. */
  ghost predicate LeavesEnough(t: Timing, w: World, at: int)
    requires HoldsLeaf(w.fields) && w.failed <= t.failures
  {
    Expiry(w.fields) - at > if w.failed == t.failures then 0 else LifeNeeded(Delay(t), t.failures - w.failed - 1)
  }

  ghost function CoveredBy(t: Timing): World -> bool { w => Covered(t, w) }

  /** Waiting for half of what is left when the clock is read, and every delay after that, leaves what the
      next attempt needs. */
  lemma HalfLeavesEnough(t: Timing, failures: nat, left: int)
    requires left > LifeNeeded(Delay(t), failures) - t.lag
    ensures left - HalfLife(left) - t.lag - t.latency
          > if failures == 0 then 0 else LifeNeeded(Delay(t), failures - 1)
  {
    assert left >= 2 && HalfLife(left) == left / 2;
  }

  lemma ReadKeepsCoverage(t: Timing, w: World)
    requires Covered(t, w) && !w.fields.cancelled && w.loop.Reading?
    ensures Covered(t, Next(w, ReadClock))
  {
  }

  lemma ArmKeepsCoverage(t: Timing, w: World)
    requires Covered(t, w) && !w.fields.cancelled && w.loop.Arming? && OnTime(t, Next(w, Arm))
    ensures Covered(t, Next(w, Arm))
  {
    HalfLeavesEnough(t, t.failures - w.failed, Expiry(w.fields) - w.loop.readAt);
  }

  lemma FailKeepsCoverage(t: Timing, w: World)
    requires Covered(t, w) && !w.fields.cancelled && w.loop.Attempting? && w.failed < t.failures
    ensures Covered(t, Next(w, Fail))
  {
  }

  lemma FinishKeepsCoverage(t: Timing, w: World, got: Credentials)
    requires EnoughLife(t) && Covered(t, w) && TimelyStep(t, w, Finish(got)) && !w.fields.cancelled
    ensures Covered(t, Next(w, Finish(got)))
  {
  }

  /** With enough life, half of it plus every delay still ends before expiry, as often as it may fail. */
  lemma CoverageKept(t: Timing, w: World, a: Action)
    requires EnoughLife(t) && Covered(t, w) && TimelyStep(t, w, a)
    ensures Covered(t, Next(w, a))
  {
    if !w.fields.cancelled {
      match a
      case ReadClock => ReadKeepsCoverage(t, w);
      case Arm => ArmKeepsCoverage(t, w);
      case Fail => FailKeepsCoverage(t, w);
      case Finish(got) => FinishKeepsCoverage(t, w, got);
      case _ =>
    }
  }

  lemma EnoughLifeSuffices(t: Timing, w: World, acts: seq<Action>)
    requires EnoughLife(t) && Starts(t, w) && Legal(Timely(t), Next, w, acts)
    ensures !After(Next, w, acts).fields.cancelled ==> ServesLiveSvid(After(Next, w, acts))
  {
    forall v, a | CoveredBy(t)(v) && Timely(t)(v, a) ensures CoveredBy(t)(Next(v, a)) {
      CoverageKept(t, v, a);
    }
    Invariance(Timely(t), Next, CoveredBy(t), w, acts);
    assert Covered(t, After(Next, w, acts));
  }

  /** The slowest iteration the delays allow: late to read, late to arm, late in its refresh. */
  lemma SlowIteration(t: Timing, w: World) returns (acts: seq<Action>)
    requires LoopContinues(w.fields) && !w.fields.cancelled && w.loop == Reading(w.now)
    ensures var fireAt := w.now + 2 * t.lag + HalfLife(Expiry(w.fields) - w.now - t.lag);
      && Legal(Timely(t), Next, w, acts) && (forall a <- acts :: !a.Finish?)
      && After(Next, w, acts) == w.(now := fireAt + t.latency, loop := Waiting(fireAt))
  {
    var wait := HalfLife(Expiry(w.fields) - w.now - t.lag);
    var w1 := Next(w, Tick(t.lag));
    var w2 := Next(w1, ReadClock);
    var w3 := Next(w2, Tick(t.lag));
    var w4 := Next(w3, Arm);
    var step := Timely(t);
    Cons(step, Next, w4, Tick(wait + t.latency), []);
    Cons(step, Next, w3, Arm, [Tick(wait + t.latency)]);
    Cons(step, Next, w2, Tick(t.lag), [Arm, Tick(wait + t.latency)]);
    Cons(step, Next, w1, ReadClock, [Tick(t.lag), Arm, Tick(wait + t.latency)]);
    Cons(step, Next, w, Tick(t.lag), [ReadClock, Tick(t.lag), Arm, Tick(wait + t.latency)]);
    acts := [Tick(t.lag), ReadClock, Tick(t.lag), Arm, Tick(wait + t.latency)];
    assert acts == [Tick(t.lag)] + [ReadClock, Tick(t.lag), Arm, Tick(wait + t.latency)];
  }

  lemma FailNow(t: Timing, w: World) returns (acts: seq<Action>)
    requires w.loop.Waiting? && !w.fields.cancelled && w.now == w.loop.fireAt + t.latency && w.failed < t.failures
    ensures Legal(Timely(t), Next, w, acts) && (forall a <- acts :: !a.Finish?)
    ensures After(Next, w, acts) == w.(loop := Reading(w.now), failed := w.failed + 1)
  {
    Cons(Timely(t), Next, Next(w, Fire), Fail, []);
    Cons(Timely(t), Next, w, Fire, [Fail]);
    acts := [Fire, Fail];
    assert acts == [Fire] + [Fail];
  }

  /** From any state at the top of the loop with no more left than is needed, the slowest run, which fails
      as often as it may, reaches expiry before it commits. */
  lemma {:induction false} SlowestRun(t: Timing, w: World) returns (acts: seq<Action>)
    requires LoopContinues(w.fields) && !w.fields.cancelled && w.loop == Reading(w.now) && w.failed <= t.failures
    requires Expiry(w.fields) - w.now <= LifeNeeded(Delay(t), t.failures - w.failed)
    ensures Legal(Timely(t), Next, w, acts) && forall a <- acts :: !a.Finish?
    ensures !After(Next, w, acts).fields.cancelled && !ServesLiveSvid(After(Next, w, acts))
    decreases t.failures - w.failed
  {
    if Expiry(w.fields) <= w.now {
      acts := [];
    } else {
      acts := SlowIteration(t, w);
      var v := After(Next, w, acts);
      if v.now < Expiry(w.fields) {
        var fail := FailNow(t, v);
        var rest := SlowestRun(t, After(Next, v, fail));
        Append(Timely(t), Next, v, fail, rest);
        Append(Timely(t), Next, w, acts, fail + rest);
        acts := acts + (fail + rest);
      }
    }
  }

  lemma TooLittleLifeFails(t: Timing)
    requires !EnoughLife(t)
    ensures !NeverServesExpired(t)
  {
    var svid := Svid("", [Cert(t.life, "")], "");
    var w := World(0, Fields(Some(svid), Some(Bundle("", [])), false, false), Reading(0), 0);
    var acts := SlowestRun(t, w);
    assert Starts(t, w) && Legal(Timely(t), Next, w, acts);
  }

  /** Credential continuity, exactly, for a source whose refreshes fail at most m times in a row: no run
      ever serves an expired SVID before the context is cancelled if and only if committed SVIDs have
      more left than 2^m (max(c, 1) + c) - c for c = 3 lag + 2 latency. With any delay at all that is
      (2^(m+1) - 1) c. The 1 is the nanosecond whose half is zero and which falls to the one-second
      wait. */
  lemma CredentialContinuity(t: Timing)
    ensures NeverServesExpired(t) <==> t.life > Pow2(t.failures) * (Max(Delay(t), 1) + Delay(t)) - Delay(t)
    ensures Delay(t) > 0 ==> (NeverServesExpired(t) <==> t.life > (Pow2(t.failures + 1) - 1) * Delay(t))
    ensures t.failures == 0 ==> (NeverServesExpired(t) <==> t.life > 3 * t.lag + 2 * t.latency && t.life > 1)
  {
    EnoughLifeExactly(t);
    LifeNeededIs(Delay(t), t.failures);
    if Delay(t) > 0 {
      LifeNeededWithDelay(Delay(t), t.failures);
    }
  }

  lemma EnoughLifeExactly(t: Timing)
    ensures NeverServesExpired(t) <==> EnoughLife(t)
  {
    if EnoughLife(t) {
      forall w, acts | Starts(t, w) && Legal(Timely(t), Next, w, acts) && !After(Next, w, acts).fields.cancelled
        ensures ServesLiveSvid(After(Next, w, acts))
      {
        EnoughLifeSuffices(t, w, acts);
      }
    } else {
      TooLittleLifeFails(t);
    }
  }

  /** Cancelling the parent context without Close ends the refreshes but not the serving: from every
      start there is a run after which the expired SVID is still handed out and the loop is gone. */
  lemma CancelWithoutCloseServesExpired(t: Timing, w: World) returns (acts: seq<Action>)
    requires Starts(t, w)
    ensures Legal(Timely(t), Next, w, acts)
    ensures After(Next, w, acts).loop == Returned && After(Next, w, acts).fields.cancelled
    ensures ReplySvid(After(Next, w, acts).fields).Served?
    ensures !ServesLiveSvid(After(Next, w, acts))
  {
    var left := Expiry(w.fields) - w.now;
    var dt: nat := Max(left, 0);
    var w1 := Next(w, CancelContext);
    var w2 := Next(w1, ReadClock);
    var w3 := Next(w2, Arm);
    var w4 := Next(w3, Stop);
    var step := Timely(t);
    Cons(step, Next, w4, Tick(dt), []);
    Cons(step, Next, w3, Stop, [Tick(dt)]);
    Cons(step, Next, w2, Arm, [Stop, Tick(dt)]);
    Cons(step, Next, w1, ReadClock, [Arm, Stop, Tick(dt)]);
    Cons(step, Next, w, CancelContext, [ReadClock, Arm, Stop, Tick(dt)]);
    acts := [CancelContext, ReadClock, Arm, Stop, Tick(dt)];
    assert acts == [CancelContext] + [ReadClock, Arm, Stop, Tick(dt)];
    assert After(Next, w, acts) == Next(w4, Tick(dt));
  }

  // ---- Close is final --------------------------------------------------------------------------

  predicate IsLoopAction(a: Action)
  {
    a.ReadClock? || a.Arm? || a.Fire? || a.Stop? || a.Finish? || a.Fail?
  }

  function Count(p: Action -> bool, acts: seq<Action>): nat
  {
    if acts == [] then 0 else (if p(acts[0]) then 1 else 0) + Count(p, acts[1..])
  }

  /** How many more steps the loop takes once the source is closed. */
  function StepsLeft(loop: Loop): nat
  {
    match loop
    case Arming(_, _) => 4
    case Waiting(_) => 3
    case Attempting(_) => 2
    case Reading(_) => 1
    case Returned => 0
  }

  function RefreshesLeft(loop: Loop): nat { if loop.Arming? || loop.Waiting? then 1 else 0 }

  /** Once closed, whatever is still in flight: it stays closed, both getters refuse, the loop
      starts at most one more refresh and takes at most four more steps. */
  lemma {:induction false} CloseIsFinal(w: World, acts: seq<Action>)
    requires w.fields.closed && Legal(Enabled, Next, w, acts)
    ensures var v := After(Next, w, acts);
      && v.fields.closed
      && ReplySvid(v.fields) == Refused(SourceClosed) && ReplyBundle(v.fields) == Refused(SourceClosed)
      && Count(a => a == Fire, acts) + RefreshesLeft(v.loop) <= RefreshesLeft(w.loop) <= 1
      && Count(IsLoopAction, acts) + StepsLeft(v.loop) <= StepsLeft(w.loop) <= 4
    decreases |acts|
  {
    if acts == [] {
    } else {
      CloseIsFinal(Next(w, acts[0]), acts[1..]);
    }
  }

  lemma {:induction false} CancelledStays(w: World, acts: seq<Action>)
    requires w.fields.cancelled
    ensures After(Next, w, acts).fields.cancelled
    decreases |acts|
  {
    if acts == [] {
    } else {
      CancelledStays(Next(w, acts[0]), acts[1..]);
    }
  }

  /** Over every run in which Close has happened: both getters refuse as closed at its end, the context is
      cancelled, and after the closing at most one refresh started and the loop took at most four steps. */
  lemma ClosingIsFinal(w: World, acts: seq<Action>, k: nat)
    requires Legal(Enabled, Next, w, acts) && k < |acts| && acts[k] == SetClosed
    ensures var v := After(Next, w, acts);
      && ReplySvid(v.fields) == Refused(SourceClosed) && ReplyBundle(v.fields) == Refused(SourceClosed)
      && v.fields.closed && v.fields.cancelled
      && Count(a => a == Fire, acts[k + 1..]) <= 1
      && Count(IsLoopAction, acts[k + 1..]) <= 4
  {
    var before, after := acts[..k], acts[k + 1..];
    assert acts == before + ([SetClosed] + after);
    var u := After(Next, w, before);
    Append(Enabled, Next, w, before, [SetClosed] + after);
    Cons(Enabled, Next, u, SetClosed, after);
    CloseIsFinal(Next(u, SetClosed), after);
    CancelledStays(Next(u, SetClosed), after);
  }

  /** The closed loop is never stuck: with no time passing it can run to its return. Together with
      the step bound of CloseIsFinal, every schedule that keeps running it ends it. */
  lemma {:induction false} ClosedLoopCanReturn(w: World) returns (acts: seq<Action>)
    requires w.fields.closed && w.fields.cancelled
    ensures Legal(Enabled, Next, w, acts) && |acts| <= StepsLeft(w.loop) && After(Next, w, acts).loop == Returned
    decreases StepsLeft(w.loop)
  {
    if w.loop.Returned? {
      acts := [];
    } else {
      var a := match w.loop
        case Reading(_) => ReadClock
        case Arming(_, _) => Arm
        case Waiting(_) => Stop
        case Attempting(_) => Fail;
      var rest := ClosedLoopCanReturn(Next(w, a));
      acts := [a] + rest;
      assert acts[1..] == rest;
    }
  }

  /** The last refresh committed in a run, or the one held before it. */
  function LastCommitted(held: Credentials, acts: seq<Action>): Credentials
    decreases |acts|
  {
    if acts == [] then held
    else LastCommitted(if acts[0].Finish? then acts[0].got else held, acts[1..])
  }

  ghost predicate Holds(f: Fields, c: Credentials)
  {
    f.svid == Some(c.svid) && f.bundle == Some(c.bundle)
  }

  /** SVID and bundle always come from one and the same refresh, the last one that committed, and until
      it is closed the source serves them whole. */
  lemma {:induction false} HeldPairIsOneRefresh(w: World, held: Credentials, acts: seq<Action>)
    requires Holds(w.fields, held) && Legal(Enabled, Next, w, acts)
    ensures Holds(After(Next, w, acts).fields, LastCommitted(held, acts))
    ensures !After(Next, w, acts).fields.closed ==>
              && ReplySvid(After(Next, w, acts).fields) == Served(LastCommitted(held, acts).svid)
              && ReplyBundle(After(Next, w, acts).fields) == Served(LastCommitted(held, acts).bundle)
    decreases |acts|
  {
    if acts == [] {
    } else {
      HeldPairIsOneRefresh(Next(w, acts[0]), if acts[0].Finish? then acts[0].got else held, acts[1..]);
    }
  }
}
