/**
  Whole lifetimes of a `DefaultStopWatch`: construction followed by any sequence of
  pause, resume, stop, stop(boolean) and cancel calls, each made at some clock reading.
  The properties here are about the log of monitor updates such a lifetime produces and
  about the durations it records.
*/
module Lifecycle {
  import opened Int64
  import opened Outcomes
  import opened StopWatch

  /** One call on a constructed watch, with the clock reading it would see. */
  datatype Call =
    | CallPause(at: Long)
    | CallResume(at: Long)
    | CallStop(at: Long)
    | CallStopWith(canceled: bool, at: Long)
    | CallCancel

  /** A call that ends the watch through `stop()`. */
  predicate IsStop(c: Call) {
    c.CallStop? || (c.CallStopWith? && !c.canceled)
  }

  /** A call that ends the watch through `cancel()`. */
  predicate IsCancel(c: Call) {
    c.CallCancel? || (c.CallStopWith? && c.canceled)
  }

  /** Performs one call. */
  function Apply(w: Watch, c: Call): (r: Step)
    ensures r.watch.startedAt == w.startedAt
    ensures w.stoped ==> r == Step(w, [])
    ensures !IsStop(c) && !IsCancel(c) ==> r.events == [] && r.watch.stoped == w.stoped
    ensures !w.stoped && IsStop(c) ==>
      r.watch.stoped && r.events == [Dec, Add(Elapsed(r.watch, r.watch.stopedAt))]
    ensures !w.stoped && IsCancel(c) ==> r.watch.stoped && r.events == [Dec]
  {
    match c
    case CallPause(t) => Pause(w, t)
    case CallResume(t) => Resume(w, t)
    case CallStop(t) => Stop(w, t)
    case CallStopWith(canceled, t) => StopWith(w, canceled, t)
    case CallCancel => Cancel(w)
  }

  /** How a call sequence ends a fresh watch: through its first stop or cancel, if any. */
  datatype Ending = Open | Completed | Canceled

  function EndingOf(calls: seq<Call>): Ending {
    if |calls| == 0 then Open
    else if IsStop(calls[0]) then Completed
    else if IsCancel(calls[0]) then Canceled
    else EndingOf(calls[1..])
  }

  /** What a call sequence with ending `e` leaves behind on a watch that was not stopped. */
  predicate Settled(e: Ending, r: Step) {
    match e
    case Open => !r.watch.stoped && r.events == []
    case Canceled => r.watch.stoped && r.events == [Dec]
    case Completed => r.watch.stoped && r.events == [Dec, Add(Elapsed(r.watch, r.watch.stopedAt))]
  }

  /** Performs the calls in order, collecting the monitor updates they make. */
  function Run(w: Watch, calls: seq<Call>): (r: Step)
    ensures r.watch.startedAt == w.startedAt
    ensures w.stoped ==> r == Step(w, [])
    ensures !w.stoped ==> Settled(EndingOf(calls), r)
    decreases |calls|
  {
    if |calls| == 0 then Step(w, [])
    else
      var first := Apply(w, calls[0]);
      var rest := Run(first.watch, calls[1..]);
      Step(rest.watch, first.events + rest.events)
  }

  /**
    A whole lifetime: construction at `start`, then the calls. The log starts with the
    gauge increment; a stop adds exactly one decrement and then exactly one sample, a
    cancel exactly one decrement; whatever follows the first stop or cancel adds nothing.
  */
  function Lifecycle(monitor: Option<Monitor>, start: Long, calls: seq<Call>): (r: Result<Step, WatchError>)
    ensures r.Failure? <==> monitor.None?
    ensures r.Success? ==>
      var w := r.value.watch;
      && w.startedAt == start
      && match EndingOf(calls)
         case Open => !IsStoped(w) && r.value.events == [Inc]
         case Canceled => IsStoped(w) && r.value.events == [Inc, Dec]
         case Completed => IsStoped(w) && r.value.events == [Inc, Dec, Add(Elapsed(w, w.stopedAt))]
  {
    match Create(monitor, start)
    case Failure(e) => Failure(e)
    case Success(created) =>
      var run := Run(created.watch, calls);
      Success(Step(run.watch, created.events + run.events))
  }

  /** The net change a log makes to the concurrency gauge. */
  function Concurrency(log: seq<Event>): int {
    if |log| == 0 then 0
    else (match log[0] case Inc => 1 case Dec => -1 case Add(_) => 0) + Concurrency(log[1..])
  }

  /** The samples a log adds to the performance counter, in order. */
  function Samples(log: seq<Event>): seq<Long> {
    if |log| == 0 then []
    else (if log[0].Add? then [log[0].nanos] else []) + Samples(log[1..])
  }

  /** The logs a lifetime can produce: still running, cancelled, or stopped with one sample. */
  predicate LogShape(log: seq<Event>) {
    || log == [Inc]
    || log == [Inc, Dec]
    || (|log| == 3 && log[0] == Inc && log[1] == Dec && log[2].Add?)
  }

  lemma ShapeCounts(log: seq<Event>)
    requires LogShape(log)
    ensures Concurrency(log) == (if |log| == 1 then 1 else 0)
    ensures forall k :: 0 <= k <= |log| ==> 0 <= Concurrency(log[..k]) <= 1
    ensures |Samples(log)| == (if |log| == 3 then 1 else 0)
  {
    assert log[..0] == [] && log[..1] == [Inc];
    assert log[..|log|] == log;
    assert Concurrency([Inc]) == 1 && Concurrency([Dec]) == -1;
    if |log| == 3 {
      var v := log[2].nanos;
      assert log[..2] == [Inc, Dec];
      assert log[1..] == [Dec, Add(v)] && log[1..][1..] == [Add(v)];
      assert Concurrency([Add(v)]) == 0 && Samples([Add(v)]) == [v];
    } else if |log| == 2 {
      assert log[1..] == [Dec];
    }
  }

  /**
    Gauge balance: a lifetime raises the gauge by one until the watch is stopped or
    cancelled and by zero afterwards, the gauge never goes below zero at any point of the
    log, and exactly one sample is recorded when the first ending call was a stop, none
    otherwise.
  */
  lemma GaugeBalance(m: Monitor, start: Long, calls: seq<Call>)
    ensures var r := Lifecycle(Some(m), start, calls).value;
      && Concurrency(r.events) == (if IsStoped(r.watch) then 0 else 1)
      && (forall k :: 0 <= k <= |r.events| ==> 0 <= Concurrency(r.events[..k]) <= 1)
      && |Samples(r.events)| == (if EndingOf(calls) == Completed then 1 else 0)
  {
    var r := Lifecycle(Some(m), start, calls).value;
    ShapeCounts(r.events);
  }

  /**
    Idempotent termination: once a call sequence contains a stop or a cancel, further
    calls of any kind change neither the watch nor the log.
  */
  lemma {:induction false} CallsAfterEndingAreInert(w: Watch, calls: seq<Call>, more: seq<Call>)
    requires EndingOf(calls) != Open
    ensures Run(w, calls + more) == Run(w, calls)
    decreases |calls|
  {
    assert |calls| > 0;
    assert (calls + more)[0] == calls[0];
    assert (calls + more)[1..] == calls[1..] + more;
    var first := Apply(w, calls[0]);
    if IsStop(calls[0]) || IsCancel(calls[0]) {
      assert first.watch.stoped;
    } else {
      CallsAfterEndingAreInert(first.watch, calls[1..], more);
    }
  }

  /** The clock reading a call sees; `cancel` reads no clock and keeps the previous one. */
  function TimeOf(c: Call, clock: int): int {
    match c
    case CallPause(t) => t
    case CallResume(t) => t
    case CallStop(t) => t
    case CallStopWith(_, t) => t
    case CallCancel => clock
  }

  /** The calls see a clock that never goes backwards, starting no earlier than `lo` and ending no later than `hi`. */
  predicate ClockBetween(lo: int, hi: int, calls: seq<Call>)
    decreases |calls|
  {
    if |calls| == 0 then lo <= hi
    else lo <= TimeOf(calls[0], lo) && ClockBetween(TimeOf(calls[0], lo), hi, calls[1..])
  }

  lemma {:induction false} ClockBetweenBounds(lo: int, hi: int, calls: seq<Call>)
    requires ClockBetween(lo, hi, calls)
    ensures lo <= hi
    ensures |calls| > 0 ==> TimeOf(calls[0], lo) <= hi
    decreases |calls|
  {
    if |calls| > 0 {
      ClockBetweenBounds(TimeOf(calls[0], lo), hi, calls[1..]);
    }
  }

  predicate NeverCancelled(calls: seq<Call>) {
    forall k :: 0 <= k < |calls| ==> !IsCancel(calls[k])
  }

  /**
    What a watch that was never cancelled looks like when the clock last read `clock`:
    a running watch has `stopedAt` reset to 0 and a pause delay inside the span so far;
    a paused or stopped one has its pause delay inside the span up to `stopedAt`.
  */
  ghost predicate Consistent(w: Watch, clock: int) {
    && w.startedAt <= clock
    && clock - w.startedAt < TwoTo63
    && 0 <= w.pauseDelay
    && if !w.stoped && !w.paused then w.stopedAt == 0 && w.pauseDelay <= clock - w.startedAt
       else w.startedAt + w.pauseDelay <= w.stopedAt <= clock
  }

  lemma ApplyKeepsConsistent(w: Watch, clock: int, c: Call, hi: int)
    requires Consistent(w, clock) && !IsCancel(c)
    requires clock <= TimeOf(c, clock) <= hi && hi - w.startedAt < TwoTo63
    ensures Consistent(Apply(w, c).watch, TimeOf(c, clock))
  {
  }

  lemma {:induction false} RunKeepsConsistent(w: Watch, clock: int, calls: seq<Call>, hi: int)
    requires Consistent(w, clock) && NeverCancelled(calls)
    requires ClockBetween(clock, hi, calls) && hi - w.startedAt < TwoTo63
    ensures Consistent(Run(w, calls).watch, hi)
    decreases |calls|
  {
    if |calls| > 0 {
      var t := TimeOf(calls[0], clock);
      ClockBetweenBounds(clock, hi, calls);
      ApplyKeepsConsistent(w, clock, calls[0], hi);
      var first := Apply(w, calls[0]);
      assert NeverCancelled(calls[1..]) by {
        forall k | 0 <= k < |calls[1..]| ensures !IsCancel(calls[1..][k]) {
          assert calls[1..][k] == calls[k + 1];
        }
      }
      RunKeepsConsistent(first.watch, t, calls[1..], hi);
    }
  }

  /**
    Over any lifetime that reads a monotonic clock and is never cancelled, the reading of
    `getElapsedTime()` lies between 0 and the time since construction.
  */
  lemma ElapsedWithinSpan(m: Monitor, start: Long, calls: seq<Call>, now: Long)
    requires ClockBetween(start, now, calls) && NeverCancelled(calls)
    requires now - start < TwoTo63
    ensures var w := Lifecycle(Some(m), start, calls).value.watch;
      0 <= Elapsed(w, now) <= now - start
  {
    var created := Create(Some(m), start).value;
    RunKeepsConsistent(created.watch, start, calls, now);
  }

  /**
    The bound also holds when any calls, cancels included, follow a lifetime that ends in
    a stop: they leave the watch as the stop left it.
  */
  lemma ElapsedWithinSpanAfterStop(m: Monitor, start: Long, calls: seq<Call>, more: seq<Call>, now: Long)
    requires ClockBetween(start, now, calls) && NeverCancelled(calls) && EndingOf(calls) == Completed
    requires now - start < TwoTo63
    ensures var w := Lifecycle(Some(m), start, calls + more).value.watch;
      0 <= Elapsed(w, now) <= now - start
  {
    var created := Create(Some(m), start).value;
    CallsAfterEndingAreInert(created.watch, calls, more);
    ElapsedWithinSpan(m, start, calls, now);
  }

  /** One pause, from the instant `from` to the instant `to`. */
  datatype Interval = Interval(from: Long, to: Long)

  /** A pause and a resume call for each interval, in order. */
  function PauseCalls(ps: seq<Interval>): seq<Call> {
    if |ps| == 0 then [] else [CallPause(ps[0].from), CallResume(ps[0].to)] + PauseCalls(ps[1..])
  }

  /** The intervals follow each other on a clock that starts at `lo` and ends at `hi`. */
  predicate Chained(lo: int, ps: seq<Interval>, hi: int)
    decreases |ps|
  {
    if |ps| == 0 then lo <= hi
    else lo <= ps[0].from <= ps[0].to && Chained(ps[0].to, ps[1..], hi)
  }

  /** The length of the last pause, 0 when there is none. */
  function LastPause(ps: seq<Interval>): int {
    if |ps| == 0 then 0 else ps[|ps| - 1].to - ps[|ps| - 1].from
  }

  /** The total length of all pauses. */
  function TotalPaused(ps: seq<Interval>): int {
    if |ps| == 0 then 0 else ps[0].to - ps[0].from + TotalPaused(ps[1..])
  }

  lemma {:induction false} ChainedBounds(lo: int, ps: seq<Interval>, hi: int)
    requires Chained(lo, ps, hi)
    ensures lo <= hi
    ensures 0 <= LastPause(ps) <= hi - lo
    ensures 0 <= TotalPaused(ps) <= hi - lo
    decreases |ps|
  {
    if |ps| > 0 {
      ChainedBounds(ps[0].to, ps[1..], hi);
      if |ps[1..]| > 0 {
        assert ps[1..][|ps[1..]| - 1] == ps[|ps| - 1];
      }
    }
  }

  /** The log of a stop that records `nanos`. */
  predicate StopLog(log: seq<Event>, nanos: int) {
    |log| == 2 && log[0] == Dec && log[1].Add? && log[1].nanos == nanos
  }

  lemma {:induction false} PausesThenStop(w: Watch, clock: int, ps: seq<Interval>, s: Long)
    requires PhaseOf(w) == Running
    requires w.startedAt <= clock && 0 <= w.pauseDelay <= clock - w.startedAt
    requires Chained(clock, ps, s) && s - w.startedAt < TwoTo63
    ensures StopLog(Run(w, PauseCalls(ps) + [CallStop(s)]).events,
      s - w.startedAt - (if |ps| == 0 then w.pauseDelay else LastPause(ps)))
    decreases |ps|
  {
    if |ps| == 0 {
      assert PauseCalls(ps) + [CallStop(s)] == [CallStop(s)];
    } else {
      var p := ps[0];
      var tail := PauseCalls(ps[1..]) + [CallStop(s)];
      var calls := PauseCalls(ps) + [CallStop(s)];
      assert calls == [CallPause(p.from)] + ([CallResume(p.to)] + tail);
      assert calls[1..] == [CallResume(p.to)] + tail;
      assert calls[1..][1..] == tail;
      var w1 := Pause(w, p.from).watch;
      var w2 := Resume(w1, p.to).watch;
      ChainedBounds(p.to, ps[1..], s);
      assert w2.pauseDelay == p.to - p.from && PhaseOf(w2) == Running && w2.startedAt == w.startedAt;
      PausesThenStop(w2, p.to, ps[1..], s);
      if |ps[1..]| > 0 {
        assert ps[1..][|ps[1..]| - 1] == ps[|ps| - 1];
      }
    }
  }

  /**
    A watch paused and resumed over the given intervals and then stopped at `s` records
    the span since construction minus the length of the LAST pause only: `resume` and
    `stop` replace the pause delay instead of adding to it.
  */
  lemma StopAfterPausesRecordsSpanMinusLastPause(m: Monitor, start: Long, ps: seq<Interval>, s: Long)
    requires Chained(start, ps, s) && s - start < TwoTo63
    ensures var log := Lifecycle(Some(m), start, PauseCalls(ps) + [CallStop(s)]).value.events;
      log[0] == Inc && StopLog(log[1..], s - start - LastPause(ps))
  {
    var created := Create(Some(m), start).value;
    PausesThenStop(created.watch, start, ps, s);
  }

  /** With at most one pause, the recorded sample is the span minus the time spent paused. */
  lemma AtMostOnePauseRecordsActiveTime(m: Monitor, start: Long, ps: seq<Interval>, s: Long)
    requires Chained(start, ps, s) && s - start < TwoTo63 && |ps| <= 1
    ensures var log := Lifecycle(Some(m), start, PauseCalls(ps) + [CallStop(s)]).value.events;
      log[0] == Inc && StopLog(log[1..], s - start - TotalPaused(ps))
  {
    StopAfterPausesRecordsSpanMinusLastPause(m, start, ps, s);
    if |ps| == 1 {
      assert TotalPaused(ps) == ps[0].to - ps[0].from + TotalPaused(ps[1..]);
    }
  }

  /** Start at 0, pause at 100, resume at 150, stop at 300: a delay of 50 and a sample of 250. */
  lemma PauseResumeStopExample(m: Monitor)
    ensures Lifecycle(Some(m), 0, [CallPause(100), CallResume(150), CallStop(300)]) ==
      Success(Step(Watch(0, 300, 50, true, false), [Inc, Dec, Add(250)]))
  {
  }

  /** Cancelling right after construction balances the gauge and records no sample. */
  lemma CancelExample(m: Monitor)
    ensures Lifecycle(Some(m), 0, [CallCancel]) == Success(Step(Watch(0, 0, 0, true, false), [Inc, Dec]))
  {
  }

  /**
    Two pauses of 10 within a lifetime of 100: the sample is 90, not the 80 of active
    time, because the second resume replaces the delay of the first pause.
  */
  lemma SecondPauseReplacesFirst(m: Monitor)
    ensures var ps := [Interval(10, 20), Interval(30, 40)];
      && 100 - 0 - TotalPaused(ps) == 80
      && Lifecycle(Some(m), 0, PauseCalls(ps) + [CallStop(100)]).value.events == [Inc, Dec, Add(90)]
  {
    var ps := [Interval(10, 20), Interval(30, 40)];
    assert TotalPaused(ps) == 20 by {
      assert ps[1..] == [Interval(30, 40)] && ps[1..][1..] == [];
    }
    assert LastPause(ps) == 10;
    assert Chained(0, ps, 100) by {
      assert ps[1..] == [Interval(30, 40)] && ps[1..][1..] == [];
    }
    StopAfterPausesRecordsSpanMinusLastPause(m, 0, ps, 100);
    var log := Lifecycle(Some(m), 0, PauseCalls(ps) + [CallStop(100)]).value.events;
    assert StopLog(log[1..], 90);
    assert log == [log[0]] + log[1..];
  }

  /** The pause delay is not monotonic: a short pause after a long one shrinks it. */
  lemma PauseDelayCanShrink(m: Monitor)
    ensures Lifecycle(Some(m), 0, [CallPause(10), CallResume(60)]).value.watch.pauseDelay == 50
    ensures Lifecycle(Some(m), 0, [CallPause(10), CallResume(60), CallPause(70), CallResume(75)]).value.watch.pauseDelay == 5
  {
  }

  /**
    Cancelling a running watch leaves `stopedAt` at 0, so from then on the watch reads
    minus its start instant, whatever the clock says.
  */
  lemma CancelledRunningWatchReadsStaleStop(m: Monitor, now: Long)
    ensures var w := Lifecycle(Some(m), 1000, [CallCancel]).value.watch;
      IsStoped(w) && w.stopedAt == 0 && Elapsed(w, now) == -1000
  {
  }

  /** A watch stopped while paused records the time up to the pause and still reports being paused. */
  lemma StoppedWhilePausedStaysPaused(m: Monitor)
    ensures var r := Lifecycle(Some(m), 0, [CallPause(10), CallStop(20)]).value;
      && IsStoped(r.watch) && IsPaused(r.watch)
      && r.events == [Inc, Dec, Add(10)]
  {
  }

  // ---------------------------------------------------------------------------
  // Adding pauses up, as a stop watch that measures active time would

  /** Performs one call, adding each pause to the pause delay. */
  function ApplyAccumulating(w: Watch, c: Call): Step {
    match c
    case CallPause(t) => Pause(w, t)
    case CallResume(t) => ResumeAccumulating(w, t)
    case CallStop(t) => StopAccumulating(w, t)
    case CallStopWith(canceled, t) => if canceled then Cancel(w) else StopAccumulating(w, t)
    case CallCancel => Cancel(w)
  }

  /** Performs the calls in order with `ApplyAccumulating`, collecting the monitor updates. */
  function RunAccumulating(w: Watch, calls: seq<Call>): Step
    decreases |calls|
  {
    if |calls| == 0 then Step(w, [])
    else
      var first := ApplyAccumulating(w, calls[0]);
      var rest := RunAccumulating(first.watch, calls[1..]);
      Step(rest.watch, first.events + rest.events)
  }

  lemma {:induction false} AccumulatingPausesThenStop(w: Watch, clock: int, ps: seq<Interval>, s: Long)
    requires PhaseOf(w) == Running
    requires w.startedAt <= clock && 0 <= w.pauseDelay <= clock - w.startedAt
    requires Chained(clock, ps, s) && s - w.startedAt < TwoTo63
    ensures StopLog(RunAccumulating(w, PauseCalls(ps) + [CallStop(s)]).events,
      s - w.startedAt - w.pauseDelay - TotalPaused(ps))
    decreases |ps|
  {
    ChainedBounds(clock, ps, s);
    if |ps| == 0 {
      assert PauseCalls(ps) + [CallStop(s)] == [CallStop(s)];
      assert InSpan(w, s);
    } else {
      var p := ps[0];
      var tail := PauseCalls(ps[1..]) + [CallStop(s)];
      var calls := PauseCalls(ps) + [CallStop(s)];
      assert calls == [CallPause(p.from)] + ([CallResume(p.to)] + tail);
      assert calls[1..] == [CallResume(p.to)] + tail;
      assert calls[1..][1..] == tail;
      var w1 := Pause(w, p.from).watch;
      ChainedBounds(p.to, ps[1..], s);
      assert InSpan(w1, p.to);
      var w2 := ResumeAccumulating(w1, p.to).watch;
      assert w2.pauseDelay == w.pauseDelay + (p.to - p.from);
      assert PhaseOf(w2) == Running && w2.startedAt == w.startedAt;
      AccumulatingPausesThenStop(w2, p.to, ps[1..], s);
    }
  }

  /**
    With pauses added up, a watch paused and resumed over any chain of intervals and then
    stopped at `s` records its active time: the span since construction minus all the
    time spent paused.
  */
  lemma AccumulatingStopRecordsActiveTime(m: Monitor, start: Long, ps: seq<Interval>, s: Long)
    requires Chained(start, ps, s) && s - start < TwoTo63
    ensures var created := Create(Some(m), start).value;
      StopLog(RunAccumulating(created.watch, PauseCalls(ps) + [CallStop(s)]).events, s - start - TotalPaused(ps))
  {
    var created := Create(Some(m), start).value;
    AccumulatingPausesThenStop(created.watch, start, ps, s);
  }

  /** The lifetime of `SecondPauseReplacesFirst` with pauses added up records its active time of 80. */
  lemma AccumulatingSecondPause(m: Monitor)
    ensures var created := Create(Some(m), 0).value;
      RunAccumulating(created.watch, PauseCalls([Interval(10, 20), Interval(30, 40)]) + [CallStop(100)]).events
        == [Dec, Add(80)]
  {
    var ps := [Interval(10, 20), Interval(30, 40)];
    AccumulatingStopRecordsActiveTime(m, 0, ps, 100);
  }
}
