/**
  The timing state machine of `DefaultStopWatch`.

  A watch is an immutable record of the five mutable fields of the Java object. Every
  operation takes the current reading of the monotonic nanosecond clock as an explicit
  `now` argument (when the Java code reads the clock at all) and returns the new record
  together with the updates it made to its monitor, in the order it made them.
*/
module StopWatch {
  import opened Int64
  import opened Outcomes

  /** The key of the monitor a watch reports to. The watch only needs to know that one is bound. */
  datatype Monitor = Monitor(name: string, category: string)

  /**
    One update of the bound monitor: `Inc` and `Dec` change its concurrency gauge by one
    (unit UNARY), `Add(nanos)` records one sample in its performance counter (unit NANOS).
  */
  datatype Event = Inc | Dec | Add(nanos: Long)

  /** The fields of a `DefaultStopWatch`, spelled as in the Java class. */
  datatype Watch = Watch(startedAt: Long, stopedAt: Long, pauseDelay: Long, stoped: bool, paused: bool)

  /** A watch after an operation, with the monitor updates that operation made, in order. */
  datatype Step = Step(watch: Watch, events: seq<Event>)

  /** The constructor dereferences its monitor: a `null` monitor makes it throw. */
  datatype WatchError = NullMonitor

  /** The state of a watch as its guards see it; a stopped or cancelled watch is `Halted`. */
  datatype Phase = Running | Paused | Halted

  function PhaseOf(w: Watch): Phase {
    if w.stoped then Halted else if w.paused then Paused else Running
  }

  /** `isStoped()`: true once the watch was stopped or cancelled. */
  function IsStoped(w: Watch): (r: bool)
    ensures r <==> PhaseOf(w) == Halted
  {
    w.stoped
  }

  /**
    `isPaused()`: the `paused` flag. On a live watch it tells a paused watch from a
    running one; `stop` never clears it, so on a halted watch it tells how it was stopped.
  */
  function IsPaused(w: Watch): (r: bool)
    ensures !IsStoped(w) ==> (r <==> PhaseOf(w) == Paused)
    ensures PhaseOf(w) == Running ==> !r
  {
    w.paused
  }

  /**
    The constructor: records the start instant and increments the concurrency gauge.
    The Java code dereferences the monitor unconditionally, so a missing monitor is an error.
  */
  function Create(monitor: Option<Monitor>, now: Long): (r: Result<Step, WatchError>)
    ensures r.Failure? <==> monitor.None?
    ensures r.Success? ==>
      && r.value.watch.startedAt == now
      && PhaseOf(r.value.watch) == Running
      && !IsStoped(r.value.watch) && !IsPaused(r.value.watch)
      && r.value.events == [Inc]
      && Elapsed(r.value.watch, now) == 0
  {
    if monitor.None? then Failure(NullMonitor)
    else Success(Step(Watch(now, 0, 0, false, false), [Inc]))
  }

  /**
    `getElapsedTime()`: a running watch measures up to `now`; a paused, stopped or
    cancelled one measures up to `stopedAt`. The arithmetic is Java's wrapping `long`
    subtraction.
  */
  function Elapsed(w: Watch, now: Long): (r: Long)
    ensures var until := if w.stoped || w.paused then w.stopedAt else now;
      InRange(until - w.startedAt) && InRange(until - w.startedAt - w.pauseDelay) ==>
        r == until - w.startedAt - w.pauseDelay
  {
    if w.stoped || w.paused then Sub(Sub(w.stopedAt, w.startedAt), w.pauseDelay)
    else Sub(Sub(now, w.startedAt), w.pauseDelay)
  }

  /**
    `pause()`: only a running watch pauses; it remembers the pause instant in `stopedAt`,
    which freezes its reading at the value it had at that instant.
  */
  function Pause(w: Watch, now: Long): (r: Step)
    ensures r.events == []
    ensures PhaseOf(w) == Running ==>
      && PhaseOf(r.watch) == Paused
      && r.watch == w.(stopedAt := now, paused := true)
      && forall t: Long :: Elapsed(r.watch, t) == Elapsed(w, now)
    ensures PhaseOf(w) != Running ==> r.watch == w
  {
    if !w.paused && !w.stoped then Step(w.(stopedAt := now, paused := true), [])
    else Step(w, [])
  }

  /**
    `resume()`: only a paused, not stopped watch resumes. The pause delay becomes the
    length of the pause just ended, replacing any earlier pause delay, so right after
    resuming the watch reads the time from its start to its last pause.
  */
  function Resume(w: Watch, now: Long): (r: Step)
    ensures r.events == []
    ensures PhaseOf(w) == Paused ==>
      && PhaseOf(r.watch) == Running
      && r.watch == w.(pauseDelay := Sub(now, w.stopedAt), paused := false, stopedAt := 0)
      && (w.startedAt <= w.stopedAt <= now && now - w.startedAt < TwoTo63 ==>
            Elapsed(r.watch, now) == w.stopedAt - w.startedAt)
    ensures PhaseOf(w) != Paused ==> r.watch == w
  {
    if w.paused && !w.stoped then
      Step(w.(pauseDelay := Sub(now, w.stopedAt), paused := false, stopedAt := 0), [])
    else Step(w, [])
  }

  /**
    `stop()`: a watch that is not yet stopped records the stop instant, folds a pending
    pause into the pause delay (replacing it), and then decrements the gauge and adds its
    final reading to the performance counter, in that order. The `paused` flag is kept.
  */
  function Stop(w: Watch, now: Long): (r: Step)
    ensures w.stoped ==> r == Step(w, [])
    ensures !w.stoped ==>
      && PhaseOf(r.watch) == Halted
      && r.watch.startedAt == w.startedAt
      && r.watch.stopedAt == now
      && r.watch.paused == w.paused
      && r.watch.pauseDelay == (if w.paused then Sub(now, w.stopedAt) else w.pauseDelay)
      && (forall t: Long :: Elapsed(r.watch, t) == Elapsed(r.watch, now))
      && r.events == [Dec, Add(Elapsed(r.watch, now))]
    ensures !w.stoped && !w.paused ==> r.events == [Dec, Add(Elapsed(w, now))]
    ensures !w.stoped && w.paused && w.startedAt <= w.stopedAt <= now && now - w.startedAt < TwoTo63 ==>
      r.events == [Dec, Add(w.stopedAt - w.startedAt)]
  {
    if !w.stoped then
      var pauseDelay := if w.paused then Sub(now, w.stopedAt) else w.pauseDelay;
      var stopped := w.(stopedAt := now, pauseDelay := pauseDelay, stoped := true);
      Step(stopped, [Dec, Add(Elapsed(stopped, now))])
    else Step(w, [])
  }

  /**
    `cancel()`: a watch that is not yet stopped is marked stopped and decrements the gauge;
    no sample is recorded and `stopedAt` is left as it was.
  */
  function Cancel(w: Watch): (r: Step)
    ensures w.stoped ==> r == Step(w, [])
    ensures !w.stoped ==>
      && PhaseOf(r.watch) == Halted
      && r.watch == w.(stoped := true)
      && r.events == [Dec]
  {
    if !w.stoped then Step(w.(stoped := true), [Dec])
    else Step(w, [])
  }

  /** `stop(canceled)`: cancels when asked to, stops otherwise. */
  function StopWith(w: Watch, canceled: bool, now: Long): (r: Step)
    ensures canceled ==> r == Cancel(w)
    ensures !canceled ==> r == Stop(w, now)
    ensures IsStoped(r.watch)
    ensures w.stoped ==> r == Step(w, [])
    ensures !w.stoped ==> r.events[0] == Dec && (|r.events| == 2 <==> !canceled)
  {
    if canceled then Cancel(w) else Stop(w, now)
  }

  // ---------------------------------------------------------------------------
  // Adding pauses up, as a stop watch that measures active time would

  /**
    No `long` arithmetic of the watch overflows up to `now`, and its pause delay lies
    within the span it measures.
  */
  predicate InSpan(w: Watch, now: Long) {
    && w.startedAt <= now
    && now - w.startedAt < TwoTo63
    && 0 <= w.pauseDelay
    && if w.paused then w.startedAt + w.pauseDelay <= w.stopedAt <= now
       else w.pauseDelay <= now - w.startedAt
  }

  /**
    `resume()` with the pause just ended added to the pause delay instead of replacing
    it: the reading carries on from the value the pause froze.
  */
  function ResumeAccumulating(w: Watch, now: Long): (r: Step)
    ensures r.events == []
    ensures PhaseOf(w) == Paused ==>
      && PhaseOf(r.watch) == Running
      && r.watch == w.(pauseDelay := Wrap(w.pauseDelay + Sub(now, w.stopedAt)), paused := false, stopedAt := 0)
      && (InSpan(w, now) ==> Elapsed(r.watch, now) == Elapsed(w, now))
    ensures PhaseOf(w) != Paused ==> r.watch == w
  {
    if w.paused && !w.stoped then
      Step(w.(pauseDelay := Wrap(w.pauseDelay + Sub(now, w.stopedAt)), paused := false, stopedAt := 0), [])
    else Step(w, [])
  }

  /**
    `stop()` with a pending pause added to the pause delay instead of replacing it: the
    recorded sample is the reading the watch had, paused or running.
  */
  function StopAccumulating(w: Watch, now: Long): (r: Step)
    ensures w.stoped ==> r == Step(w, [])
    ensures !w.stoped ==>
      && PhaseOf(r.watch) == Halted
      && r.watch.startedAt == w.startedAt
      && r.watch.stopedAt == now
      && (forall t: Long :: Elapsed(r.watch, t) == Elapsed(r.watch, now))
      && r.events == [Dec, Add(Elapsed(r.watch, now))]
    ensures !w.stoped && InSpan(w, now) ==> r.events == [Dec, Add(Elapsed(w, now))]
  {
    if !w.stoped then
      var pauseDelay := if w.paused then Wrap(w.pauseDelay + Sub(now, w.stopedAt)) else w.pauseDelay;
      var stopped := w.(stopedAt := now, pauseDelay := pauseDelay, stoped := true);
      Step(stopped, [Dec, Add(Elapsed(stopped, now))])
    else Step(w, [])
  }
}
