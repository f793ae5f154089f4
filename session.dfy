/**
 * The session lifecycle of the poker table: a status that goes
 * not-started, in-progress, ended, and a duration in whole seconds that the
 * stopwatch advances once a second while the session is in progress.
 */
module Session {

  datatype Status = NotStarted | InProgress | Ended

  datatype SessionState = SessionState(status: Status, duration: nat)

  /** What can happen to a session: the three buttons, and one second passing. */
  datatype Event = Start | Stop | Reset | Tick

  const Initial: SessionState := SessionState(NotStarted, 0)

  /**
   * What each event does. The buttons' handlers set the status whatever it
   * was; a second that passes advances the duration only while the stopwatch
   * runs, which is only while the session is in progress.
   */
  function Step(s: SessionState, e: Event): SessionState {
    match e
    case Start => SessionState(InProgress, 0)
    case Stop => s.(status := Ended)
    case Reset => SessionState(NotStarted, 0)
    case Tick => if s.status == InProgress then s.(duration := s.duration + 1) else s
  }

  /** When each event can happen: the buttons are disabled outside these states; time always passes. */
  predicate Enabled(s: SessionState, e: Event) {
    match e
    case Start => s.status == NotStarted
    case Stop => s.status == InProgress
    case Reset => s.status != NotStarted
    case Tick => true
  }

  /** The state after a sequence of events, oldest first. */
  function Run(s: SessionState, es: seq<Event>): SessionState {
    if es == [] then s else Step(Run(s, es[..|es| - 1]), es[|es| - 1])
  }

  /** Every event of the sequence was enabled when it happened. */
  predicate EnabledRun(s: SessionState, es: seq<Event>) {
    es == [] || (EnabledRun(s, es[..|es| - 1]) && Enabled(Run(s, es[..|es| - 1]), es[|es| - 1]))
  }

  // The reference: what the session should be after a sequence of events,
  // read off the sequence itself rather than computed step by step.

  /** The index of the latest Start or Reset, or -1 when there is none. */
  function LastRestart(es: seq<Event>): (k: int)
    ensures -1 <= k < |es|
    ensures k >= 0 ==> es[k] == Start || es[k] == Reset
    ensures forall i :: k < i < |es| ==> es[i] != Start && es[i] != Reset
  {
    if es == [] then -1
    else if es[|es| - 1] == Start || es[|es| - 1] == Reset then |es| - 1
    else LastRestart(es[..|es| - 1])
  }

  /** The seconds that pass in `es` before its first Stop. */
  function TicksBeforeStop(es: seq<Event>): nat {
    if es == [] || es[0] == Stop then 0
    else (if es[0] == Tick then 1 else 0) + TicksBeforeStop(es[1..])
  }

  /** The status a sequence of events should leave: decided by the latest Start or Reset and any Stop after it. */
  function ExpectedStatus(es: seq<Event>): Status {
    var k := LastRestart(es);
    if k < 0 || es[k] == Reset then NotStarted
    else if Stop in es[k + 1..] then Ended
    else InProgress
  }

  /** The duration it should show: the seconds since the latest Start, up to the first Stop after it. */
  function ExpectedDuration(es: seq<Event>): nat {
    var k := LastRestart(es);
    if k < 0 || es[k] == Reset then 0 else TicksBeforeStop(es[k + 1..])
  }

  lemma {:induction false} TicksBeforeStopAppend(es: seq<Event>, e: Event)
    ensures TicksBeforeStop(es + [e]) ==
      TicksBeforeStop(es) + if e == Tick && Stop !in es then 1 else 0
  {
    if es != [] {
      assert (es + [e])[1..] == es[1..] + [e];
      TicksBeforeStopAppend(es[1..], e);
      assert Stop in es <==> es[0] == Stop || Stop in es[1..] by {
        assert es == [es[0]] + es[1..];
      }
    } else {
      assert [e][1..] == [];
    }
  }

  /** After a Start or a Reset the reference is a fresh session, or a not-started one. */
  lemma ReferenceAfterRestart(es: seq<Event>)
    requires es != [] && (es[|es| - 1] == Start || es[|es| - 1] == Reset)
    ensures ExpectedStatus(es) == if es[|es| - 1] == Start then InProgress else NotStarted
    ensures ExpectedDuration(es) == 0
  {
    assert LastRestart(es) == |es| - 1;
    assert es[|es|..] == [];
  }

  /**
   * A Stop or a second passing moves the reference on from the history before
   * it: a Stop ends a session in progress, a second counts only while in
   * progress.
   */
  lemma ReferenceAfterOther(es: seq<Event>)
    requires es != [] && es[|es| - 1] != Start && es[|es| - 1] != Reset
    ensures var init, e := es[..|es| - 1], es[|es| - 1];
      && ExpectedStatus(es) ==
        (if e == Stop && ExpectedStatus(init) == InProgress then Ended else ExpectedStatus(init))
      && ExpectedDuration(es) ==
        ExpectedDuration(init) + (if e == Tick && ExpectedStatus(init) == InProgress then 1 else 0)
  {
    var init, e := es[..|es| - 1], es[|es| - 1];
    var k := LastRestart(init);
    assert LastRestart(es) == k;
    if k >= 0 {
      assert es[k] == init[k];
      if init[k] == Start {
        var t := init[k + 1..];
        assert es[k + 1..] == t + [e];
        AfterStart(t, e);
        assert ExpectedStatus(init) == if Stop in t then Ended else InProgress;
        assert ExpectedDuration(init) == TicksBeforeStop(t);
        assert ExpectedStatus(es) == if Stop in t + [e] then Ended else InProgress;
        assert ExpectedDuration(es) == TicksBeforeStop(t + [e]);
      }
    }
  }

  /** One more Stop or second after the events `t` that follow the latest Start. */
  lemma AfterStart(t: seq<Event>, e: Event)
    requires e == Stop || e == Tick
    ensures Stop in t + [e] <==> Stop in t || e == Stop
    ensures TicksBeforeStop(t + [e]) == TicksBeforeStop(t) + if e == Tick && Stop !in t then 1 else 0
  {
    TicksBeforeStopAppend(t, e);
    assert (t + [e])[|t|] == e;
    assert forall i :: 0 <= i < |t| ==> (t + [e])[i] == t[i];
  }

  /**
   * The stopwatch never drifts: after any sequence of enabled events from the
   * initial state, the status and the duration are exactly the reference ones.
   * In particular the duration is the number of seconds spent in progress
   * since the latest Start, and zero after a Reset.
   */
  lemma {:induction false} RunMatchesReference(es: seq<Event>)
    requires EnabledRun(Initial, es)
    ensures Run(Initial, es) == SessionState(ExpectedStatus(es), ExpectedDuration(es))
  {
    if es != [] {
      var init, e := es[..|es| - 1], es[|es| - 1];
      RunMatchesReference(init);
      if e == Start || e == Reset {
        ReferenceAfterRestart(es);
      } else {
        ReferenceAfterOther(es);
      }
    }
  }

  /** From the initial state only Start is possible, and a Start always begins a fresh count. */
  lemma StartFromInitial(s: SessionState)
    requires Enabled(s, Start)
    ensures s.status == NotStarted && Step(s, Start) == SessionState(InProgress, 0)
  {
  }

  /** Stopping keeps the count; a second passing after that changes nothing. */
  lemma StopFreezes(s: SessionState)
    requires Enabled(s, Stop)
    ensures Step(s, Stop) == SessionState(Ended, s.duration)
    ensures Step(Step(s, Stop), Tick) == Step(s, Stop)
  {
  }
}
