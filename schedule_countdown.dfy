/** The countdown window shown before a custom schedule is committed
    (src/schedule-countdown.c): it counts from five down to zero, one tick
    per second, and then asks for the schedule; its two buttons ask for it
    or call it off at once. The "schedule" signal is the value returned by
    the member that emits it. */
module Countdown {
  import opened Rules
  import opened Text

  /** COUNTDOWN_START. */
  const CountdownStart: nat := 5

  /** schedule_countdown_set_title: "00:%02d" in a 6-byte buffer. */
  function Title(seconds: nat): (shown: string)
    ensures |shown| == 5 && shown[..3] == "00:"
  {
    Snprintf("00:" + Pad2(seconds), 6)
  }

  /** Every value the countdown shows (0 to 5) is written 00:0S. */
  lemma TitleOfSingleDigit(seconds: nat)
    requires seconds < 10
    ensures Title(seconds) == ['0', '0', ':', '0', Digit(seconds)]
    ensures Value(Title(seconds)[3..]) == seconds
  {
    Pad2TwoDigits(seconds);
    assert ("00:" + Pad2(seconds))[3..] == Pad2(seconds);
  }

  class ScheduleCountdown {
    var secondsRemaining: int
    /** The status page's title. */
    var title: string
    /** The timer source is attached and calls Tick once a second. */
    var timerAttached: bool
    var windowOpen: bool
    /** Every title shown so far, oldest first. */
    ghost var titles: seq<string>

    ghost predicate Valid()
      reads this
    {
      && 0 <= secondsRemaining < CountdownStart
      && titles != [] && title == titles[|titles| - 1]
    }

    /** schedule_countdown_init: show the starting value, then count the
        first second as already running. */
    constructor ()
      ensures Valid()
      ensures title == Title(CountdownStart) && titles == [Title(CountdownStart)]
      ensures secondsRemaining == CountdownStart - 1
      ensures timerAttached && windowOpen
    {
      title := Title(CountdownStart);
      titles := [title];
      secondsRemaining := CountdownStart - 1;
      timerAttached := true;
      windowOpen := true;
    }

    /** schedule_countdown_seconds_counter. While time remains it shows the
        current value and counts it down (a post-decrement), keeping the
        timer; at zero it shows 0, asks for the schedule and returns FALSE,
        which removes the timer. */
    method Tick() returns (keepRunning: bool, scheduled: Option<bool>)
      requires Valid() && timerAttached
      modifies this`secondsRemaining, this`title, this`titles, this`timerAttached
      ensures Valid()
      ensures secondsRemaining <= old(secondsRemaining)
      ensures old(secondsRemaining) > 0 ==>
        && keepRunning && scheduled == None && timerAttached
        && secondsRemaining == old(secondsRemaining) - 1
        && title == Title(old(secondsRemaining))
      ensures old(secondsRemaining) <= 0 ==>
        && !keepRunning && scheduled == Some(true) && !timerAttached
        && secondsRemaining == old(secondsRemaining)
        && title == Title(0)
      ensures titles == old(titles) + [title]
    {
      if secondsRemaining <= 0 {
        SetTitle(0);
        keepRunning := false;
        scheduled := Some(true);
        timerAttached := false;
        return;
      }
      SetTitle(secondsRemaining);
      secondsRemaining := secondsRemaining - 1;
      keepRunning := true;
      scheduled := None;
    }

    method SetTitle(seconds: nat)
      modifies this`title, this`titles
      ensures title == Title(seconds) && titles == old(titles) + [title]
    {
      title := Title(seconds);
      titles := titles + [title];
    }

    /** schedule_countdown_cancel_button_clicked: emits schedule(FALSE)
        whatever the remaining time, and changes nothing else. */
    method CancelClicked() returns (scheduled: bool)
      ensures !scheduled
    {
      scheduled := false;
    }

    /** schedule_countdown_schedule_button_clicked: emits schedule(TRUE)
        whatever the remaining time, and changes nothing else. */
    method ScheduleClicked() returns (scheduled: bool)
      ensures scheduled
    {
      scheduled := true;
    }

    /** schedule_countdown_finalize: destroy the timer, then close the
        window. */
    method Finalize()
      modifies this`timerAttached, this`windowOpen
      ensures !timerAttached && !windowOpen
    {
      timerAttached := false;
      windowOpen := false;
    }
  }

  /** A countdown left alone: the timer fires until it removes itself. The
      titles are 5, 4, 3, 2, 1, 0, the schedule is asked for exactly once,
      on the fifth tick, and the window is still open for the caller to
      finalize. */
  method RunUninterrupted() returns (shown: seq<string>, signals: seq<bool>, ticks: nat)
    ensures |shown| == 6 && forall k :: 0 <= k < 6 ==> shown[k] == Title(5 - k)
    ensures signals == [true]
    ensures ticks == 5
  {
    var countdown := new ScheduleCountdown();
    shown := [countdown.title];
    signals := [];
    ticks := 0;
    var running := true;
    while running
      invariant countdown.Valid()
      invariant running <==> countdown.timerAttached
      invariant running ==> ticks + countdown.secondsRemaining == 4 && signals == []
      invariant !running ==> ticks == 5 && signals == [true]
      invariant shown == countdown.titles
      invariant forall k :: 0 <= k < |shown| ==> k <= 5 && shown[k] == Title(5 - k)
      invariant |shown| == ticks + 1
      decreases countdown.secondsRemaining + (if running then 1 else 0)
    {
      var scheduled;
      running, scheduled := countdown.Tick();
      ticks := ticks + 1;
      shown := shown + [countdown.title];
      if scheduled.Some? {
        signals := signals + [scheduled.value];
      }
    }
  }
}
