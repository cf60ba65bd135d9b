/**
 The rest-timer countdown of `ExerciseRow.startTimer`.

 There is no numeric counter: the label shown on screen ("1:30", "1:29",
 ..., "0:00") is the whole state. Every second the repeating timer's
 closure splits the label on ":", reads minutes and seconds with `Int(_:)`
 (falling back to 0 when a piece does not parse), and writes the next label.

 The state record pairs the two published view-model fields with the number
 of repeating timers currently scheduled on the run loop. Scheduling is not
 modelled as real time: a `Tick` is one firing of one live timer.
 */
module RestTimer {
  import opened SwiftText

  const IdleLabel: string := "Timer"
  const StartLabel: string := "1:30"
  const FinishedLabel: string := "Start next set!"

  /** The rest period `StartLabel` stands for, in seconds. */
  const RestSeconds: nat := 90

  /**
   `text` and `running` are the view model's `timerLabel` and
   `isTimerRunning`; `liveTimers` counts the repeating timers that have been
   scheduled and not yet invalidated.
   */
  datatype TimerState = TimerState(text: string, running: bool, liveTimers: nat)

  /** What goes wrong at run time when the closure meets a label it cannot read. */
  datatype Fault =
    | IndexOutOfRange     // `split(...)[1]` on a label with fewer than two pieces
    | ArithmeticOverflow  // `minutes - 1` or `seconds - 1` below `Int.min`

  datatype TickResult = Ticked(state: TimerState) | Crashed(fault: Fault)

  /** The state a fresh view model starts in. */
  function Initial(): (t: TimerState)
    ensures !t.running && t.liveTimers == 0
    ensures t.text == IdleLabel
  {
    TimerState(IdleLabel, false, 0)
  }

  /**
   A tap on a set button. While a countdown runs the tap is ignored;
   otherwise the label is reset to "1:30", the running flag is raised and
   one more repeating timer is scheduled.
   */
  function Start(t: TimerState): (r: TimerState)
    ensures t.running ==> r == t
    ensures !t.running ==> r.text == StartLabel && r.running && r.liveTimers == t.liveTimers + 1
  {
    if t.running then t else TimerState(StartLabel, true, t.liveTimers + 1)
  }

  /** A second tap changes nothing the first did not. */
  lemma StartIdempotent(t: TimerState)
    ensures Start(Start(t)) == Start(t)
  {
  }

  // ---------------------------------------------------------------------
  // Reading and writing the label

  /**
   The two `Int(_:)` results the closure computes from the label, before
   the `?? 0` fallback; `None` when the label has fewer than two pieces and
   indexing the split traps.
   */
  function ParseClock(text: string): (r: Option<(Option<int>, Option<int>)>)
    ensures r.None? <==> |Split(text, ':')| < 2
  {
    var pieces := Split(text, ':');
    if |pieces| < 2 then None else Some((ParseInt(pieces[0]), ParseInt(pieces[1])))
  }

  /** The label the closure writes for `minutes` and `seconds`: `"\(minutes):"` then `"%02d"` of the seconds. */
  function Format(minutes: int, seconds: int): (r: string)
    ensures |ShowInt(minutes)| < |r| && r[|ShowInt(minutes)|] == ':'
  {
    ShowInt(minutes) + ":" + Pad2(seconds)
  }

  /** The closure's split of a label it writes yields exactly the minutes and the padded seconds. */
  lemma FormatSplits(minutes: int, seconds: int)
    ensures Split(Format(minutes, seconds), ':') == [ShowInt(minutes), Pad2(seconds)]
  {
    ShowIntDigits(minutes);
    Pad2Digits(seconds);
    SplitPair(ShowInt(minutes), Pad2(seconds), ':');
    assert Format(minutes, seconds) == ShowInt(minutes) + [':'] + Pad2(seconds);
  }

  /**
   One firing of the repeating timer's closure. The closure is only ever
   invoked by a live timer, hence the precondition.
   */
  function Tick(t: TimerState): (r: TickResult)
    requires t.liveTimers > 0
    ensures ParseClock(t.text).None? ==> r == Crashed(IndexOutOfRange)
    ensures r.Ticked? ==> r.state.running == (t.running && r.state.liveTimers == t.liveTimers)
    ensures r.Ticked? ==> r.state.liveTimers == t.liveTimers || r.state == TimerState(FinishedLabel, false, t.liveTimers - 1)
  {
    match ParseClock(t.text)
    case None => Crashed(IndexOutOfRange)
    case Some((minutesText, secondsText)) => Advance(t, minutesText.GetOr(0), secondsText.GetOr(0))
  }

  /** The closure once it has read `minutes` and `seconds` (after the `?? 0` fallback). */
  function Advance(t: TimerState, minutes: int, seconds: int): (r: TickResult)
    requires t.liveTimers > 0
    ensures r.Ticked? ==> r.state.running == (t.running && r.state.liveTimers == t.liveTimers)
    ensures r.Ticked? ==> r.state.liveTimers == t.liveTimers || r.state == TimerState(FinishedLabel, false, t.liveTimers - 1)
  {
    if minutes == 0 && seconds == 0 then
      Ticked(TimerState(FinishedLabel, false, t.liveTimers - 1))
    else if seconds == 0 then
      if !InIntRange(minutes - 1) then Crashed(ArithmeticOverflow)
      else Ticked(t.(text := ShowInt(minutes - 1) + ":59"))
    else
      if !InIntRange(seconds - 1) then Crashed(ArithmeticOverflow)
      else Ticked(t.(text := Format(minutes, seconds - 1)))
  }

  /** Every label `Format` writes is read back by the closure as the same pair: the `?? 0` fallback is not taken. */
  lemma ParseFormat(minutes: int, seconds: int)
    requires InIntRange(minutes) && InIntRange(seconds)
    ensures ParseClock(Format(minutes, seconds)) == Some((Some(minutes), Some(seconds)))
  {
    ShowIntDigits(minutes);
    Pad2Digits(seconds);
    SplitPair(ShowInt(minutes), Pad2(seconds), ':');
    assert Format(minutes, seconds) == ShowInt(minutes) + [':'] + Pad2(seconds);
    ShowIntRoundTrip(minutes);
    Pad2RoundTrip(seconds);
  }

  /** A label with no ':' (such as "Timer" or "Start next set!") makes the closure trap. */
  lemma TickWithoutColonTraps(t: TimerState)
    requires t.liveTimers > 0
    requires ':' !in t.text
    ensures Tick(t) == Crashed(IndexOutOfRange)
  {
    IndexOfFirst(t.text, ':');
    assert IndexOf(t.text, ':') == |t.text|;
  }

  /**
   The `- 1` on the minutes overflows on a label reading `Int.min` whole
   minutes, and the `- 1` on the seconds overflows on a label reading
   `Int.min` seconds: both trap.
   */
  lemma TickOverflowTraps(t: TimerState, minutes: int)
    requires t.liveTimers > 0 && InIntRange(minutes)
    ensures t.text == Format(IntMin, 0) ==> Tick(t) == Crashed(ArithmeticOverflow)
    ensures t.text == Format(minutes, IntMin) ==> Tick(t) == Crashed(ArithmeticOverflow)
  {
    if t.text == Format(IntMin, 0) {
      ParseFormat(IntMin, 0);
      TickOnClock(t, IntMin, 0);
    } else if t.text == Format(minutes, IntMin) {
      ParseFormat(minutes, IntMin);
      TickOnClock(t, minutes, IntMin);
    }
  }

  /**
   The closure reads the label's first two pieces: whatever follows a
   second ':' is not looked at.
   */
  lemma ParseClockOfPieces(a: string, b: string, rest: string)
    requires a != [] && b != [] && ':' !in a && ':' !in b
    requires rest == [] || rest[0] == ':'
    ensures ParseClock(a + ":" + b + rest) == Some((ParseInt(a), ParseInt(b)))
  {
    var s := a + ":" + b + rest;
    assert s == a + [':'] + (b + rest);
    SplitAtFirst(a, b + rest, ':');
    if rest == [] {
      assert b + rest == b;
      SplitWithoutSeparator(b, ':');
    } else {
      assert b + rest == b + [':'] + rest[1..];
      SplitAtFirst(b, rest[1..], ':');
    }
  }

  // ---------------------------------------------------------------------
  // The `?? 0` fallback

  /** Neither piece parses: both fall back to 0, and the countdown finishes. */
  lemma TickOnUnreadableLabel(t: TimerState)
    requires t.liveTimers > 0
    requires ParseClock(t.text) == Some((None, None))
    ensures Tick(t) == Ticked(TimerState(FinishedLabel, false, t.liveTimers - 1))
  {
  }

  /** The seconds do not parse: they fall back to 0, and a minute is borrowed. */
  lemma TickOnUnreadableSeconds(t: TimerState, minutes: int)
    requires t.liveTimers > 0
    requires ParseClock(t.text) == Some((Some(minutes), None))
    requires minutes != 0 && InIntRange(minutes - 1)
    ensures Tick(t) == Ticked(t.(text := Format(minutes - 1, 59)))
  {
    BorrowedLabel(minutes - 1);
  }

  /** The minutes do not parse: they fall back to 0, and the seconds count down. */
  lemma TickOnUnreadableMinutes(t: TimerState, seconds: int)
    requires t.liveTimers > 0
    requires ParseClock(t.text) == Some((None, Some(seconds)))
    requires 0 < seconds <= IntMax
    ensures Tick(t) == Ticked(t.(text := Format(0, seconds - 1)))
  {
  }

  // ---------------------------------------------------------------------
  // The three branches of the closure on a well-formed label

  /** On a label it reads without the fallback, the closure goes on with what it read. */
  lemma TickOnClock(t: TimerState, minutes: int, seconds: int)
    requires t.liveTimers > 0
    requires ParseClock(t.text) == Some((Some(minutes), Some(seconds)))
    ensures Tick(t) == Advance(t, minutes, seconds)
  {
  }

  /** "m:ss" with ss > 0 becomes "m:" followed by ss - 1 padded to two digits. */
  lemma TickDecrementsSeconds(t: TimerState, minutes: int, seconds: int)
    requires t.liveTimers > 0
    requires InIntRange(minutes) && 0 < seconds <= IntMax
    requires t.text == Format(minutes, seconds)
    ensures Tick(t) == Ticked(t.(text := Format(minutes, seconds - 1)))
  {
    ParseFormat(minutes, seconds);
    TickOnClock(t, minutes, seconds);
    assert Advance(t, minutes, seconds) == Ticked(t.(text := Format(minutes, seconds - 1)));
  }

  /** "m:00" with m != 0 borrows a minute and becomes "(m-1):59". */
  lemma TickBorrowsMinute(t: TimerState, minutes: int)
    requires t.liveTimers > 0
    requires minutes != 0 && InIntRange(minutes) && InIntRange(minutes - 1)
    requires t.text == Format(minutes, 0)
    ensures Tick(t) == Ticked(t.(text := Format(minutes - 1, 59)))
  {
    ParseFormat(minutes, 0);
    TickOnClock(t, minutes, 0);
    assert Advance(t, minutes, 0) == Ticked(t.(text := ShowInt(minutes - 1) + ":59"));
    BorrowedLabel(minutes - 1);
  }

  /** The label the borrowing branch writes, `"\(minutes - 1):59"`, is the formatted label for 59 seconds. */
  lemma BorrowedLabel(minutes: int)
    ensures ShowInt(minutes) + ":59" == Format(minutes, 59)
  {
    assert ShowNat(5) == "5";
    assert ShowNat(59) == ShowNat(5) + "9";
    assert Pad2(59) == "59";
  }

  lemma ZeroLabel()
    ensures LabelFor(0) == "0:00"
  {
    assert ShowNat(0) == "0";
  }

  /** "0:00" ends the countdown: the finished label, the flag lowered, this timer invalidated. */
  lemma TickFinishes(t: TimerState)
    requires t.liveTimers > 0
    requires t.text == "0:00"
    ensures Tick(t) == Ticked(TimerState(FinishedLabel, false, t.liveTimers - 1))
  {
    assert Format(0, 0) == "0:00" by {
      assert ShowNat(0) == "0";
    }
    ParseFormat(0, 0);
    TickOnClock(t, 0, 0);
  }

  // ---------------------------------------------------------------------
  // Labels as a count of remaining seconds

  /**
   The seconds the closure reads from a label, `60 * minutes + seconds`,
   when it reads both pieces without the fallback, with minutes that are
   not negative and seconds below 60; `None` for any other label.
   */
  function Remaining(text: string): Option<nat> {
    match ParseClock(text)
    case Some((Some(m), Some(s))) => if 0 <= m && 0 <= s < 60 then Some(60 * m + s) else None
    case _ => None
  }

  /** The most seconds a label can stand for: the minutes must fit in an `Int`. */
  const MaxSeconds: nat := 60 * IntMax + 59

  /** The label for `r` remaining seconds. */
  function LabelFor(r: nat): string {
    Format(r / 60, r % 60)
  }

  /** Every count of seconds has a running label that reads back as that count. */
  lemma LabelForIsRunning(r: nat)
    requires r <= MaxSeconds
    ensures Remaining(LabelFor(r)) == Some(r)
  {
    var m, s := SplitSeconds(r);
    ParseFormat(m, s);
  }

  /** `r` seconds as whole minutes, which fit in an `Int`, and the seconds left over. */
  lemma SplitSeconds(r: nat) returns (m: nat, s: nat)
    requires r <= MaxSeconds
    ensures m == r / 60 && s == r % 60
    ensures m <= IntMax && s < 60 && r == 60 * m + s
  {
    m, s := r / 60, r % 60;
  }

  /**
   Conversely, every label the closure writes for a whole number of minutes
   and seconds below 60 is the label of `60 * m + s` seconds.
   */
  lemma LabelForClock(m: nat, s: nat)
    requires m <= IntMax && s < 60
    ensures 60 * m + s <= MaxSeconds
    ensures LabelFor(60 * m + s) == Format(m, s)
  {
    DivMod60(m, s);
  }

  lemma DivMod60(m: nat, s: nat)
    requires s < 60
    ensures (60 * m + s) / 60 == m && (60 * m + s) % 60 == s
  {
  }

  /** Digits, ':', then two digits the first of which is at most 5. */
  predicate ClockShape(text: string) {
    && |text| >= 4
    && AllDigits(text[..|text| - 3])
    && text[|text| - 3] == ':'
    && AllDigits(text[|text| - 2..])
    && text[|text| - 2] <= '5'
  }

  lemma LabelForShape(r: nat)
    requires r <= MaxSeconds
    ensures ClockShape(LabelFor(r))
  {
    var s := r % 60;
    var minutes, seconds := ShowInt(r / 60), Pad2(s);
    var text := LabelFor(r);
    ShowIntDigits(r / 60);
    Pad2Digits(s);
    assert text == minutes + ":" + seconds;
    assert |seconds| == 2;
    assert text[..|text| - 3] == minutes;
    assert text[|text| - 2..] == seconds;
    if s >= 10 {
      assert seconds == ShowNat(s / 10) + [DigitChar(s % 10)];
      assert ShowNat(s / 10) == [DigitChar(s / 10)];
    }
  }

  /** On the label for `q + 1` seconds, a tick shows the label for `q` seconds. */
  lemma TickOnLabelFor(t: TimerState, q: nat)
    requires t.liveTimers > 0
    requires q < MaxSeconds
    requires t.text == LabelFor(q + 1)
    ensures Tick(t) == Ticked(t.(text := LabelFor(q)))
  {
    var m, s := SplitSeconds(q + 1);
    var m', s' := SplitSeconds(q);
    if s > 0 {
      assert m' == m && s' == s - 1;
      TickDecrementsSeconds(t, m, s);
    } else {
      assert m' == m - 1 && s' == 59;
      TickBorrowsMinute(t, m);
    }
  }

  /** On the label for 0 seconds, a tick finishes the countdown. */
  lemma TickOnZeroLabel(t: TimerState)
    requires t.liveTimers > 0
    requires t.text == LabelFor(0)
    ensures Tick(t) == Ticked(TimerState(FinishedLabel, false, t.liveTimers - 1))
  {
    ZeroLabel();
    TickFinishes(t);
  }

  /**
   Each tick on a running label takes exactly one second off
   `60 * minutes + seconds`: the label for `q + 1` seconds becomes the
   label for `q` seconds. (The tick on the label for 0 seconds finishes the
   countdown, `TickOnZeroLabel`.)
   */
  lemma TickCountsDown(t: TimerState, q: nat)
    requires t.liveTimers > 0
    requires q < MaxSeconds
    requires t.text == LabelFor(q + 1)
    ensures Remaining(t.text) == Some(q + 1)
    ensures Tick(t).Ticked? && Tick(t).state == t.(text := LabelFor(q))
    ensures Remaining(Tick(t).state.text) == Some(q)
  {
    LabelForIsRunning(q + 1);
    LabelForIsRunning(q);
    TickOnLabelFor(t, q);
  }

  // ---------------------------------------------------------------------
  // The invariant of reachable timer states

  /**
   At most one repeating timer is live, exactly while the countdown runs,
   and while it runs the label is the label of at most 90 seconds.
   */
  predicate Inv(t: TimerState) {
    && t.liveTimers == (if t.running then 1 else 0)
    && (t.running ==> exists r: nat :: r <= RestSeconds && t.text == LabelFor(r))
  }

  /** While the countdown runs its label is well formed and the closure reads it back without the fallback. */
  lemma InvRunningLabel(t: TimerState)
    requires Inv(t) && t.running
    ensures Remaining(t.text).Some? && Remaining(t.text).value <= RestSeconds
    ensures ClockShape(t.text)
  {
    var r: nat :| r <= RestSeconds && t.text == LabelFor(r);
    LabelForIsRunning(r);
    LabelForShape(r);
  }

  /** "1:30" is the label of the 90-second rest period. */
  lemma StartLabelIsRestPeriod()
    ensures StartLabel == LabelFor(RestSeconds)
  {
    assert ShowNat(1) == "1";
    assert ShowNat(3) == "3";
    assert ShowNat(30) == ShowNat(3) + "0";
    assert Pad2(30) == "30";
  }

  lemma InitialSatisfiesInv()
    ensures Inv(Initial())
  {
  }

  lemma StartPreservesInv(t: TimerState)
    requires Inv(t)
    ensures Inv(Start(t))
  {
    if !t.running {
      StartLabelIsRestPeriod();
      assert Start(t).text == LabelFor(RestSeconds);
    }
  }

  /** In a reachable state the closure never traps, and the invariant survives the tick. */
  lemma TickPreservesInv(t: TimerState)
    requires Inv(t) && t.liveTimers > 0
    ensures Tick(t).Ticked?
    ensures Inv(Tick(t).state)
  {
    var r: nat :| r <= RestSeconds && t.text == LabelFor(r);
    TickOnRunningLabel(t, r);
  }

  /** A tick on the running label for at most 90 seconds keeps the invariant. */
  lemma TickOnRunningLabel(t: TimerState, r: nat)
    requires t.running && t.liveTimers == 1
    requires r <= RestSeconds && t.text == LabelFor(r)
    ensures Tick(t).Ticked? && Inv(Tick(t).state)
  {
    if r == 0 {
      TickOnZeroLabel(t);
    } else {
      TickKeepsCounting(t, r - 1);
    }
  }

  lemma TickKeepsCounting(t: TimerState, q: nat)
    requires t.running && t.liveTimers == 1
    requires q < RestSeconds && t.text == LabelFor(q + 1)
    ensures Tick(t).Ticked? && Inv(Tick(t).state)
  {
    TickOnLabelFor(t, q);
    assert Tick(t).state.text == LabelFor(q);
  }

  // ---------------------------------------------------------------------
  // Iterated ticks

  /** `k` successive steps of `step`, stopping at the first crash. */
  function Run(step: TimerState -> TickResult, t: TimerState, k: nat): TickResult
    decreases k
  {
    if k == 0 then Ticked(t)
    else
      match step(t)
      case Crashed(f) => Crashed(f)
      case Ticked(next) => Run(step, next, k - 1)
  }

  /**
   One second of the run loop: the single live timer fires (at most one is
   live in a reachable state); with no timer live nothing happens.
   */
  function Fire(t: TimerState): (r: TickResult)
    ensures t.liveTimers == 0 ==> r == Ticked(t)
    ensures r.Ticked? ==> r.state.liveTimers <= t.liveTimers
    ensures r.Ticked? && !t.running ==> !r.state.running
  {
    if t.liveTimers == 0 then Ticked(t) else Tick(t)
  }

  /** The state after `k` seconds. Once no timer is live, the seconds change nothing. */
  function TickN(t: TimerState, k: nat): (r: TickResult)
    ensures t.liveTimers == 0 ==> r == Ticked(t)
  {
    if t.liveTimers == 0 then
      RunAtFixpoint(Fire, t, k);
      Run(Fire, t, k)
    else
      Run(Fire, t, k)
  }

  /** A running timer showing the label for `r` seconds. */
  function Counting(r: nat): TimerState {
    TimerState(LabelFor(r), true, 1)
  }

  const Done: TimerState := TimerState(FinishedLabel, false, 0)

  lemma {:induction false} RunAdd(step: TimerState -> TickResult, t: TimerState, a: nat, b: nat)
    ensures Run(step, t, a).Crashed? ==> Run(step, t, a + b) == Run(step, t, a)
    ensures Run(step, t, a).Ticked? ==> Run(step, t, a + b) == Run(step, Run(step, t, a).state, b)
    decreases a
  {
    if a > 0 && step(t).Ticked? {
      RunAdd(step, step(t).state, a - 1, b);
    }
  }

  /**
   A step that takes each state `c(q + 1)` of a countdown to `c(q)` takes
   `k <= r` steps from `c(r)` to `c(r - k)`.
   */
  lemma {:induction false} RunCountsDown(step: TimerState -> TickResult, c: nat -> TimerState, r: nat, k: nat)
    requires k <= r
    requires forall q: nat :: q < r ==> step(c(q + 1)) == Ticked(c(q))
    ensures Run(step, c(r), k) == Ticked(c(r - k))
    decreases k
  {
    if k > 0 {
      var q: nat := r - 1;
      assert step(c(q + 1)) == Ticked(c(q));
      RunCountsDown(step, c, q, k - 1);
    }
  }

  lemma {:induction false} RunAtFixpoint(step: TimerState -> TickResult, t: TimerState, k: nat)
    requires step(t) == Ticked(t)
    ensures Run(step, t, k) == Ticked(t)
    decreases k
  {
    if k > 0 {
      RunAtFixpoint(step, t, k - 1);
    }
  }

  /**
   A step that counts down as above, then takes `c(0)` to a state it
   leaves alone, reaches that state at step `r + 1` and stays there.
   */
  lemma RunCountsDownThenStops(step: TimerState -> TickResult, c: nat -> TimerState, r: nat, done: TimerState, k: nat)
    requires r < k
    requires forall q: nat :: q < r ==> step(c(q + 1)) == Ticked(c(q))
    requires step(c(0)) == Ticked(done) && step(done) == Ticked(done)
    ensures Run(step, c(r), k) == Ticked(done)
  {
    var extra := k - r - 1;
    RunCountsDown(step, c, r, r);
    RunAdd(step, c(r), r, 1 + extra);
    assert Run(step, c(0), 1 + extra) == Run(step, done, extra);
    RunAtFixpoint(step, done, extra);
  }

  /** One second takes the running label for `q + 1` seconds to the one for `q`. */
  lemma FireCountsDown(q: nat)
    requires q < MaxSeconds
    ensures Fire(Counting(q + 1)) == Ticked(Counting(q))
  {
    TickOnLabelFor(Counting(q + 1), q);
  }

  /** The second after "0:00" shows "Start next set!" and leaves no timer live. */
  lemma FireFinishes()
    ensures Fire(Counting(0)) == Ticked(Done)
    ensures Fire(Done) == Ticked(Done)
  {
    TickOnZeroLabel(Counting(0));
  }

  /**
   After a tap on an idle timer, second k (k <= 90) shows the label for
   90 - k seconds, so second 90 shows "0:00", second 91 shows
   "Start next set!" with no timer left, and nothing happens after that.
   */
  lemma RestCountdown(k: nat)
    ensures k <= RestSeconds ==> TickN(Start(Initial()), k) == Ticked(Counting(RestSeconds - k))
    ensures k > RestSeconds ==> TickN(Start(Initial()), k) == Ticked(Done)
  {
    StartLabelIsRestPeriod();
    assert Start(Initial()) == Counting(RestSeconds);
    forall q: nat | q < RestSeconds
      ensures Fire(Counting(q + 1)) == Ticked(Counting(q))
    {
      FireCountsDown(q);
    }
    if k <= RestSeconds {
      RunCountsDown(Fire, Counting, RestSeconds, k);
    } else {
      FireFinishes();
      RunCountsDownThenStops(Fire, Counting, RestSeconds, Done, k);
    }
  }

  /** The labels of the first three seconds and of the last running second. */
  lemma RestCountdownLabels()
    ensures TickN(Start(Initial()), 1) == Ticked(TimerState("1:29", true, 1))
    ensures TickN(Start(Initial()), 2) == Ticked(TimerState("1:28", true, 1))
    ensures TickN(Start(Initial()), 3) == Ticked(TimerState("1:27", true, 1))
    ensures TickN(Start(Initial()), 90) == Ticked(TimerState("0:00", true, 1))
  {
    RestCountdown(1);
    RestCountdown(2);
    RestCountdown(3);
    RestCountdown(90);
    EarlyLabels();
    ZeroLabel();
  }

  lemma EarlyLabels()
    ensures LabelFor(89) == "1:29" && LabelFor(88) == "1:28" && LabelFor(87) == "1:27"
  {
    LateTwentiesLabel(9);
    LateTwentiesLabel(8);
    LateTwentiesLabel(7);
  }

  /** The label for `80 + d` seconds is "1:2" followed by the digit `d`. */
  lemma LateTwentiesLabel(d: nat)
    requires d < 10
    ensures LabelFor(80 + d) == "1:2" + [DigitChar(d)]
  {
    assert ShowNat(1) == "1" && ShowNat(2) == "2";
    assert ShowNat(20 + d) == ShowNat(2) + [DigitChar(d)];
  }
}
