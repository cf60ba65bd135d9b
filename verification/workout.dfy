/**
 The workout screen's state: `WorkoutViewModel` (the exercise list and the
 shared rest timer) together with each `ExerciseRow`'s `selectedSet`, and
 the user events that change it: a tap on a set button, a committed edit
 of a weight field, and a firing of the rest timer.
 */
module Workout {
  import opened SwiftText
  import opened RestTimer

  /**
   One exercise. `id` stands in for the `UUID` each `Exercise` draws when it
   is created; `weight` stands in for the `Double`.
   */
  datatype Exercise = Exercise(id: nat, name: string, weight: real)

  /**
   `exercises` and `timer` are the view model; `selectedSets[i]` is the
   `selectedSet` of the row showing `exercises[i]` (0 before any tap).
   */
  datatype Session = Session(exercises: seq<Exercise>, selectedSets: seq<int>, timer: TimerState)

  /** The number of set buttons in a row (`ForEach(1...5)`). */
  const SetCount: int := 5

  const DefaultWeight: real := 20.0

  /** The names of the exercises, in display order. */
  function Names(exercises: seq<Exercise>): (names: seq<string>)
    ensures |names| == |exercises|
    ensures forall i :: 0 <= i < |exercises| ==> names[i] == exercises[i].name
  {
    seq(|exercises|, i requires 0 <= i < |exercises| => exercises[i].name)
  }

  /** The template the view model is built from. */
  const Template: seq<string> := ["Squat: ", "Bench Press: ", "Overhead Press: ", "Barbell Row: ", "Deadlift: "]

  /** `WorkoutViewModel.init` with every row not yet tapped. */
  function Init(): (s: Session)
    ensures Names(s.exercises) == Template
    ensures forall i :: 0 <= i < |s.exercises| ==> s.exercises[i].weight == DefaultWeight
    ensures forall i, j :: 0 <= i < j < |s.exercises| ==> s.exercises[i].id != s.exercises[j].id
    ensures |s.selectedSets| == |s.exercises| && forall i :: 0 <= i < |s.selectedSets| ==> s.selectedSets[i] == 0
    ensures !s.timer.running && s.timer.text == IdleLabel && s.timer.liveTimers == 0
  {
    var exercises := [
      Exercise(0, "Squat: ", DefaultWeight),
      Exercise(1, "Bench Press: ", DefaultWeight),
      Exercise(2, "Overhead Press: ", DefaultWeight),
      Exercise(3, "Barbell Row: ", DefaultWeight),
      Exercise(4, "Deadlift: ", DefaultWeight)];
    Session(exercises, seq(|exercises|, _ => 0), Initial())
  }

  /**
   A tap on button `setNumber` of row `row`: the row highlights that
   button and the rest timer is asked to start, which it ignores while a
   countdown runs. No other row and no exercise changes.
   */
  function TapSet(s: Session, row: int, setNumber: int): (r: Session)
    requires 0 <= row < |s.selectedSets|
    requires 1 <= setNumber <= SetCount
    ensures |r.selectedSets| == |s.selectedSets| && r.selectedSets[row] == setNumber
    ensures forall i :: 0 <= i < |s.selectedSets| && i != row ==> r.selectedSets[i] == s.selectedSets[i]
    ensures r.exercises == s.exercises
    ensures s.timer.running ==> r.timer == s.timer
    ensures !s.timer.running ==> r.timer.running && r.timer.text == StartLabel
  {
    s.(selectedSets := s.selectedSets[row := setNumber], timer := Start(s.timer))
  }

  /**
   A committed edit of row `row`'s weight field. `parsed` is what the
   number formatter made of the text: `None` when it rejected it, in which
   case the field keeps its old value.
   */
  function EditWeight(s: Session, row: int, parsed: Option<real>): (r: Session)
    requires 0 <= row < |s.exercises|
    ensures parsed.None? ==> r == s
    ensures parsed.Some? ==> |r.exercises| == |s.exercises| && r.exercises[row].weight == parsed.value
    ensures forall i :: 0 <= i < |s.exercises| ==>
              r.exercises[i].id == s.exercises[i].id && r.exercises[i].name == s.exercises[i].name
    ensures forall i :: 0 <= i < |s.exercises| && i != row ==> r.exercises[i] == s.exercises[i]
    ensures r.selectedSets == s.selectedSets && r.timer == s.timer
  {
    match parsed
    case None => s
    case Some(w) => s.(exercises := s.exercises[row := s.exercises[row].(weight := w)])
  }

  // ---------------------------------------------------------------------
  // Events

  datatype Event =
    | SetTapped(row: int, setNumber: int)
    | WeightEdited(row: int, parsed: Option<real>)
    | TimerFired

  /** Whether the event can happen at all: the row and button exist, and a timer is live to fire. */
  predicate Enabled(s: Session, e: Event) {
    match e
    case SetTapped(row, n) => 0 <= row < |s.selectedSets| && 1 <= n <= SetCount
    case WeightEdited(row, _) => 0 <= row < |s.exercises|
    case TimerFired => s.timer.liveTimers > 0
  }

  datatype Outcome = Live(session: Session) | Trapped(fault: Fault)

  function Step(s: Session, e: Event): (o: Outcome)
    requires Enabled(s, e)
    ensures !e.TimerFired? ==> o.Live? && o.session.timer == (if e.SetTapped? then Start(s.timer) else s.timer)
    ensures e.TimerFired? ==> o.Live? == Tick(s.timer).Ticked?
    ensures e.TimerFired? && o.Live? ==> o.session == s.(timer := Tick(s.timer).state)
    ensures o.Live? ==> |o.session.exercises| == |s.exercises| && |o.session.selectedSets| == |s.selectedSets|
    ensures e.SetTapped? ==> o.Live? && o.session.selectedSets[e.row] == e.setNumber
    ensures e.WeightEdited? && e.parsed.Some? ==> o.Live? && o.session.exercises[e.row].weight == e.parsed.value
  {
    match e
    case SetTapped(row, n) => Live(TapSet(s, row, n))
    case WeightEdited(row, parsed) => Live(EditWeight(s, row, parsed))
    case TimerFired =>
      match Tick(s.timer)
      case Crashed(f) => Trapped(f)
      case Ticked(t) => Live(s.(timer := t))
  }

  /** The events in order, from `s`; an event that cannot happen in the state it meets is skipped. */
  function Replay(s: Session, events: seq<Event>): Outcome
    decreases |events|
  {
    if |events| == 0 then Live(s)
    else if !Enabled(s, events[0]) then Replay(s, events[1..])
    else
      match Step(s, events[0])
      case Trapped(f) => Trapped(f)
      case Live(next) => Replay(next, events[1..])
  }

  // ---------------------------------------------------------------------
  // The invariant of reachable sessions

  /**
   Five exercises with the template's names and fixed identities, five
   rows each showing no button or one of the five, and a timer in a
   reachable state.
   */
  predicate SessionInv(s: Session) {
    && Names(s.exercises) == Template
    && (forall i :: 0 <= i < |s.exercises| ==> s.exercises[i].id == i)
    && |s.selectedSets| == |s.exercises|
    && (forall i :: 0 <= i < |s.selectedSets| ==> 0 <= s.selectedSets[i] <= SetCount)
    && Inv(s.timer)
  }

  lemma InitSatisfiesInv()
    ensures SessionInv(Init())
  {
    InitialSatisfiesInv();
  }

  /** Every event that can happen keeps the invariant, and a timer firing never traps. */
  lemma StepPreservesInv(s: Session, e: Event)
    requires SessionInv(s) && Enabled(s, e)
    ensures Step(s, e).Live?
    ensures SessionInv(Step(s, e).session)
  {
    match e
    case SetTapped(row, n) =>
      StartPreservesInv(s.timer);
      assert Names(TapSet(s, row, n).exercises) == Names(s.exercises);
    case WeightEdited(row, parsed) =>
      var r := EditWeight(s, row, parsed);
      assert Names(r.exercises) == Names(s.exercises);
    case TimerFired =>
      TickPreservesInv(s.timer);
      assert Names(Step(s, e).session.exercises) == Names(s.exercises);
  }

  lemma {:induction false} ReplayPreservesInv(s: Session, events: seq<Event>)
    requires SessionInv(s)
    ensures Replay(s, events).Live?
    ensures SessionInv(Replay(s, events).session)
    decreases |events|
  {
    if |events| > 0 {
      if Enabled(s, events[0]) {
        StepPreservesInv(s, events[0]);
        ReplayPreservesInv(Step(s, events[0]).session, events[1..]);
      } else {
        ReplayPreservesInv(s, events[1..]);
      }
    }
  }

  /**
   Whatever the user taps and types, and however the timer fires, the app
   never traps, keeps its five exercises in order, and never has more than
   one countdown running; while one runs its label is well formed.
   */
  lemma ReachableSessions(events: seq<Event>)
    ensures Replay(Init(), events).Live?
    ensures SessionInv(Replay(Init(), events).session)
  {
    InitSatisfiesInv();
    ReplayPreservesInv(Init(), events);
  }

  /**
   A tap on row 1 button 3 starts the countdown at "1:30"; a tap on row 5
   button 1 right after highlights that button but leaves the countdown alone.
   */
  lemma SecondTapKeepsCountdown()
    ensures TapSet(Init(), 0, 3).timer == TimerState(StartLabel, true, 1)
    ensures TapSet(TapSet(Init(), 0, 3), 4, 1).timer == TapSet(Init(), 0, 3).timer
    ensures TapSet(TapSet(Init(), 0, 3), 4, 1).selectedSets == [3, 0, 0, 0, 1]
  {
    var s := TapSet(TapSet(Init(), 0, 3), 4, 1);
    assert s.selectedSets == [3, 0, 0, 0, 0][4 := 1];
  }

  /** A committed weight reads back as itself; a rejected one leaves the row as it was. */
  lemma WeightReadBack(s: Session, row: int, w: real)
    requires 0 <= row < |s.exercises|
    ensures EditWeight(s, row, Some(w)).exercises[row].weight == w
    ensures EditWeight(s, row, None).exercises[row] == s.exercises[row]
  {
  }
}
