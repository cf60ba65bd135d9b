# Work-Out rest timer

A model of the logic of the Work-Out app's workout screen: five exercise rows, each with a weight field and five set buttons, and one shared rest timer.

A tap on a set button highlights it and starts a 90-second rest countdown, unless one is already running. The countdown keeps no number. The label on screen ("1:30", "1:29", …, "0:00") is the whole state. Every second, the repeating timer's closure does the following:

1. It splits the label on `:`.
2. It reads the minutes and the seconds with `Int(_:)`, falling back to 0 when a piece does not parse.
3. It writes the next label: the finished message "Start next set!", a borrowed minute `"(m-1):59"`, or the seconds less one, zero-padded with `%02d`.

Three modules:

- `SwiftText` covers the pieces of Swift's standard library the closure uses:
  - `split(separator:)`, which omits empty pieces;
  - `Int(_:)` on a 64-bit `Int`;
  - `"\(n)"` interpolation;
  - `String(format: "%02d", n)`.

  Their contracts and round-trip lemmas say that formatting and parsing agree.
- `RestTimer` covers the timer state (`timerLabel`, `isTimerRunning`, and the number of repeating timers still scheduled). It contains:
  - `Start` (the guarded `startTimer`) and `Tick` (one firing of the closure), including its two run-time traps: indexing a split with fewer than two pieces, and `Int` overflow on `- 1`;
  - the closure's reading of a label as a count of remaining seconds;
  - the invariant of reachable timer states;
  - the exact countdown from "1:30": 90 ticks down to "0:00", then "Start next set!" on tick 91, after which no timer is live.
- `Workout` covers `WorkoutViewModel.init`, the set-button tap, a committed weight edit, and an arbitrary sequence of such events mixed with timer firings. Its proof shows that no such sequence from the initial screen ever traps, that the exercise list keeps its shape, and that at most one countdown is ever live.

## Model

| member | source | states |
|---|---|---|
| SwiftText.ShowNat | Work-Out/ContentView.swift:96-98 | The decimal form of a natural number is non-empty and starts with a digit. It has one character exactly below 10, and it starts with '0' only for 0 (no leading zeros). |
| SwiftText.ShowNatDigits | Work-Out/ContentView.swift:96-98 | The decimal form of n is all digits, and those digits denote n. |
| SwiftText.ShowInt | Work-Out/ContentView.swift:96-98 | `"\(n)"` is non-empty and starts with '-' exactly when n is negative. |
| SwiftText.ShowIntDigits | Work-Out/ContentView.swift:96-98 | `"\(n)"` never contains ':'. For n >= 0 it is all digits denoting n. |
| SwiftText.Pad2 | Work-Out/ContentView.swift:98 | `"%02d"` always has width at least two. |
| SwiftText.Pad2Digits | Work-Out/ContentView.swift:98 | `"%02d"` never contains ':'. For 0..99 it is exactly two digits denoting the number, with a leading zero below 10. |
| SwiftText.ParseInt | Work-Out/ContentView.swift:88-89 | `Int(_:)` only ever yields a 64-bit value. It accepts every digit string whose value fits, and rejects the empty string and any string that does not start with a digit or a sign. |
| SwiftText.ParseIntRejects | Work-Out/ContentView.swift:88-89 | `Int(_:)` gives nil for a non-digit anywhere after the first character, for a lone sign or other single non-digit, and for an unsigned digit string too large for 64 bits. On these the `?? 0` fallback fires. |
| SwiftText.ParseIntSigned | Work-Out/ContentView.swift:88-89 | `Int(_:)` on '+' or '-' followed by digits gives the digits' value, negated after '-', when it fits in 64 bits, and nil (so the fallback) when it does not. |
| SwiftText.ShowIntRoundTrip | Work-Out/ContentView.swift:88-96 | Reading back an interpolated 64-bit `Int` with `Int(_:)` gives the same number. |
| SwiftText.Pad2RoundTrip | Work-Out/ContentView.swift:89-98 | Reading back with `Int(_:)` any `"%02d"` output the model produces gives the same number, leading zero included. The model formats values outside the 32-bit range as plain decimals (see Left out). |
| SwiftText.IndexOfFirst | Work-Out/ContentView.swift:88-89 | The position where a split cuts is the first occurrence of the separator, or the end when there is none. |
| SwiftText.Split | Work-Out/ContentView.swift:88-89 | `split(separator:)` yields only non-empty pieces that contain no separator. |
| SwiftText.SplitWithoutSeparator | Work-Out/ContentView.swift:88-89 | A string with no separator splits into itself alone, or into nothing when it is empty. |
| SwiftText.SplitAtFirst | Work-Out/ContentView.swift:88-89 | A split cuts at the first separator. The run before it is the first piece (omitted when empty), and the rest is split on its own, so the pieces are the maximal separator-free runs. |
| SwiftText.SplitDropsOnlySeparators | Work-Out/ContentView.swift:88-89 | Concatenating the pieces of a split gives the input with its separators removed, so no other character is lost. |
| SwiftText.SplitPair | Work-Out/ContentView.swift:88-89 | Two non-empty, separator-free strings joined by one separator split back into exactly those two. |
| RestTimer.Initial | Work-Out/ContentView.swift:110-111 | A fresh view model shows "Timer", is not running, and has no timer scheduled. |
| RestTimer.Start | Work-Out/ContentView.swift:82-85 | While running, a start changes nothing and schedules nothing. Otherwise the label becomes exactly "1:30", the flag is raised, and one more timer is scheduled. |
| RestTimer.StartIdempotent | Work-Out/ContentView.swift:82-83 | A second start right after a first changes nothing. |
| RestTimer.ParseClock | Work-Out/ContentView.swift:88-89 | The closure's reading of the label fails, and indexing the split traps, exactly when the split has fewer than two pieces. |
| RestTimer.Tick | Work-Out/ContentView.swift:87-99 | A label with no second piece traps with an index error. A tick either leaves the number of live timers alone, or produces the finished state with one timer fewer. The running flag survives exactly when no timer was invalidated. |
| RestTimer.Advance | Work-Out/ContentView.swift:91-99 | Whatever minutes and seconds the closure has read, it either keeps the live timers and the flag, or finishes: "Start next set!", flag lowered, one timer fewer. |
| RestTimer.TickOnClock | Work-Out/ContentView.swift:88-89 | On a label whose pieces both parse, the closure goes on with the parsed numbers: the `?? 0` fallback plays no part. |
| RestTimer.ParseClockOfPieces | Work-Out/ContentView.swift:88-89 | A label made of two colon-free non-empty pieces joined by ':' (with nothing, or more ':'-led text, after them) is read as the integer parses of exactly those two pieces. |
| RestTimer.TickOnUnreadableLabel | Work-Out/ContentView.swift:88-94 | When neither piece reads as an integer, both fall back to 0 and the tick finishes: the timer stops, the label becomes "Start next set!" and the running flag drops. |
| RestTimer.TickOnUnreadableSeconds | Work-Out/ContentView.swift:88-98 | When only the seconds fail to read, they fall back to 0 and a non-zero minute count borrows a minute: the label becomes (minutes-1):59. |
| RestTimer.TickOnUnreadableMinutes | Work-Out/ContentView.swift:88-98 | When only the minutes fail to read, they fall back to 0 and positive seconds are decremented under minute 0. |
| RestTimer.Format | Work-Out/ContentView.swift:98 | The written label has the ':' right after the interpolated minutes. |
| RestTimer.FormatSplits | Work-Out/ContentView.swift:88-89 | Splitting a label the closure writes on ':' gives exactly two pieces: the interpolated minutes and the `"%02d"` seconds. |
| RestTimer.ParseFormat | Work-Out/ContentView.swift:88-98 | Every label the closure writes is read back as the same (minutes, seconds), so the `?? 0` fallback is never taken. |
| RestTimer.TickWithoutColonTraps | Work-Out/ContentView.swift:88-89 | A tick on a label with no ':' (such as "Timer" or "Start next set!") traps. |
| RestTimer.TickOverflowTraps | Work-Out/ContentView.swift:95-98 | A label reading `Int.min` minutes and 0 seconds, or `Int.min` seconds, makes the closure trap on the overflowing `- 1`. |
| RestTimer.TickDecrementsSeconds | Work-Out/ContentView.swift:97-98 | On "m:ss" with ss > 0, a tick writes "m:" then ss-1 zero-padded to two digits. It stays running with the same timers. |
| RestTimer.TickBorrowsMinute | Work-Out/ContentView.swift:95-96 | On "m:00" with m != 0, a tick writes "(m-1):59" and stays running. |
| RestTimer.BorrowedLabel | Work-Out/ContentView.swift:96-98 | The borrowed label `"\(m):59"` is the same text as the one the decrementing branch writes for m minutes and 59 seconds. |
| RestTimer.TickFinishes | Work-Out/ContentView.swift:91-94 | On "0:00", a tick writes "Start next set!", lowers the flag, and invalidates its timer. |
| RestTimer.LabelForIsRunning | Work-Out/ContentView.swift:88-98 | The closure reads the label for r seconds back as r: minutes r/60 and seconds r%60, both without the fallback. |
| RestTimer.LabelForClock | Work-Out/ContentView.swift:96-98 | Conversely, every label written for m minutes and s < 60 seconds is the label of 60*m + s seconds. |
| RestTimer.LabelForShape | Work-Out/ContentView.swift:96-98 | Every running label has the form digits, ':', then two digits, the first at most 5. |
| RestTimer.TickOnLabelFor | Work-Out/ContentView.swift:95-98 | A tick takes the label for q+1 seconds to the label for q seconds, whether it borrows a minute or not. |
| RestTimer.TickOnZeroLabel | Work-Out/ContentView.swift:91-94 | A tick on the label for 0 seconds finishes the countdown. |
| RestTimer.TickCountsDown | Work-Out/ContentView.swift:88-99 | On the label for q+1 seconds, the closure reads q+1 and writes a label it reads as q: each tick takes exactly one second off `60*minutes + seconds`. |
| RestTimer.StartLabelIsRestPeriod | Work-Out/ContentView.swift:84 | "1:30" is the label of 90 seconds. |
| RestTimer.InvRunningLabel | Work-Out/ContentView.swift:84-98 | In a reachable running state, the label is well formed and the closure reads it as at most 90 seconds. |
| RestTimer.InitialSatisfiesInv | Work-Out/ContentView.swift:110-111 | The initial timer state is reachable: no timer live, not running. |
| RestTimer.StartPreservesInv | Work-Out/ContentView.swift:82-85 | A start keeps at most one timer live, exactly while running, with a label of at most 90 seconds. |
| RestTimer.TickPreservesInv | Work-Out/ContentView.swift:87-99 | In a reachable state the closure never traps, and its result is reachable again. |
| RestTimer.TickOnRunningLabel | Work-Out/ContentView.swift:87-99 | A tick on the running label for at most 90 seconds neither traps nor leaves the reachable states. |
| RestTimer.TickKeepsCounting | Work-Out/ContentView.swift:95-98 | A tick on the label for q+1 <= 90 seconds keeps counting with a reachable label. |
| RestTimer.Fire | Work-Out/ContentView.swift:87-102 | One second of the run loop: with no live timer (the closure's timer invalidated) nothing changes. A firing never schedules a timer and never raises the running flag. |
| RestTimer.TickN | Work-Out/ContentView.swift:87-102 | Once no timer is live, any number of seconds leaves the state as it is. |
| RestTimer.RunAdd | Work-Out/ContentView.swift:87-100 | Running a+b firings is running a firings and then b more, and a trap stops the run. |
| RestTimer.RunCountsDown | Work-Out/ContentView.swift:87-100 | Firings that take each state of a countdown family one second down (state q+1 to state q) take state r to state r-k after k firings. |
| RestTimer.RunAtFixpoint | Work-Out/ContentView.swift:87-100 | Firings on a state they leave alone leave it alone for any number of seconds. |
| RestTimer.RunCountsDownThenStops | Work-Out/ContentView.swift:87-100 | Firings that count a family of states down and then stop at a resting state reach it at second r+1 and stay there. |
| RestTimer.FireCountsDown | Work-Out/ContentView.swift:96-98 | One second takes the running label for q+1 seconds to the one for q. |
| RestTimer.FireFinishes | Work-Out/ContentView.swift:91-94 | The second after "0:00" shows "Start next set!" with no timer left, and later seconds change nothing. |
| RestTimer.RestCountdown | Work-Out/ContentView.swift:84-99 | After a start from idle, second k (k <= 90) shows the label for 90-k seconds. Every second after the 90th shows the finished state with no timer live. |
| RestTimer.RestCountdownLabels | Work-Out/ContentView.swift:84-98 | Seconds 1, 2 and 3 show "1:29", "1:28" and "1:27", and second 90 shows "0:00" still running. |
| RestTimer.LateTwentiesLabel | Work-Out/ContentView.swift:98 | The label for 80+d seconds is "1:2" followed by the digit d. |
| Workout.Init | Work-Out/ContentView.swift:108-120 | Exactly five exercises: Squat, Bench Press, Overhead Press, Barbell Row and Deadlift, in that order. Each weighs 20 and each has a distinct id. No set is selected, and the timer is idle on "Timer". |
| Workout.TapSet | Work-Out/ContentView.swift:69-74 | The tapped row shows the tapped button and no other row changes. The timer is untouched while running, and otherwise shows "1:30" and runs. |
| Workout.EditWeight | Work-Out/ContentView.swift:52 | A rejected entry changes nothing. An accepted one sets that row's weight and changes no other row, no name or id, no selection and no timer. |
| Workout.WeightReadBack | Work-Out/ContentView.swift:52 | A committed weight reads back as itself, and a rejected one leaves the row as it was. |
| Workout.Step | Work-Out/ContentView.swift:69-99 | Taps and edits never trap, and only a tap can start the timer. A tap shows the tapped button as that row's selected set, and a committed weight edit sets that row's weight. A timer firing traps exactly when the closure does; otherwise it replaces the timer by the closure's result and changes nothing else. The screen keeps its number of rows. |
| Workout.StepPreservesInv | Work-Out/ContentView.swift:69-120 | From a reachable screen, every possible event succeeds and gives a reachable screen: five template exercises, selections in 0..5, and a reachable timer. |
| Workout.ReplayPreservesInv | Work-Out/ContentView.swift:69-120 | Any sequence of events from a reachable screen never traps and ends on a reachable screen. |
| Workout.ReachableSessions | Work-Out/ContentView.swift:69-120 | From the initial screen, no sequence of taps, edits and timer firings traps, and at most one countdown is ever live. |
| Workout.SecondTapKeepsCountdown | Work-Out/ContentView.swift:69-83 | A tap on row 1, button 3 starts "1:30". A tap on row 5, button 1 right after highlights that button, giving selections [3,0,0,0,1], and leaves the countdown as it was. |

## Left out

- SwiftUI layout and styling (`SetButton`, `TimerView`, `WorkoutView`, `ContentView`, previews, colours): presentation only.
- `Timer.scheduledTimer` and `RunLoop`: real time is not modelled. A firing is an explicit step, and the state counts the timers still scheduled.
- `NumberFormatter` parsing of the weight field: a foreign library. Its result is a parameter of `EditWeight` (`None` when it rejects the text).
- `Double` weights are modelled as `real`: no floating-point rounding.
- `UUID` identity is modelled as the ids 0..4, which are distinct as the UUIDs are.
- `@Published`, `@Binding`, `@State` and `@FocusState` observation, and the focus tap gesture: framework plumbing.
- SwiftText.Pad2: `String(format: "%02d", …)` receives a 64-bit `Int` for a 32-bit conversion. Values outside the 32-bit range are not modelled; they are printed as the plain decimal form. No reachable label comes near that range.
- Workout.Replay: an event that cannot happen in the state it meets is skipped. Examples are a firing with no live timer, or a tap on a row that does not exist.
- Labels are modelled as sequences of characters. Swift's `split` compares grapheme clusters, so a ':' followed by a combining mark is not a separator in Swift. Every label the program writes is plain ASCII, so no reachable state is affected.
