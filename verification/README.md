# TrackTime countdown core in Dafny

TrackTime is a single-screen multi-timer countdown app (`src/App.jsx`). Once React is
stripped away, its logic is a state machine over a pair:

- a list of timer records `{id, name, hours, minutes, seconds, time, isRunning}`;
- the interval registry (`intervalsRef`): the set of timer ids that currently own a live
  one-second interval.

Every handler is a deterministic transition on that pair, and so is each firing of an
interval. This project models those transitions and proves what they promise. Two pure
helpers sit beside them: the `HH:MM:SS` rendering `formatTime` and the low-time marker.

Modules, one per concern:

- `Wrappers` (`wrappers.dfy`): the `Option` type.
- `NumberInput` (`number_input.dfy`): the numeric coercion `updateTimer` applies.
  - NaN becomes 0, then `Math.floor`, then a clamp to `[0, 99]` or `[0, 59]`.
  - A JavaScript number is NaN, ±Infinity, or a finite value. A finite value is kept
    exactly as a fraction, since every finite double is a rational.
- `TimerStore` (`timer_store.dfy`):
  - the records, and the store invariant `Valid`: unique ids; clamped fields;
    `0 <= time <= 359999`; running exactly when registered; registry ⊆ listed ids;
  - every handler: `AddTimer`, `UpdateTimer`, `SetTimerFromInputs`, `StartTimer`, the
    interval callback `Tick`, `PauseTimer`, `ResetTimer`, `DeleteTimer`, and the ▲/▼
    steppers `StepUp` and `StepDown`.
- `Clock` (`clock.dfy`):
  - `FormatTime`, with `String(n).padStart(2, "0")` written out over digit strings;
  - the low-time predicate;
  - `ParseClock`, an independent reader of `H..H:MM:SS` text. It is used as the partner
    that states what a display means.
- `Session` (`session.dfy`):
  - user actions and interval firings as one `Step`, and sequences of them as `Run`;
  - an interval fires only while its id is registered. A cleared interval never runs its
    callback again.
  - the countdown behaviour that follows: one second per firing, and completion on the
    firing after the display reads zero;
  - the five-second scenario.

The interval callback maps over the whole list, as the source does. `Tick` is proved equal
to `SingleTick`, a direct single-timer transition, whenever ids are unique. Unique ids are
part of the invariant.

## Model

| member | source | states |
|---|---|---|
| NumberInput.Coerce | src/App.jsx:41-48 | the stored number is always within [0, hi]; NaN and −∞ give 0, +∞ gives hi; a negative value gives 0, a value above the range gives hi, a value inside it gives its floor |
| NumberInput.Floor | src/App.jsx:44 | `Math.floor` of a finite value is the greatest integer not above it |
| NumberInput.CoerceKeepsInRange | src/App.jsx:41-48 | an integer already inside the unit's range is stored unchanged |
| NumberInput.CoerceIdempotent | src/App.jsx:41-48 | coercing a coerced value again changes nothing |
| TimerStore.Caption | src/App.jsx:116 | the caption is never empty, and a non-empty name is used as it is |
| TimerStore.IndexOf | src/App.jsx:80 | `timers.find`: absent exactly when no timer has the id; otherwise the first position that has it |
| TimerStore.Lookup | src/App.jsx:80 | the found timer is in the list and carries the id; none exactly when the id is unlisted |
| TimerStore.Patch | src/App.jsx:138-140 | `prev.map` with a change confined to one id: the length, the id set and the uniqueness of ids are kept, and an unlisted id leaves the list unchanged |
| TimerStore.DurationBound | src/App.jsx:67 | clamped hours, minutes and seconds give a duration between 0 and 359999 |
| TimerStore.PatchKeepsValid | src/App.jsx:6 | a change confined to one id keeps the invariant, if that timer stays in range and runs exactly when its id is registered |
| TimerStore.AddTimer | src/App.jsx:20-33 | one timer is appended, all earlier timers are kept, the new id finds a zeroed stopped timer, the id set gains exactly the new id, the registry is untouched, the invariant is kept |
| TimerStore.AddKeepsValid | src/App.jsx:20-33 | appending a zeroed stopped timer under a fresh id keeps the invariant |
| TimerStore.UpdateTimer | src/App.jsx:36-51 | a name is stored as given; a number lands in [0,99] for hours and [0,59] otherwise; NaN gives 0; only the edited field of the matching timer changes; the registry and the invariant are kept |
| TimerStore.SetTimerFromInputs | src/App.jsx:55-73 | time becomes hours·3600 + minutes·60 + seconds and the timer stops; the id is deregistered; other timers are unchanged; under the invariant every time is at most 359999 |
| TimerStore.StartTimer | src/App.jsx:76-99 | a no-op when the id is registered, unlisted, or has zero time and zero duration; otherwise the id is registered and the timer runs from its remaining time if nonzero, else from its duration; other timers are unchanged; under the invariant the started time is positive and the invariant is kept |
| TimerStore.StartedFacts | src/App.jsx:84-99 | past the guards, only the matching timer changes: it runs from its start time, and the invariant is kept with a positive time |
| TimerStore.StartedWellFormed | src/App.jsx:80-97 | under the invariant the found timer is the only match, and starting it leaves it in range |
| TimerStore.Completions | src/App.jsx:104-121 | the callback emits at most one message per timer, and none for an unlisted id |
| TimerStore.CompletionsOfUnique | src/App.jsx:104-122 | with unique ids there is exactly one message when the matching timer is at zero, and none otherwise |
| TimerStore.Tick | src/App.jsx:102-126 | with unique ids, the mapped callback equals the single-timer transition `SingleTick` |
| TimerStore.TickPointwise | src/App.jsx:104-123 | above zero, the time drops by exactly one and nothing else changes; at zero or below, the timer stops with time 0; other timers are untouched; an unlisted id changes nothing |
| TimerStore.TickKeepsValid | src/App.jsx:106-122 | a firing keeps the invariant and emits at most one message |
| TimerStore.PauseTimer | src/App.jsx:132-141 | the id is deregistered and the timer stops; time and configuration are kept; other timers are unchanged; an unknown id leaves the list alone; the invariant is kept |
| TimerStore.ResetTimer | src/App.jsx:144-166 | the id is deregistered; time becomes 0 and the timer stops; a full reset zeroes hours, minutes and seconds, a single one keeps them; the name is kept; an unknown id leaves the list alone; the invariant is kept |
| Session.ResetIdempotent | src/App.jsx:144-166 | resetting twice is the same as resetting once |
| Session.ResetStaysPut | src/App.jsx:144-149 | after a reset, no firing changes the timer or emits a message |
| TimerStore.WithoutMembers | src/App.jsx:174 | the filter keeps exactly the timers with other ids |
| TimerStore.WithoutAbsent | src/App.jsx:174 | filtering out an unlisted id changes nothing |
| TimerStore.WithoutUnique | src/App.jsx:174 | with unique ids, the filter removes exactly the one matching position and keeps the order of the rest |
| TimerStore.DeleteTimer | src/App.jsx:168-175 | the id is deregistered and no timer with it remains; exactly the other timers survive, in order; an unknown id leaves the list alone; the invariant is kept |
| TimerStore.DeleteKeepsValid | src/App.jsx:168-175 | deleting keeps the invariant |
| TimerStore.DropKeepsValid | src/App.jsx:168-175 | dropping the only timer with an id, together with its interval, keeps the invariant |
| TimerStore.StepUp | src/App.jsx:219-229 | ▲ adds one to the unit and saturates at the unit's limit (99 or 59); the other fields, the other timers and the registry are unchanged; an unlisted id changes nothing; the invariant is kept |
| TimerStore.StepDown | src/App.jsx:240-251 | ▼ subtracts one from the unit and saturates at 0; the other fields, the other timers and the registry are unchanged; an unlisted id changes nothing; the invariant is kept |
| TimerStore.StepperFacts | src/App.jsx:219-251 | the stepped value, after the `updateTimer` clamp, is one more (capped at the unit's limit) or one less (floored at 0) |
| Session.SteppedUpAt | src/App.jsx:219-229 | under the invariant, ▲ replaces the unit of the one matching timer by one more (capped at the limit), and changes nothing else |
| Session.SteppedDownAt | src/App.jsx:240-251 | under the invariant, ▼ replaces the unit of the one matching timer by one less (floored at 0), and changes nothing else |
| Session.StepUpThenDown | src/App.jsx:219-251 | ▼ undoes ▲ on a unit below its limit: the whole store comes back unchanged |
| Session.StepDownThenUp | src/App.jsx:219-251 | ▲ undoes ▼ on a unit above zero: the whole store comes back unchanged |
| Clock.DecimalString | src/App.jsx:181 | `String(n)` is a digit string denoting n with no leading zero (only 0 itself starts with `0`): one digit below 10, at most two below 100 |
| Clock.PadStart | src/App.jsx:181 | `padStart` keeps the string as its suffix, fills the front with the pad character, and reaches the width |
| Clock.Pad2 | src/App.jsx:181-184 | a padded field is a digit string denoting n, exactly two characters when n < 100 |
| Clock.SplitSeconds | src/App.jsx:178-180 | h·3600 + m·60 + s gives back the time |
| Clock.HoursFit | src/App.jsx:178 | the hours field fits two digits exactly when the time is below 360000 |
| Clock.FormatTime | src/App.jsx:177-185 | at least 8 characters; exactly 8 iff time < 360000; digit fields separated by two colons |
| Clock.FormatParseRoundTrip | src/App.jsx:177-185 | reading the display back gives the time it was made from, for every time |
| Clock.DisplayFields | src/App.jsx:177-185 | below 360000 the display is `HH:MM:SS`, with minutes and seconds below 60 and h·3600 + m·60 + s equal to the time |
| Clock.LowTimeDisplay | src/App.jsx:259 | the marker is on exactly for displays `00:00:01` to `00:00:10` |
| Clock.LowTimeFields | src/App.jsx:259 | `0 < time <= 10` holds exactly when the hours and minutes are zero and the seconds are 1 to 10 |
| Session.Step | src/App.jsx:187-291 | only a firing emits a message; a firing of an unregistered id changes nothing; every action keeps the invariant and emits at most one message |
| Session.Run | src/App.jsx:187-291 | any sequence of actions keeps the invariant; without firings, nothing is emitted |
| Session.ReachableIsValid | src/App.jsx:5-6 | every store reachable from the empty app satisfies the invariant |
| Session.FireOnceKeepsValid | src/App.jsx:102-126 | one firing keeps the invariant and emits at most one message |
| Session.TicksKeepValid | src/App.jsx:102-126 | any number of firings keeps the invariant |
| Session.ReleasedIgnoresTicks | src/App.jsx:110-113 | once an id is deregistered, further firings change nothing and emit nothing |
| Session.PausedStaysPut | src/App.jsx:132-141 | after a pause, no firing decrements the timer or emits a message |
| Session.DeletedNeverTicks | src/App.jsx:168-175 | after a delete, the id is gone and no firing references it |
| Session.RunningIsTracked | src/App.jsx:6 | a running timer of a valid store is the only one with its id, and its id is registered |
| Session.FireCountsOne | src/App.jsx:106-107 | on the tracked timer with time left, a firing takes exactly one second off and changes nothing else |
| Session.FireFinishes | src/App.jsx:108-122 | on the tracked timer at zero, a firing stops it, releases its interval and emits one message naming it |
| Session.TrackedCountsDown | src/App.jsx:106-107 | a tracked timer loses one second per firing and emits nothing |
| Session.TrackedCompletes | src/App.jsx:106-122 | a tracked timer finishes on the firing after its display reads zero |
| Session.CountsDown | src/App.jsx:102-107 | a running timer with n seconds left shows n − j after j ≤ n firings, is still running, and nothing was emitted |
| Session.Completes | src/App.jsx:102-122 | the (n+1)-th firing stops the timer at 0, deregisters it and emits exactly one message with its caption |
| Session.LowTimeWindow | src/App.jsx:259 | while counting down from n, the marker is on exactly for the ten firings before the display reaches zero |
| Session.StartIdempotent | src/App.jsx:76-78 | starting twice is the same as starting once |
| Session.DisplayAlwaysFits | src/App.jsx:262 | every timer of a valid store displays in exactly 8 characters that read back as its time |
| Session.FiveSecondsStart | src/App.jsx:20-99 | adding a timer, entering 5 seconds and starting gives one running, registered timer showing 5 |
| Session.FiveSecondsEntered | src/App.jsx:20-51 | adding a timer and typing 5 into its seconds field gives a stopped timer configured for 5 seconds |
| Session.FiveSecondsStartedFrom | src/App.jsx:84-99 | starting that timer runs it from 5, and the result is valid |
| Session.FiveSecondCountdown | src/App.jsx:102-107 | the five-second timer shows 5 − j after j ≤ 5 firings, with no message |
| Session.FiveSecondFinish | src/App.jsx:106-122 | the five-second timer finishes on the sixth firing, deregistered and with the single message for "Untitled" |
| Session.UntitledMessage | src/App.jsx:116-120 | an unnamed timer's message is `⏰ "Untitled" finished!` |

The callback makes the terminal transition on the firing that finds `time` already 0
(src/App.jsx:106-122). For a 5-second timer that is the sixth firing, one second after the
display shows `00:00:00`. `Session.FiveSecondFinish` and `Session.Completes` state this.

## Left out

- Rendering, CSS and the input widgets (src/App.jsx:187-291). The exceptions are the stepper
  arithmetic, the low-time predicate and the display string, which are modelled. `Session.Step`
  stands for the event wiring.
- The permission request, the choice between `new Notification` and `alert`, and unmount
  cleanup (src/App.jsx:9-18, 115-121). These are browser side effects. A completion is
  modelled only as an emitted `Notice`, and `TimerStore.Message` gives its text.
- Timing from `setInterval`/`clearInterval`. A firing is an explicit `Fire(id)` action. It
  acts only while the id is registered, standing for a cleared interval never firing again.
- Fresh ids from `Date.now()` and `Math.random()` (src/App.jsx:24). These are
  nondeterministic, so `AddTimer` takes the id as a parameter and requires that it be
  unused.
- `Number()` applied to text (src/App.jsx:41). Numeric input arrives already as a
  JavaScript number (`NumberInput.Numeric`), and string-to-number parsing is not modelled.
- `String(rawValue)` for names: a name is taken to be text already.
- `(Number(timer.hours) || 0)` in `startTimer` (src/App.jsx:87-89). The configured fields
  are always numbers after `updateTimer`, so `Duration` uses them directly.
- React state batching and stale closures. An example is `startTimer` reading the
  render-time `timers` snapshot (src/App.jsx:80). Each handler is treated as atomic on the
  current state.
- The interval handle stored in the registry. Only which ids own an interval is kept, and
  handles are assumed truthy as browsers make them.
- TimerStore.Tick: proved equal to the single-timer step only when ids are unique. With
  duplicate ids the list-wide map is modelled, but its countdown lemmas are not stated.
