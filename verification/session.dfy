/** The app as a transition system: user actions and interval firings applied one at a
    time to the store, with the countdown behaviour they add up to. */
module Session {
  import opened Wrappers
  import opened NumberInput
  import opened TimerStore
  import Clock

  /** A user action, or the firing of a timer's one-second interval. */
  datatype Action =
    | Add(newId: Id)
    | Update(id: Id, edit: Edit)
    | SetFromInputs(id: Id)
    | Start(id: Id)
    | Fire(id: Id)
    | Pause(id: Id)
    | Reset(id: Id, full: bool)
    | Delete(id: Id)
    | Up(id: Id, unit: Unit)
    | Down(id: Id, unit: Unit)

  /** An added timer gets an id the list does not use yet. */
  predicate Enabled(s: Store, a: Action)
  {
    a.Add? ==> a.newId !in IdsOf(s.timers)
  }

  /** One action. An interval only fires while its id is registered: a released interval
      never runs its callback again. */
  function Step(s: Store, a: Action): (r: TickOutcome)
    requires Enabled(s, a)
    ensures !a.Fire? ==> r.notices == []
    ensures a.Fire? && a.id !in s.registry ==> r == TickOutcome(s, [])
    ensures Valid(s) ==> Valid(r.store) && |r.notices| <= 1
  {
    match a
    case Add(newId) => TickOutcome(AddTimer(s, newId), [])
    case Update(id, e) => TickOutcome(UpdateTimer(s, id, e), [])
    case SetFromInputs(id) => TickOutcome(SetTimerFromInputs(s, id), [])
    case Start(id) => TickOutcome(StartTimer(s, id), [])
    case Fire(id) => FireOnceKeepsValid(s, id); FireOnce(s, id)
    case Pause(id) => TickOutcome(PauseTimer(s, id), [])
    case Reset(id, full) => TickOutcome(ResetTimer(s, id, full), [])
    case Delete(id) => TickOutcome(DeleteTimer(s, id), [])
    case Up(id, u) => TickOutcome(StepUp(s, id, u), [])
    case Down(id, u) => TickOutcome(StepDown(s, id, u), [])
  }

  /** Every add in the sequence gets an unused id when its turn comes. */
  predicate Admissible(s: Store, actions: seq<Action>)
    decreases |actions|
  {
    |actions| == 0 || (Enabled(s, actions[0]) && Admissible(Step(s, actions[0]).store, actions[1..]))
  }

  /** One firing of the interval of `id`: the callback runs only while the id owns a
      live interval. */
  function FireOnce(s: Store, id: Id): (r: TickOutcome)
    ensures id !in s.registry ==> r == TickOutcome(s, [])
  {
    if id in s.registry then Tick(s, id) else TickOutcome(s, [])
  }

  /** A sequence of actions applied in order, with all messages emitted on the way. The
      store invariant holds after any such run from a store where it holds. */
  function Run(s: Store, actions: seq<Action>): (r: TickOutcome)
    requires Admissible(s, actions)
    ensures Valid(s) ==> Valid(r.store)
    ensures (forall i :: 0 <= i < |actions| ==> !actions[i].Fire?) ==> r.notices == []
    decreases |actions|
  {
    if |actions| == 0 then TickOutcome(s, [])
    else
      var first := Step(s, actions[0]);
      var rest := Run(first.store, actions[1..]);
      assert forall i :: 0 <= i < |actions| - 1 ==> actions[1..][i] == actions[i + 1];
      TickOutcome(rest.store, first.notices + rest.notices)
  }

  /** The empty app: no timers, no intervals. */
  const Initial := Store([], {})

  /** Every store reachable from the empty app satisfies the invariant. */
  lemma ReachableIsValid(actions: seq<Action>)
    requires Admissible(Initial, actions)
    ensures Valid(Run(Initial, actions).store)
  {
  }

  /** `n` applications of a firing step, threading the store and collecting the messages
      in order. */
  function Iterate(step: Store -> TickOutcome, s: Store, n: nat): TickOutcome
    decreases n
  {
    if n == 0 then TickOutcome(s, [])
    else
      var first := step(s);
      var rest := Iterate(step, first.store, n - 1);
      TickOutcome(rest.store, first.notices + rest.notices)
  }

  /** `n` successive firings of the interval of `id`. */
  function Ticks(s: Store, id: Id, n: nat): TickOutcome
  {
    Iterate((st: Store) => FireOnce(st, id), s, n)
  }

  /** A step that keeps a property keeps it over any number of steps. */
  lemma {:induction false} IterateKeepsValid(step: Store -> TickOutcome, s: Store, n: nat)
    requires forall st :: Valid(st) ==> Valid(step(st).store)
    requires Valid(s)
    ensures Valid(Iterate(step, s, n).store)
    decreases n
  {
    if n > 0 {
      IterateKeepsValid(step, step(s).store, n - 1);
    }
  }

  /** Firings keep the store invariant. */
  lemma TicksKeepValid(s: Store, id: Id, n: nat)
    requires Valid(s)
    ensures Valid(Ticks(s, id, n).store)
  {
    forall st | Valid(st) ensures Valid(FireOnce(st, id).store) {
      FireOnceKeepsValid(st, id);
    }
    IterateKeepsValid((st: Store) => FireOnce(st, id), s, n);
  }

  /** One firing keeps the store invariant and emits at most one message. */
  lemma FireOnceKeepsValid(s: Store, id: Id)
    ensures Valid(s) ==> Valid(FireOnce(s, id).store) && |FireOnce(s, id).notices| <= 1
  {
    TickKeepsValid(s, id);
  }

  /** Iterating a step that leaves a store alone leaves it alone. */
  lemma {:induction false} IterateIdle(step: Store -> TickOutcome, s: Store, n: nat)
    requires step(s) == TickOutcome(s, [])
    ensures Iterate(step, s, n) == TickOutcome(s, [])
    decreases n
  {
    if n > 0 {
      IterateIdle(step, s, n - 1);
    }
  }

  /** A timer whose interval is not registered is not touched by firings of that id:
      nothing changes and nothing is emitted. */
  lemma ReleasedIgnoresTicks(s: Store, id: Id, n: nat)
    requires id !in s.registry
    ensures Ticks(s, id, n) == TickOutcome(s, [])
  {
    IterateIdle((st: Store) => FireOnce(st, id), s, n);
  }

  /** After a pause no further firing decrements the timer or emits a message. */
  lemma PausedStaysPut(s: Store, id: Id, n: nat)
    ensures Ticks(PauseTimer(s, id), id, n) == TickOutcome(PauseTimer(s, id), [])
  {
    ReleasedIgnoresTicks(PauseTimer(s, id), id, n);
  }

  /** After a delete the id is neither listed nor registered, and no firing references it. */
  lemma DeletedNeverTicks(s: Store, id: Id, n: nat)
    ensures id !in IdsOf(DeleteTimer(s, id).timers)
    ensures Ticks(DeleteTimer(s, id), id, n) == TickOutcome(DeleteTimer(s, id), [])
  {
    ReleasedIgnoresTicks(DeleteTimer(s, id), id, n);
  }

  /** A running timer of a valid store is tracked. */
  lemma RunningIsTracked(s: Store, id: Id, k: nat)
    requires Valid(s) && k < |s.timers| && s.timers[k].id == id && s.timers[k].isRunning
    ensures Tracked(s, id, k)
  {
  }

  /** The store with the remaining time of the timer at position `k` set to `v`. */
  function Retimed(s: Store, k: nat, v: int): (r: Store)
    requires k < |s.timers|
    ensures |r.timers| == |s.timers| && r.timers[k].time == v
  {
    Store(s.timers[k := s.timers[k].(time := v)], s.registry)
  }

  /** Setting the remaining time twice is setting it once. */
  lemma RetimedTwice(s: Store, k: nat, v: int, w: int)
    requires k < |s.timers|
    ensures Retimed(Retimed(s, k, v), k, w) == Retimed(s, k, w)
  {
    assert Retimed(Retimed(s, k, v), k, w).timers == Retimed(s, k, w).timers;
  }

  /** Changing the remaining time of the tracked timer keeps it tracked. */
  lemma RetimedIsTracked(s: Store, id: Id, k: nat, v: int)
    requires Tracked(s, id, k)
    ensures Tracked(Retimed(s, k, v), id, k)
  {
    var ts := Retimed(s, k, v).timers;
    assert forall i :: 0 <= i < |ts| ==> ts[i].id == s.timers[i].id;
  }

  /** The outcome of the firing that finishes the tracked timer: stopped at zero, its
      interval released, one message naming it. */
  function Finish(s: Store, id: Id, k: nat): TickOutcome
    requires k < |s.timers|
  {
    TickOutcome(Store(s.timers[k := s.timers[k].(time := 0, isRunning := false)], s.registry - {id}),
                [Finished(Caption(s.timers[k].name))])
  }

  /** Counting down does not change how the tracked timer finishes. */
  lemma FinishAfterRetime(s: Store, id: Id, k: nat, v: int)
    requires k < |s.timers|
    ensures Finish(Retimed(s, k, v), id, k) == Finish(s, id, k)
  {
    assert Finish(Retimed(s, k, v), id, k).store.timers == Finish(s, id, k).store.timers;
  }

  /** A step that, on a tracked timer, takes one second off while time is left and
      finishes it at zero. */
  ghost predicate CountsDownStep(step: Store -> TickOutcome, id: Id, k: nat)
  {
    && (forall st {:trigger step(st)} :: Tracked(st, id, k) && st.timers[k].time > 0 ==>
          step(st) == TickOutcome(Retimed(st, k, st.timers[k].time - 1), []))
    && (forall st {:trigger step(st)} :: Tracked(st, id, k) && st.timers[k].time == 0 ==> step(st) == Finish(st, id, k))
  }

  /** Iterating a counting-down step `j` times from a tracked timer with at least `j`
      seconds left takes `j` seconds off and emits nothing. */
  lemma {:induction false} IterateCountsDown(step: Store -> TickOutcome, s: Store, id: Id, k: nat, j: nat)
    requires CountsDownStep(step, id, k)
    requires Tracked(s, id, k) && j <= s.timers[k].time
    ensures Iterate(step, s, j) == TickOutcome(Retimed(s, k, s.timers[k].time - j), [])
    decreases j
  {
    if j > 0 {
      var t := s.timers[k].time;
      var next := Retimed(s, k, t - 1);
      assert step(s) == TickOutcome(next, []);
      RetimedIsTracked(s, id, k, t - 1);
      IterateCountsDown(step, next, id, k, j - 1);
      RetimedTwice(s, k, t - 1, t - j);
      assert Iterate(step, s, j) == TickOutcome(Iterate(step, next, j - 1).store, [] + Iterate(step, next, j - 1).notices);
    }
  }

  /** Iterating a counting-down step once more than the seconds left finishes the timer. */
  lemma {:induction false} IterateCompletes(step: Store -> TickOutcome, s: Store, id: Id, k: nat, n: nat)
    requires CountsDownStep(step, id, k)
    requires Tracked(s, id, k) && 0 <= s.timers[k].time && n == s.timers[k].time + 1
    ensures Iterate(step, s, n) == Finish(s, id, k)
    decreases n
  {
    var t := s.timers[k].time;
    if t > 0 {
      RetimedIsTracked(s, id, k, t - 1);
      IterateCompletes(step, Retimed(s, k, t - 1), id, k, n - 1);
      FinishAfterRetime(s, id, k, t - 1);
    }
  }

  /** The firing of a tracked timer with time left: one second less, nothing else changes. */
  lemma FireCountsOne(s: Store, id: Id, k: nat)
    requires Tracked(s, id, k) && s.timers[k].time > 0
    ensures FireOnce(s, id) == TickOutcome(Retimed(s, k, s.timers[k].time - 1), [])
  {
    assert IndexOf(s.timers, id) == Some(k);
  }

  /** The firing of a tracked timer already at zero: it stops and reports completion. */
  lemma FireFinishes(s: Store, id: Id, k: nat)
    requires Tracked(s, id, k) && s.timers[k].time == 0
    ensures FireOnce(s, id) == Finish(s, id, k)
  {
    assert IndexOf(s.timers, id) == Some(k);
    assert s.timers[k].(isRunning := false, time := 0) == s.timers[k].(time := 0, isRunning := false);
  }

  /** The interval firing of a tracked timer is a counting-down step. */
  lemma FiringCountsDown(id: Id, k: nat)
    ensures CountsDownStep((st: Store) => FireOnce(st, id), id, k)
  {
    forall st | Tracked(st, id, k) && st.timers[k].time > 0
      ensures FireOnce(st, id) == TickOutcome(Retimed(st, k, st.timers[k].time - 1), [])
    {
      FireCountsOne(st, id, k);
    }
    forall st | Tracked(st, id, k) && st.timers[k].time == 0
      ensures FireOnce(st, id) == Finish(st, id, k)
    {
      FireFinishes(st, id, k);
    }
  }

  /** A tracked timer counts down one second per firing. */
  lemma TrackedCountsDown(s: Store, id: Id, k: nat, j: nat)
    requires Tracked(s, id, k) && j <= s.timers[k].time
    ensures Ticks(s, id, j) == TickOutcome(Retimed(s, k, s.timers[k].time - j), [])
  {
    FiringCountsDown(id, k);
    IterateCountsDown((st: Store) => FireOnce(st, id), s, id, k, j);
  }

  /** A tracked timer finishes on the firing after its display reads zero. */
  lemma TrackedCompletes(s: Store, id: Id, k: nat, n: nat)
    requires Tracked(s, id, k) && 0 <= s.timers[k].time && n == s.timers[k].time + 1
    ensures Ticks(s, id, n) == Finish(s, id, k)
  {
    FiringCountsDown(id, k);
    IterateCompletes((st: Store) => FireOnce(st, id), s, id, k, n);
  }

  /** A running timer with `n` seconds left counts down one second per firing: after
      `j <= n` firings it shows `n - j`, is still running and nothing was emitted. */
  lemma CountsDown(s: Store, id: Id, k: nat, j: nat)
    requires Valid(s) && k < |s.timers| && s.timers[k].id == id && s.timers[k].isRunning
    requires j <= s.timers[k].time
    ensures var r := Ticks(s, id, j);
      && r.notices == []
      && r.store == Store(s.timers[k := s.timers[k].(time := s.timers[k].time - j)], s.registry)
  {
    RunningIsTracked(s, id, k);
    TrackedCountsDown(s, id, k, j);
  }

  /** One firing after the display reads zero the timer finishes: it stops, releases its
      interval and emits exactly one message naming it ("Untitled" when unnamed). */
  lemma Completes(s: Store, id: Id, k: nat, n: nat)
    requires Valid(s) && k < |s.timers| && s.timers[k].id == id && s.timers[k].isRunning
    requires n == s.timers[k].time + 1
    ensures var r := Ticks(s, id, n);
      && r.notices == [Finished(Caption(s.timers[k].name))]
      && r.store.registry == s.registry - {id}
      && r.store.timers == s.timers[k := s.timers[k].(time := 0, isRunning := false)]
  {
    RunningIsTracked(s, id, k);
    TrackedCompletes(s, id, k, n);
  }

  /** While a timer counts down from `n`, the low-time marker is on for exactly the ten
      firings before the display reaches zero. */
  lemma LowTimeWindow(s: Store, id: Id, k: nat, j: nat)
    requires Valid(s) && k < |s.timers| && s.timers[k].id == id && s.timers[k].isRunning
    requires j <= s.timers[k].time
    ensures k < |Ticks(s, id, j).store.timers|
    ensures Clock.IsLowTime(Ticks(s, id, j).store.timers[k].time)
      <==> s.timers[k].time - 10 <= j < s.timers[k].time
  {
    CountsDown(s, id, k, j);
  }

  /** After a reset no further firing changes the timer or emits a message. */
  lemma ResetStaysPut(s: Store, id: Id, full: bool, n: nat)
    ensures Ticks(ResetTimer(s, id, full), id, n) == TickOutcome(ResetTimer(s, id, full), [])
  {
    ReleasedIgnoresTicks(ResetTimer(s, id, full), id, n);
  }

  /** Resetting twice is the same as resetting once. */
  lemma ResetIdempotent(s: Store, id: Id, full: bool)
    ensures ResetTimer(ResetTimer(s, id, full), id, full) == ResetTimer(s, id, full)
  {
    var r := ResetTimer(s, id, full);
    assert ResetTimer(r, id, full).timers == r.timers;
  }

  /** ▼ undoes ▲ on a unit below its limit: the store comes back unchanged. */
  lemma StepUpThenDown(s: Store, id: Id, u: Unit, k: nat)
    requires Valid(s) && k < |s.timers| && s.timers[k].id == id && Get(s.timers[k], u) < Limit(u)
    ensures StepDown(StepUp(s, id, u), id, u) == s
  {
    SteppedUpAt(s, id, u, k);
    DownAfterUp(s, id, u, k, StepUp(s, id, u));
  }

  /** ▼ on the store ▲ left behind restores the original store. */
  lemma DownAfterUp(s: Store, id: Id, u: Unit, k: nat, up: Store)
    requires Valid(s) && k < |s.timers| && s.timers[k].id == id && Get(s.timers[k], u) < Limit(u)
    requires up == Store(s.timers[k := With(s.timers[k], u, Get(s.timers[k], u) + 1)], s.registry)
    requires Valid(up)
    ensures StepDown(up, id, u) == s
  {
    var t, v := s.timers[k], Get(s.timers[k], u);
    var w := With(t, u, v + 1);
    WithRestores(t, u, v + 1);
    assert up.timers[k] == w && Get(w, u) == v + 1;
    SteppedDownAt(up, id, u, k);
    assert StepDown(up, id, u).timers == up.timers[k := t];
    assert up.timers[k := t] == s.timers;
  }

  /** ▲ undoes ▼ on a unit above zero: the store comes back unchanged. */
  lemma StepDownThenUp(s: Store, id: Id, u: Unit, k: nat)
    requires Valid(s) && k < |s.timers| && s.timers[k].id == id && Get(s.timers[k], u) > 0
    ensures StepUp(StepDown(s, id, u), id, u) == s
  {
    SteppedDownAt(s, id, u, k);
    UpAfterDown(s, id, u, k, StepDown(s, id, u));
  }

  /** ▲ on the store ▼ left behind restores the original store. */
  lemma UpAfterDown(s: Store, id: Id, u: Unit, k: nat, down: Store)
    requires Valid(s) && k < |s.timers| && s.timers[k].id == id && Get(s.timers[k], u) > 0
    requires down == Store(s.timers[k := With(s.timers[k], u, Get(s.timers[k], u) - 1)], s.registry)
    requires Valid(down)
    ensures StepUp(down, id, u) == s
  {
    var t, v := s.timers[k], Get(s.timers[k], u);
    var w := With(t, u, v - 1);
    WithRestores(t, u, v - 1);
    GetInRange(s, k, u);
    assert down.timers[k] == w && Get(w, u) == v - 1 < Limit(u);
    SteppedUpAt(down, id, u, k);
    assert StepUp(down, id, u).timers == down.timers[k := t];
    assert down.timers[k := t] == s.timers;
  }

  /** Under the invariant ▲ changes the unit of the one timer at `k` and nothing else. */
  lemma SteppedUpAt(s: Store, id: Id, u: Unit, k: nat)
    requires Valid(s) && k < |s.timers| && s.timers[k].id == id
    ensures var t := s.timers[k]; var v := Get(t, u);
      StepUp(s, id, u) == Store(s.timers[k := With(t, u, if v < Limit(u) then v + 1 else Limit(u))], s.registry)
  {
    assert forall i :: 0 <= i < |s.timers| && s.timers[i].id == id ==> i == k;
    assert StepUp(s, id, u).timers == s.timers[k := StepUp(s, id, u).timers[k]];
  }

  /** Under the invariant ▼ changes the unit of the one timer at `k` and nothing else. */
  lemma SteppedDownAt(s: Store, id: Id, u: Unit, k: nat)
    requires Valid(s) && k < |s.timers| && s.timers[k].id == id
    ensures var t := s.timers[k]; var v := Get(t, u);
      StepDown(s, id, u) == Store(s.timers[k := With(t, u, if v > 0 then v - 1 else 0)], s.registry)
  {
    assert forall i :: 0 <= i < |s.timers| && s.timers[i].id == id ==> i == k;
    assert StepDown(s, id, u).timers == s.timers[k := StepDown(s, id, u).timers[k]];
  }

  /** Every unit of a timer in a valid store is within its range. */
  lemma GetInRange(s: Store, k: nat, u: Unit)
    requires Valid(s) && k < |s.timers|
    ensures 0 <= Get(s.timers[k], u) <= Limit(u)
  {
    assert WellFormed(s.timers[k]);
  }

  /** Writing a unit and then writing back its old value restores the timer. */
  lemma WithRestores(t: Timer, u: Unit, v: int)
    ensures Get(With(t, u, v), u) == v
    ensures With(With(t, u, v), u, Get(t, u)) == t
  {
  }

  /** Starting twice is the same as starting once: a started timer is registered, and a
      start that did nothing does nothing again. */
  lemma StartIdempotent(s: Store, id: Id)
    ensures StartTimer(StartTimer(s, id), id) == StartTimer(s, id)
  {
    var r := StartTimer(s, id);
    if Startable(s, id) {
      assert id in r.registry;
    }
  }

  /** The HH:MM:SS display of every timer in a valid store is exactly eight characters and
      reads back as the timer's remaining time. */
  lemma DisplayAlwaysFits(s: Store)
    requires Valid(s)
    ensures forall i :: 0 <= i < |s.timers| ==>
      |Clock.FormatTime(s.timers[i].time)| == 8
      && Clock.ParseClock(Clock.FormatTime(s.timers[i].time)) == Some(s.timers[i].time)
  {
    forall i | 0 <= i < |s.timers|
      ensures |Clock.FormatTime(s.timers[i].time)| == 8
      ensures Clock.ParseClock(Clock.FormatTime(s.timers[i].time)) == Some(s.timers[i].time)
    {
      assert WellFormed(s.timers[i]);
      Clock.FormatParseRoundTrip(s.timers[i].time);
    }
  }

  /** The store after adding a timer, entering 5 in its seconds field and starting it. */
  function FiveSecondsStarted(id: Id): Store
  {
    StartTimer(UpdateTimer(AddTimer(Initial, id), id, SetUnit(Seconds, FromInt(5))), id)
  }

  /** Adding, entering 5 seconds and starting gives one running timer showing 5. */
  lemma FiveSecondsStart(id: Id)
    ensures FiveSecondsStarted(id) == FiveRunning(id)
    ensures Valid(FiveSecondsStarted(id))
  {
    FiveSecondsEntered(id);
    FiveSecondsStartedFrom(id);
  }

  /** The unnamed stopped timer whose seconds field holds 5. */
  function FiveEntered(id: Id): Store
  {
    Store([Timer(id, "", 0, 0, 5, 0, false)], {})
  }

  /** Adding a timer and typing 5 into its seconds field. */
  lemma FiveSecondsEntered(id: Id)
    ensures UpdateTimer(AddTimer(Initial, id), id, SetUnit(Seconds, FromInt(5))) == FiveEntered(id)
  {
    var added := AddTimer(Initial, id);
    assert added.timers == [NewTimer(id)];
    CoerceKeepsInRange(5, 59);
    assert UpdateTimer(added, id, SetUnit(Seconds, FromInt(5))).timers == FiveEntered(id).timers;
  }

  /** Starting that timer runs it from its configured 5 seconds. */
  lemma FiveSecondsStartedFrom(id: Id)
    ensures StartTimer(FiveEntered(id), id) == FiveRunning(id)
    ensures Valid(FiveRunning(id))
  {
    var s := FiveEntered(id);
    assert IdsOf(s.timers) == {id};
    assert Lookup(s.timers, id) == Some(s.timers[0]);
    assert StartTimer(s, id).timers == FiveRunning(id).timers;
    assert IdsOf(FiveRunning(id).timers) == {id};
  }

  /** The completion message of an unnamed timer. */
  lemma UntitledMessage()
    ensures Message(Finished(Caption(""))) == "⏰ \"Untitled\" finished!"
    ensures Finished(Caption("")) == Finished("Untitled")
  {
  }

  /** The unnamed running timer showing 5, as the scenario leaves it. */
  function FiveRunning(id: Id): Store
  {
    Store([Timer(id, "", 0, 0, 5, 5, true)], {id})
  }

  /** An unnamed timer set to five seconds and started shows 5, 4, 3, 2, 1, 0 on its
      first five firings, still running and without any message. */
  lemma FiveSecondCountdown(id: Id, j: nat)
    requires j <= 5
    ensures Ticks(FiveSecondsStarted(id), id, j) == TickOutcome(Store([Timer(id, "", 0, 0, 5, 5 - j, true)], {id}), [])
  {
    FiveSecondsStart(id);
    FiveRunningCountdown(id, j);
  }

  lemma FiveRunningCountdown(id: Id, j: nat)
    requires j <= 5
    ensures Ticks(FiveRunning(id), id, j) == TickOutcome(Store([Timer(id, "", 0, 0, 5, 5 - j, true)], {id}), [])
  {
    TrackedCountsDown(FiveRunning(id), id, 0, j);
  }

  /** The same timer finishes on the sixth firing, not the fifth: it stops, releases its
      interval and emits the single message for "Untitled" (see `UntitledMessage`). */
  lemma FiveSecondFinish(id: Id)
    ensures Ticks(FiveSecondsStarted(id), id, 6)
      == TickOutcome(Store([Timer(id, "", 0, 0, 5, 0, false)], {}), [Finished("Untitled")])
  {
    FiveSecondsStart(id);
    FiveRunningFinish(id);
  }

  lemma FiveRunningFinish(id: Id)
    ensures Ticks(FiveRunning(id), id, 6)
      == TickOutcome(Store([Timer(id, "", 0, 0, 5, 0, false)], {}), [Finished("Untitled")])
  {
    TrackedCompletes(FiveRunning(id), id, 0, 6);
    assert {id} - {id} == {};
  }
}
