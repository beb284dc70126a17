/** The timer list and the interval registry of the countdown app, and every handler
    that changes them. A handler is a pure transition on the pair (list, registry); the
    registry is the set of timer ids that currently own a one-second interval. */
module TimerStore {
  import opened Wrappers
  import opened NumberInput

  type Id = int

  /** The three configured-duration fields. */
  datatype Unit = Hours | Minutes | Seconds

  /** One countdown: its configured duration, its remaining `time` in whole seconds and
      whether it is shown as running. */
  datatype Timer = Timer(id: Id, name: string, hours: int, minutes: int, seconds: int,
                         time: int, isRunning: bool)

  /** The timer list together with the ids that own a live interval. */
  datatype Store = Store(timers: seq<Timer>, registry: set<Id>)

  /** What `updateTimer` is asked to store: a new name, or a number for one unit. */
  datatype Edit = Rename(text: string) | SetUnit(unit: Unit, raw: Numeric)

  /** The completion message a finishing timer emits. */
  datatype Notice = Finished(caption: string)

  /** The text of the notification or alert that shows a completion message. */
  function Message(n: Notice): string
  {
    "⏰ \"" + n.caption + "\" finished!"
  }

  /** The largest duration the clamped fields can describe: 99:59:59. */
  const MaxDuration := 99 * 3600 + 59 * 60 + 59

  /** Upper bound of a unit: 99 for hours, 59 for anything else. */
  function Limit(u: Unit): nat
  {
    if u == Hours then 99 else 59
  }

  function Get(t: Timer, u: Unit): int
  {
    match u
    case Hours => t.hours
    case Minutes => t.minutes
    case Seconds => t.seconds
  }

  function With(t: Timer, u: Unit, v: int): Timer
  {
    match u
    case Hours => t.(hours := v)
    case Minutes => t.(minutes := v)
    case Seconds => t.(seconds := v)
  }

  /** The configured duration `hours*3600 + minutes*60 + seconds`. */
  function Duration(t: Timer): int
  {
    t.hours * 3600 + t.minutes * 60 + t.seconds
  }

  /** `t.name || "Untitled"`: the empty name is replaced. */
  function Caption(name: string): (r: string)
    ensures |r| > 0
    ensures |name| > 0 ==> r == name
  {
    if |name| == 0 then "Untitled" else name
  }

  function IdsOf(ts: seq<Timer>): set<Id>
  {
    set i | 0 <= i < |ts| :: ts[i].id
  }

  /** Index of the first timer with the given id (`timers.find`). */
  function IndexOf(ts: seq<Timer>, id: Id): (r: Option<nat>)
    ensures r.None? <==> id !in IdsOf(ts)
    ensures r.Some? ==>
      && r.value < |ts| && ts[r.value].id == id
      && forall j :: 0 <= j < r.value ==> ts[j].id != id
    decreases |ts|
  {
    if |ts| == 0 then None
    else if ts[0].id == id then Some(0)
    else
      match IndexOf(ts[1..], id)
      case None =>
        assert forall j :: 1 <= j < |ts| ==> ts[j] == ts[1..][j - 1];
        None
      case Some(k) => Some(k + 1)
  }

  /** The first timer with the given id, if any. */
  function Lookup(ts: seq<Timer>, id: Id): (r: Option<Timer>)
    ensures r.None? <==> id !in IdsOf(ts)
    ensures r.Some? ==> r.value in ts && r.value.id == id
  {
    match IndexOf(ts, id)
    case None => None
    case Some(k) => Some(ts[k])
  }

  /** The change a handler makes to the timer it targets. */
  datatype Change =
    | Edited(e: Edit)            // updateTimer
    | FromInputs                 // setTimerFromInputs
    | Begun(start: int)          // startTimer
    | Counted                    // the interval callback
    | Halted                     // pauseTimer
    | Cleared(full: bool)        // resetTimer

  /** What a change does to one timer record. */
  function Apply(c: Change, t: Timer): Timer
  {
    match c
    case Edited(Rename(text)) => t.(name := text)
    case Edited(SetUnit(u, raw)) => With(t, u, Coerce(raw, Limit(u)))
    case FromInputs => t.(time := Duration(t), isRunning := false)
    case Begun(start) => t.(time := start, isRunning := true)
    case Counted => if t.time > 0 then t.(time := t.time - 1) else t.(isRunning := false, time := 0)
    case Halted => t.(isRunning := false)
    case Cleared(full) =>
      if full then t.(time := 0, hours := 0, minutes := 0, seconds := 0, isRunning := false)
      else t.(time := 0, isRunning := false)
  }

  /** `prev.map(t => t.id === id ? change(t) : t)`: no change touches an id, so the id set
      and the uniqueness of ids are kept, and an unlisted id leaves the list as it was. */
  function Patch(ts: seq<Timer>, id: Id, c: Change): (r: seq<Timer>)
    ensures |r| == |ts|
    ensures forall i :: 0 <= i < |ts| ==> r[i] == if ts[i].id == id then Apply(c, ts[i]) else ts[i]
    ensures IdsOf(r) == IdsOf(ts)
    ensures UniqueIds(ts) ==> UniqueIds(r)
    ensures id !in IdsOf(ts) ==> r == ts
  {
    var r := seq(|ts|, i requires 0 <= i < |ts| => if ts[i].id == id then Apply(c, ts[i]) else ts[i]);
    ConfinedChange(ts, r, id);
    r
  }

  /** A position-wise change that keeps every id and touches only timers with id `id`. */
  lemma ConfinedChange(ts: seq<Timer>, r: seq<Timer>, id: Id)
    requires |r| == |ts|
    requires forall i :: 0 <= i < |ts| ==> r[i].id == ts[i].id
    requires forall i :: 0 <= i < |ts| && ts[i].id != id ==> r[i] == ts[i]
    ensures IdsOf(r) == IdsOf(ts)
    ensures UniqueIds(ts) ==> UniqueIds(r)
    ensures id !in IdsOf(ts) ==> r == ts
  {
    SameIds(ts, r);
    if id !in IdsOf(ts) {
      assert forall i :: 0 <= i < |ts| ==> ts[i].id in IdsOf(ts);
    }
  }

  // ---------------------------------------------------------------------------
  // The invariant

  predicate UniqueIds(ts: seq<Timer>)
  {
    forall i, j :: 0 <= i < j < |ts| ==> ts[i].id != ts[j].id
  }

  /** Field ranges a timer keeps: clamped configured fields and a remaining time between
      zero and the largest configurable duration. */
  predicate WellFormed(t: Timer)
  {
    && 0 <= t.hours <= 99 && 0 <= t.minutes <= 59 && 0 <= t.seconds <= 59
    && 0 <= t.time <= MaxDuration
  }

  /** The store invariant: ids are unique, every timer is well formed, a timer is running
      exactly when its id owns an interval, and only listed ids own one. */
  predicate Valid(s: Store)
  {
    && UniqueIds(s.timers)
    && (forall i :: 0 <= i < |s.timers| ==> WellFormed(s.timers[i]))
    && (forall i :: 0 <= i < |s.timers| ==> (s.timers[i].isRunning <==> s.timers[i].id in s.registry))
    && s.registry <= IdsOf(s.timers)
  }

  /** Position `k` holds the only timer with id `id`, and that id owns an interval: what a
      running timer of a valid store satisfies, and all that a countdown needs. */
  predicate Tracked(s: Store, id: Id, k: nat)
  {
    k < |s.timers| && s.timers[k].id == id && UniqueIds(s.timers) && id in s.registry
  }

  /** `r` agrees with `ts` on every position whose id is not `id`, and keeps every id. */
  predicate OthersUnchanged(ts: seq<Timer>, r: seq<Timer>, id: Id)
  {
    && |r| == |ts|
    && (forall i :: 0 <= i < |ts| ==> r[i].id == ts[i].id)
    && (forall i :: 0 <= i < |ts| && ts[i].id != id ==> r[i] == ts[i])
  }

  lemma DurationBound(t: Timer)
    requires WellFormed(t)
    ensures 0 <= Duration(t) <= MaxDuration
  {
  }

  /** A change to the timers with id `id`, together with a new registry that differs from
      the old one at most in `id`, keeps the invariant when every changed timer stays well
      formed and runs exactly when `id` is in the new registry. */
  lemma PatchKeepsValid(s: Store, id: Id, c: Change, reg: set<Id>)
    requires Valid(s)
    requires reg - {id} == s.registry - {id}
    requires id in reg ==> id in IdsOf(s.timers)
    requires forall i :: 0 <= i < |s.timers| && s.timers[i].id == id ==>
      WellFormed(Apply(c, s.timers[i])) && (Apply(c, s.timers[i]).isRunning <==> id in reg)
    ensures Valid(Store(Patch(s.timers, id, c), reg))
  {
    var ts, rt := s.timers, Patch(s.timers, id, c);
    assert forall i :: 0 <= i < |ts| ==> rt[i].id == ts[i].id;
    SameIds(ts, rt);
    forall i | 0 <= i < |rt|
      ensures WellFormed(rt[i]) && (rt[i].isRunning <==> rt[i].id in reg)
    {
      if ts[i].id != id {
        assert rt[i] == ts[i];
        assert ts[i].id in reg <==> ts[i].id in s.registry - {id};
      }
    }
    forall x | x in reg ensures x in IdsOf(ts) {
      if x != id {
        assert x in s.registry - {id};
      }
    }
  }

  /** Sequences with the same ids position by position have the same id set, and one has
      unique ids exactly when the other does. */
  lemma SameIds(ts: seq<Timer>, rt: seq<Timer>)
    requires |rt| == |ts| && forall i :: 0 <= i < |ts| ==> rt[i].id == ts[i].id
    ensures IdsOf(rt) == IdsOf(ts)
    ensures UniqueIds(ts) ==> UniqueIds(rt)
  {
  }

  // ---------------------------------------------------------------------------
  // Handlers

  /** A freshly added timer: empty name, all numbers zero, not running. */
  function NewTimer(id: Id): Timer
  {
    Timer(id, "", 0, 0, 0, 0, false)
  }

  /** `addTimer`: append a zeroed timer under an id the list does not use yet. */
  function AddTimer(s: Store, newId: Id): (r: Store)
    requires newId !in IdsOf(s.timers)
    ensures |r.timers| == |s.timers| + 1 && r.timers[..|s.timers|] == s.timers
    ensures Lookup(r.timers, newId) == Some(NewTimer(newId))
    ensures IdsOf(r.timers) == IdsOf(s.timers) + {newId}
    ensures r.registry == s.registry
    ensures Valid(s) ==> Valid(r)
  {
    AddFacts(s, newId);
    Store(s.timers + [NewTimer(newId)], s.registry)
  }

  /** Appending a timer under an unused id adds exactly that id, and the appended timer
      is the one found under it. */
  lemma AddFacts(s: Store, newId: Id)
    requires newId !in IdsOf(s.timers)
    ensures IdsOf(s.timers + [NewTimer(newId)]) == IdsOf(s.timers) + {newId}
    ensures Lookup(s.timers + [NewTimer(newId)], newId) == Some(NewTimer(newId))
    ensures (s.timers + [NewTimer(newId)])[..|s.timers|] == s.timers
    ensures Valid(s) ==> Valid(Store(s.timers + [NewTimer(newId)], s.registry))
  {
    var ts := s.timers + [NewTimer(newId)];
    assert forall i :: 0 <= i < |s.timers| ==> ts[i] == s.timers[i];
    assert ts[|s.timers|] == NewTimer(newId);
    assert IdsOf(ts) == IdsOf(s.timers) + {newId};
    assert IndexOf(ts, newId) == Some(|s.timers|);
    assert ts[..|s.timers|] == s.timers;
    if Valid(s) {
      AddKeepsValid(s, newId);
    }
  }

  /** The appended timer is well formed, not running and under a fresh id. */
  lemma AddKeepsValid(s: Store, newId: Id)
    requires Valid(s) && newId !in IdsOf(s.timers)
    ensures Valid(Store(s.timers + [NewTimer(newId)], s.registry))
  {
    var ts := s.timers + [NewTimer(newId)];
    var n := |s.timers|;
    assert forall i :: 0 <= i < n ==> ts[i] == s.timers[i];
    assert forall i :: 0 <= i < n ==> s.timers[i].id in IdsOf(s.timers);
    assert newId !in s.registry;
    assert IdsOf(s.timers) <= IdsOf(ts) by {
      forall x | x in IdsOf(s.timers) ensures x in IdsOf(ts) {
        var i :| 0 <= i < n && s.timers[i].id == x;
        assert ts[i].id == x;
      }
    }
  }

  /** `updateTimer`: store a name as given, or a number coerced, floored and clamped into
      its unit's range; every other field and every other timer is left alone. */
  function UpdateTimer(s: Store, id: Id, e: Edit): (r: Store)
    ensures r.registry == s.registry
    ensures OthersUnchanged(s.timers, r.timers, id)
    ensures forall i :: 0 <= i < |s.timers| && s.timers[i].id == id ==>
      match e
      case Rename(text) => r.timers[i] == s.timers[i].(name := text)
      case SetUnit(u, raw) =>
        && 0 <= Get(r.timers[i], u) <= Limit(u)
        && (raw.NaN? ==> Get(r.timers[i], u) == 0)
        && Get(r.timers[i], u) == Coerce(raw, Limit(u))
        && r.timers[i] == With(s.timers[i], u, Get(r.timers[i], u))
    ensures Valid(s) ==> Valid(r)
  {
    Store(Patch(s.timers, id, Edited(e)), s.registry)
  }

  /** `setTimerFromInputs`: the remaining time becomes the configured duration, the timer
      stops and its interval is released. */
  function SetTimerFromInputs(s: Store, id: Id): (r: Store)
    ensures r.registry == s.registry - {id}
    ensures OthersUnchanged(s.timers, r.timers, id)
    ensures forall i :: 0 <= i < |s.timers| && s.timers[i].id == id ==>
      && r.timers[i].time == s.timers[i].hours * 3600 + s.timers[i].minutes * 60 + s.timers[i].seconds
      && !r.timers[i].isRunning
      && r.timers[i] == s.timers[i].(time := r.timers[i].time, isRunning := false)
    ensures Valid(s) ==> Valid(r)
    ensures Valid(s) ==> forall i :: 0 <= i < |r.timers| ==> r.timers[i].time <= 359999
  {
    Store(Patch(s.timers, id, FromInputs), s.registry - {id})
  }

  /** The time `startTimer` counts down from: the remaining time if nonzero, otherwise the
      configured duration. */
  function StartTime(t: Timer): int
  {
    if t.time == 0 then Duration(t) else t.time
  }

  /** Whether `startTimer` gets past its guards: the id owns no interval yet, the timer
      exists, and there is something to count down. */
  predicate Startable(s: Store, id: Id)
  {
    && id !in s.registry
    && Lookup(s.timers, id).Some?
    && (Lookup(s.timers, id).value.time != 0 || Duration(Lookup(s.timers, id).value) > 0)
  }

  /** `startTimer`: unless a guard returns early, set the remaining time to the start time,
      mark the timer running and register its interval. */
  function StartTimer(s: Store, id: Id): (r: Store)
    ensures id in s.registry ==> r == s
    ensures id !in IdsOf(s.timers) ==> r == s
    ensures (Lookup(s.timers, id).Some? && Lookup(s.timers, id).value.time == 0
             && Duration(Lookup(s.timers, id).value) <= 0) ==> r == s
    ensures Startable(s, id) ==>
      var t := Lookup(s.timers, id).value;
      && r.registry == s.registry + {id}
      && OthersUnchanged(s.timers, r.timers, id)
      && forall i :: 0 <= i < |s.timers| && s.timers[i].id == id ==>
        && r.timers[i].time == (if t.time != 0 then t.time else Duration(t))
        && r.timers[i].isRunning
        && r.timers[i] == s.timers[i].(time := r.timers[i].time, isRunning := true)
    ensures Valid(s) && Startable(s, id) ==> forall i :: 0 <= i < |r.timers| && r.timers[i].id == id ==> r.timers[i].time > 0
    ensures Valid(s) ==> Valid(r)
  {
    if id in s.registry then s
    else
      match Lookup(s.timers, id)
      case None => s
      case Some(t) =>
        if t.time == 0 && Duration(t) <= 0 then s
        else
          StartedFacts(s, id, t);
          Started(s, id, t)
  }

  /** The store once `startTimer` gets past its guards for the timer `t`. */
  function Started(s: Store, id: Id, t: Timer): Store
  {
    Store(Patch(s.timers, id, Begun(StartTime(t))), s.registry + {id})
  }

  /** Getting past the guards registers the id, restarts the matching timer from its start
      time and, under the invariant, keeps the invariant with a positive remaining time. */
  lemma StartedFacts(s: Store, id: Id, t: Timer)
    requires Lookup(s.timers, id) == Some(t) && !(t.time == 0 && Duration(t) <= 0)
    ensures var r := Started(s, id, t);
      && OthersUnchanged(s.timers, r.timers, id)
      && forall i :: 0 <= i < |s.timers| && s.timers[i].id == id ==>
        && r.timers[i].time == (if t.time != 0 then t.time else Duration(t))
        && r.timers[i].isRunning
        && r.timers[i] == s.timers[i].(time := r.timers[i].time, isRunning := true)
    ensures Valid(s) ==> Valid(Started(s, id, t))
    ensures Valid(s) ==> forall i :: 0 <= i < |s.timers| && s.timers[i].id == id ==> Started(s, id, t).timers[i].time > 0
  {
    if Valid(s) {
      StartedWellFormed(s, id, t);
      PatchKeepsValid(s, id, Begun(StartTime(t)), s.registry + {id});
      DurationBound(t);
    }
  }

  /** Under the invariant the looked-up timer is the only one with its id, and starting it
      yields a well-formed running timer. */
  lemma StartedWellFormed(s: Store, id: Id, t: Timer)
    requires Valid(s) && Lookup(s.timers, id) == Some(t)
    ensures forall i :: 0 <= i < |s.timers| && s.timers[i].id == id ==>
      s.timers[i] == t && WellFormed(Apply(Begun(StartTime(t)), s.timers[i]))
  {
    var k := IndexOf(s.timers, id).value;
    assert s.timers[k] == t;
    DurationBound(t);
  }

  /** The completion messages the callback emits while it maps over the list, in list
      order: one for each matching timer that is not above zero. */
  function Completions(ts: seq<Timer>, id: Id): (r: seq<Notice>)
    ensures |r| <= |ts|
    ensures id !in IdsOf(ts) ==> r == []
    decreases |ts|
  {
    if |ts| == 0 then []
    else
      assert IdsOf(ts[1..]) <= IdsOf(ts) by {
        assert forall j :: 0 <= j < |ts| - 1 ==> ts[1..][j] == ts[j + 1];
      }
      (if ts[0].id == id && ts[0].time <= 0 then [Finished(Caption(ts[0].name))] else [])
      + Completions(ts[1..], id)
  }

  /** With unique ids, the callback emits a message only for the one matching timer, and
      only when its time is already zero. */
  lemma {:induction false} CompletionsOfUnique(ts: seq<Timer>, id: Id, k: nat)
    requires UniqueIds(ts) && k < |ts| && ts[k].id == id
    ensures Completions(ts, id) == if ts[k].time <= 0 then [Finished(Caption(ts[k].name))] else []
    decreases |ts|
  {
    var rest := ts[1..];
    assert forall j :: 0 <= j < |rest| ==> rest[j] == ts[j + 1];
    assert UniqueIds(rest);
    if k == 0 {
      assert id !in IdsOf(rest);
    } else {
      CompletionsOfUnique(rest, id, k - 1);
    }
  }

  /** What one firing of an interval produces: the new store and the messages emitted. */
  datatype TickOutcome = TickOutcome(store: Store, notices: seq<Notice>)

  /** The interval callback of timer `id`: each matching timer counts down or makes the
      terminal transition; the interval is released when a timer finished. With unique
      ids this is the single-timer step `SingleTick`. */
  function Tick(s: Store, id: Id): (r: TickOutcome)
    ensures UniqueIds(s.timers) ==> r == SingleTick(s, id)
  {
    var notices := Completions(s.timers, id);
    var r := TickOutcome(Store(Patch(s.timers, id, Counted),
                               if |notices| > 0 then s.registry - {id} else s.registry),
                         notices);
    TickMatchesSingle(s, id, r);
    r
  }

  /** One firing as a step on the one timer with the id: a timer above zero loses a
      second; a timer at zero (or below) stops, is pinned to zero, releases its interval
      and reports its caption. An id not in the list changes nothing. */
  function SingleTick(s: Store, id: Id): TickOutcome
  {
    match IndexOf(s.timers, id)
    case None => TickOutcome(s, [])
    case Some(k) =>
      var t := s.timers[k];
      if t.time > 0 then TickOutcome(Store(s.timers[k := t.(time := t.time - 1)], s.registry), [])
      else TickOutcome(Store(s.timers[k := t.(isRunning := false, time := 0)], s.registry - {id}),
                       [Finished(Caption(t.name))])
  }

  lemma TickMatchesSingle(s: Store, id: Id, r: TickOutcome)
    requires r.notices == Completions(s.timers, id)
    requires r.store == Store(Patch(s.timers, id, Counted),
                              if |r.notices| > 0 then s.registry - {id} else s.registry)
    ensures UniqueIds(s.timers) ==> r == SingleTick(s, id)
  {
    if UniqueIds(s.timers) {
      var ts := s.timers;
      match IndexOf(ts, id)
      case None =>
        assert r.store.timers == ts;
      case Some(k) =>
        CompletionsOfUnique(ts, id, k);
        assert r.store.timers == ts[k := Apply(Counted, ts[k])];
    }
  }

  /** The callback maps over the whole list: every timer with the id counts down or makes
      the terminal transition, every other timer is untouched, and an id not in the list
      changes nothing. */
  lemma TickPointwise(s: Store, id: Id)
    ensures var r := Tick(s, id);
      && OthersUnchanged(s.timers, r.store.timers, id)
      && (forall i :: 0 <= i < |s.timers| && s.timers[i].id == id && s.timers[i].time > 0 ==>
            r.store.timers[i] == s.timers[i].(time := s.timers[i].time - 1))
      && (forall i :: 0 <= i < |s.timers| && s.timers[i].id == id && s.timers[i].time <= 0 ==>
            r.store.timers[i] == s.timers[i].(isRunning := false, time := 0))
      && (id !in IdsOf(s.timers) ==> r == TickOutcome(s, []))
  {
    var r := Tick(s, id);
    if id !in IdsOf(s.timers) {
      assert r.store.timers == s.timers;
    }
  }

  /** A firing keeps the store invariant and emits at most one message. */
  lemma TickKeepsValid(s: Store, id: Id)
    ensures Valid(s) ==> Valid(Tick(s, id).store) && |Tick(s, id).notices| <= 1
  {
    if Valid(s) {
      var r := Tick(s, id);
      match IndexOf(s.timers, id)
      case None =>
      case Some(k) =>
        var t := s.timers[k];
        var c := Counted;
        assert forall i :: 0 <= i < |s.timers| && s.timers[i].id == id ==> i == k;
        assert r.store.timers == Patch(s.timers, id, c) by {
          assert forall i :: 0 <= i < |s.timers| ==>
            Patch(s.timers, id, c)[i] == if i == k then Apply(c, t) else s.timers[i];
        }
        PatchKeepsValid(s, id, c, r.store.registry);
    }
  }

  /** Release the interval of `id` and apply `c` to the matching timers. */
  function Release(s: Store, id: Id, c: Change): Store
  {
    Store(Patch(s.timers, id, c), s.registry - {id})
  }

  /** `pauseTimer`: release the interval and mark the timer not running; time and
      configuration are kept. */
  function PauseTimer(s: Store, id: Id): (r: Store)
    ensures r.registry == s.registry - {id}
    ensures OthersUnchanged(s.timers, r.timers, id)
    ensures forall i :: 0 <= i < |s.timers| && s.timers[i].id == id ==>
      r.timers[i] == s.timers[i].(isRunning := false)
    ensures id !in IdsOf(s.timers) ==> r.timers == s.timers
    ensures Valid(s) ==> Valid(r)
  {
    Release(s, id, Halted)
  }

  /** `resetTimer(id, full)`: release the interval and zero the remaining time; a full
      reset also zeroes hours, minutes and seconds, a single one keeps them. */
  function ResetTimer(s: Store, id: Id, full: bool): (r: Store)
    ensures r.registry == s.registry - {id}
    ensures OthersUnchanged(s.timers, r.timers, id)
    ensures forall i :: 0 <= i < |s.timers| && s.timers[i].id == id ==>
      && r.timers[i].time == 0 && !r.timers[i].isRunning
      && r.timers[i].name == s.timers[i].name
      && (if full then r.timers[i].hours == 0 && r.timers[i].minutes == 0 && r.timers[i].seconds == 0
          else r.timers[i].hours == s.timers[i].hours && r.timers[i].minutes == s.timers[i].minutes
               && r.timers[i].seconds == s.timers[i].seconds)
    ensures id !in IdsOf(s.timers) ==> r.timers == s.timers
    ensures Valid(s) ==> Valid(r)
  {
    Release(s, id, Cleared(full))
  }

  /** `prev.filter(t => t.id !== id)`. */
  function Without(ts: seq<Timer>, id: Id): (r: seq<Timer>)
    decreases |ts|
  {
    if |ts| == 0 then []
    else if ts[0].id == id then Without(ts[1..], id)
    else [ts[0]] + Without(ts[1..], id)
  }

  /** Filtering keeps exactly the timers with other ids. */
  lemma {:induction false} WithoutMembers(ts: seq<Timer>, id: Id)
    ensures forall t :: t in Without(ts, id) <==> t in ts && t.id != id
    ensures |Without(ts, id)| <= |ts|
    decreases |ts|
  {
    if |ts| > 0 {
      WithoutMembers(ts[1..], id);
      assert ts == [ts[0]] + ts[1..];
    }
  }

  /** Filtering a list without the id changes nothing. */
  lemma {:induction false} WithoutAbsent(ts: seq<Timer>, id: Id)
    requires id !in IdsOf(ts)
    ensures Without(ts, id) == ts
    decreases |ts|
  {
    if |ts| > 0 {
      assert ts[0].id != id;
      assert IdsOf(ts[1..]) <= IdsOf(ts) by {
        assert forall j :: 0 <= j < |ts| - 1 ==> ts[1..][j] == ts[j + 1];
      }
      WithoutAbsent(ts[1..], id);
      assert ts == [ts[0]] + ts[1..];
    }
  }

  /** With unique ids, filtering removes exactly the one matching position. */
  lemma {:induction false} WithoutUnique(ts: seq<Timer>, id: Id, k: nat)
    requires UniqueIds(ts) && k < |ts| && ts[k].id == id
    ensures Without(ts, id) == ts[..k] + ts[k + 1..]
    decreases |ts|
  {
    var rest := ts[1..];
    assert forall j :: 0 <= j < |rest| ==> rest[j] == ts[j + 1];
    if k == 0 {
      assert id !in IdsOf(rest);
      WithoutAbsent(rest, id);
    } else {
      assert UniqueIds(rest);
      WithoutUnique(rest, id, k - 1);
      assert ts[..k] == [ts[0]] + rest[..k - 1];
      assert ts[k + 1..] == rest[k..];
    }
  }

  /** `deleteTimer`: release the interval and drop the matching timer, keeping the others
      in order. */
  function DeleteTimer(s: Store, id: Id): (r: Store)
    ensures r.registry == s.registry - {id}
    ensures forall t :: t in r.timers <==> t in s.timers && t.id != id
    ensures id !in IdsOf(r.timers)
    ensures id !in IdsOf(s.timers) ==> r.timers == s.timers
    ensures forall k :: 0 <= k < |s.timers| && s.timers[k].id == id && UniqueIds(s.timers) ==>
      r.timers == s.timers[..k] + s.timers[k + 1..]
    ensures Valid(s) ==> Valid(r)
  {
    var r := Store(Without(s.timers, id), s.registry - {id});
    DeleteFacts(s, id);
    r
  }

  lemma DeleteFacts(s: Store, id: Id)
    ensures forall t :: t in Without(s.timers, id) <==> t in s.timers && t.id != id
    ensures id !in IdsOf(Without(s.timers, id))
    ensures id !in IdsOf(s.timers) ==> Without(s.timers, id) == s.timers
    ensures forall k :: 0 <= k < |s.timers| && s.timers[k].id == id && UniqueIds(s.timers) ==>
      Without(s.timers, id) == s.timers[..k] + s.timers[k + 1..]
    ensures Valid(s) ==> Valid(Store(Without(s.timers, id), s.registry - {id}))
  {
    WithoutMembers(s.timers, id);
    WithoutDropsId(s.timers, id);
    if id !in IdsOf(s.timers) {
      WithoutAbsent(s.timers, id);
    }
    WithoutPositions(s.timers, id);
    if Valid(s) {
      DeleteKeepsValid(s, id);
    }
  }

  /** No timer with the id survives the filter. */
  lemma WithoutDropsId(ts: seq<Timer>, id: Id)
    ensures id !in IdsOf(Without(ts, id))
  {
    WithoutMembers(ts, id);
  }

  /** With unique ids, the filter removes exactly the one matching position. */
  lemma WithoutPositions(ts: seq<Timer>, id: Id)
    ensures forall k :: 0 <= k < |ts| && ts[k].id == id && UniqueIds(ts) ==>
      Without(ts, id) == ts[..k] + ts[k + 1..]
  {
    forall k | 0 <= k < |ts| && ts[k].id == id && UniqueIds(ts)
      ensures Without(ts, id) == ts[..k] + ts[k + 1..]
    {
      WithoutUnique(ts, id, k);
    }
  }

  /** Deleting keeps the store invariant. */
  lemma DeleteKeepsValid(s: Store, id: Id)
    requires Valid(s)
    ensures Valid(Store(Without(s.timers, id), s.registry - {id}))
  {
    match IndexOf(s.timers, id)
    case None =>
      WithoutAbsent(s.timers, id);
      forall i | 0 <= i < |s.timers| ensures s.timers[i].id != id { }
    case Some(k) =>
      WithoutUnique(s.timers, id, k);
      DropKeepsValid(s, id, k);
  }

  /** Dropping the one timer with id `id` together with its interval keeps the invariant. */
  lemma DropKeepsValid(s: Store, id: Id, k: nat)
    requires Valid(s) && k < |s.timers| && s.timers[k].id == id
    ensures Valid(Store(s.timers[..k] + s.timers[k + 1..], s.registry - {id}))
  {
    var ts, rt := s.timers, s.timers[..k] + s.timers[k + 1..];
    DropPositions(ts, k);
    DropUnique(ts, k);
    DropIds(ts, k);
    forall i | 0 <= i < |rt|
      ensures WellFormed(rt[i]) && (rt[i].isRunning <==> rt[i].id in s.registry - {id})
    {
      var j := if i < k then i else i + 1;
      assert rt[i] == ts[j] && j != k;
    }
  }

  /** Where each position of a sequence with one element dropped comes from. */
  lemma DropPositions(ts: seq<Timer>, k: nat)
    requires k < |ts|
    ensures |ts[..k] + ts[k + 1..]| == |ts| - 1
    ensures forall i :: 0 <= i < k ==> (ts[..k] + ts[k + 1..])[i] == ts[i]
    ensures forall i :: k < i < |ts| ==> (ts[..k] + ts[k + 1..])[i - 1] == ts[i]
  {
  }

  /** Dropping one element keeps ids unique. */
  lemma DropUnique(ts: seq<Timer>, k: nat)
    requires k < |ts| && UniqueIds(ts)
    ensures UniqueIds(ts[..k] + ts[k + 1..])
  {
    var rt := ts[..k] + ts[k + 1..];
    DropPositions(ts, k);
    forall i, j | 0 <= i < j < |rt| ensures rt[i].id != rt[j].id {
      var i', j' := if i < k then i else i + 1, if j < k then j else j + 1;
      assert rt[i] == ts[i'] && rt[j] == ts[j'];
    }
  }

  /** With unique ids, dropping one element removes exactly its id. */
  lemma DropIds(ts: seq<Timer>, k: nat)
    requires k < |ts| && UniqueIds(ts)
    ensures IdsOf(ts[..k] + ts[k + 1..]) == IdsOf(ts) - {ts[k].id}
  {
    DropKeepsOtherIds(ts, k);
    DropAddsNoIds(ts, k);
  }

  lemma DropKeepsOtherIds(ts: seq<Timer>, k: nat)
    requires k < |ts|
    ensures IdsOf(ts) - {ts[k].id} <= IdsOf(ts[..k] + ts[k + 1..])
  {
    var rt := ts[..k] + ts[k + 1..];
    DropPositions(ts, k);
    forall x | x in IdsOf(ts) - {ts[k].id} ensures x in IdsOf(rt) {
      var j :| 0 <= j < |ts| && ts[j].id == x;
      if j < k { assert rt[j] == ts[j]; } else { assert rt[j - 1] == ts[j]; }
    }
  }

  lemma DropAddsNoIds(ts: seq<Timer>, k: nat)
    requires k < |ts| && UniqueIds(ts)
    ensures IdsOf(ts[..k] + ts[k + 1..]) <= IdsOf(ts) - {ts[k].id}
  {
    var rt := ts[..k] + ts[k + 1..];
    DropPositions(ts, k);
    forall x | x in IdsOf(rt) ensures x in IdsOf(ts) - {ts[k].id} {
      var i :| 0 <= i < |rt| && rt[i].id == x;
      var j := if i < k then i else i + 1;
      assert rt[i] == ts[j] && j != k;
    }
  }

  /** The value the ▲ stepper passes to `updateTimer`: one more, capped at 99. */
  function StepUpValue(v: int): int
  {
    Min(99, v + 1)
  }

  /** The value the ▼ stepper passes to `updateTimer`: one less, floored at 0. */
  function StepDownValue(v: int): int
  {
    Max(0, v - 1)
  }

  /** The ▲ stepper: one more in the unit, saturating at the unit's limit. */
  function StepUp(s: Store, id: Id, u: Unit): (r: Store)
    ensures Lookup(s.timers, id).None? ==> r == s
    ensures r.registry == s.registry
    ensures OthersUnchanged(s.timers, r.timers, id)
    ensures Valid(s) ==> forall i :: 0 <= i < |s.timers| && s.timers[i].id == id ==>
      && Get(r.timers[i], u) == (if Get(s.timers[i], u) < Limit(u) then Get(s.timers[i], u) + 1 else Limit(u))
      && r.timers[i] == With(s.timers[i], u, Get(r.timers[i], u))
    ensures Valid(s) ==> Valid(r)
  {
    match Lookup(s.timers, id)
    case None => s
    case Some(t) =>
      var r := UpdateTimer(s, id, SetUnit(u, FromInt(StepUpValue(Get(t, u)))));
      StepperFacts(s, id, u, t);
      r
  }

  /** The ▼ stepper: one less in the unit, saturating at zero. */
  function StepDown(s: Store, id: Id, u: Unit): (r: Store)
    ensures Lookup(s.timers, id).None? ==> r == s
    ensures r.registry == s.registry
    ensures OthersUnchanged(s.timers, r.timers, id)
    ensures Valid(s) ==> forall i :: 0 <= i < |s.timers| && s.timers[i].id == id ==>
      && Get(r.timers[i], u) == (if Get(s.timers[i], u) > 0 then Get(s.timers[i], u) - 1 else 0)
      && r.timers[i] == With(s.timers[i], u, Get(r.timers[i], u))
    ensures Valid(s) ==> Valid(r)
  {
    match Lookup(s.timers, id)
    case None => s
    case Some(t) =>
      var r := UpdateTimer(s, id, SetUnit(u, FromInt(StepDownValue(Get(t, u)))));
      StepperFacts(s, id, u, t);
      r
  }

  /** Under the invariant the timer a stepper reads is the only matching one, and its
      unit is in range, so the stepped value lands where the stepper means it to. */
  lemma StepperFacts(s: Store, id: Id, u: Unit, t: Timer)
    requires Lookup(s.timers, id) == Some(t)
    ensures Valid(s) ==> forall i :: 0 <= i < |s.timers| && s.timers[i].id == id ==> s.timers[i] == t
    ensures Valid(s) ==> 0 <= Get(t, u) <= Limit(u)
    ensures Valid(s) ==>
      Coerce(FromInt(StepUpValue(Get(t, u))), Limit(u)) == (if Get(t, u) < Limit(u) then Get(t, u) + 1 else Limit(u))
    ensures Valid(s) ==>
      Coerce(FromInt(StepDownValue(Get(t, u))), Limit(u)) == (if Get(t, u) > 0 then Get(t, u) - 1 else 0)
  {
    if Valid(s) {
      var k := IndexOf(s.timers, id).value;
      assert s.timers[k] == t;
      assert WellFormed(t);
      var v := Get(t, u);
      CoerceKeepsInRange(if v < Limit(u) then v + 1 else Limit(u), Limit(u));
      CoerceKeepsInRange(if v > 0 then v - 1 else 0, Limit(u));
    }
  }
}
