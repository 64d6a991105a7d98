/**
 The auto-lock service: the master password held in memory, and a 5-minute inactivity timer
 that wipes it. The browser's timer table is part of the state, so that "at most one
 deadline is pending" is an invariant the operations keep rather than a fact of the encoding.
 Time is a logical clock in milliseconds passed to each operation.
 */
module AutoLock {
  import opened Wrappers

  /** `setTimeout` hands out positive ids; a zero id would read as "no timer" to `if (timeoutId)`. */
  type TimerId = x: int | x >= 1 witness 1

  const TimeoutMs: nat := 1000 * 60 * 5

  /**
   `master` and `timeoutId` are the fields of the service; `timers` holds the browser's
   scheduled callbacks of this service, by id, with the time each one is due; `nextTimerId`
   is the id the next `setTimeout` returns.
   */
  datatype Session = Session(master: string, timeoutId: Option<TimerId>,
                             timers: map<TimerId, nat>, nextTimerId: TimerId)

  /** The state after construction: no password and no timer (the constructor only adds listeners). */
  const Initial: Session := Session("", None, map[], 1)

  /** Every scheduled callback is the one `timeoutId` names. */
  ghost predicate Valid(s: Session) {
    forall id :: id in s.timers ==> s.timeoutId == Some(id)
  }

  /** The pending inactivity deadline, if a callback is still scheduled. */
  function Deadline(s: Session): Option<nat> {
    if s.timeoutId.Some? && s.timeoutId.value in s.timers then Some(s.timers[s.timeoutId.value])
    else None
  }

  lemma {:induction false} AtMostOnePending(s: Session)
    requires Valid(s)
    ensures |s.timers| <= 1
    ensures |s.timers| == 0 <==> Deadline(s).None?
  {
    if s.timeoutId.Some? {
      assert s.timers.Keys <= {s.timeoutId.value};
      SubsetOfSingletonSize(s.timers.Keys, s.timeoutId.value);
    } else {
      assert s.timers.Keys == {};
    }
    assert |s.timers| == |s.timers.Keys|;
  }

  lemma SubsetOfSingletonSize(keys: set<TimerId>, id: TimerId)
    requires keys <= {id}
    ensures |keys| <= 1
    ensures |keys| == 0 <==> id !in keys
  {
    if id in keys {
      assert keys == {id};
    } else {
      assert keys == {};
    }
  }

  function GetMaster(s: Session): string {
    s.master
  }

  /** `clearTimeout(timeoutId)` when `timeoutId` is set: the timers still scheduled after it. */
  function Cancel(s: Session): (remaining: map<TimerId, nat>)
    ensures Valid(s) ==> remaining == map[]
  {
    var remaining := if s.timeoutId.Some? then s.timers - {s.timeoutId.value} else s.timers;
    assert Valid(s) ==> remaining.Keys == {};
    remaining
  }

  /** `resetTimer`: cancel the stored timer, if any, then schedule a fresh one. */
  function ResetTimer(s: Session, now: nat): (r: Session)
    ensures r.master == s.master
    ensures Valid(s) ==> Valid(r)
    ensures Valid(s) ==> Deadline(r) == Some(now + TimeoutMs) && |r.timers| == 1
  {
    var remaining := Cancel(s);
    var id := s.nextTimerId;
    Session(s.master, Some(id), remaining[id := now + TimeoutMs], id + 1)
  }

  /** `setMaster(m)`: store the password and restart the inactivity timer. */
  function SetMaster(s: Session, m: string, now: nat): (r: Session)
    ensures GetMaster(r) == m
    ensures Valid(s) ==> Valid(r) && Deadline(r) == Some(now + TimeoutMs)
  {
    ResetTimer(s.(master := m), now)
  }

  /** `clearMaster()`: wipe the password; a pending timer stays scheduled. */
  function ClearMaster(s: Session): (r: Session)
    ensures GetMaster(r) == ""
    ensures Deadline(r) == Deadline(s)
    ensures Valid(s) ==> Valid(r)
  {
    s.(master := "")
  }

  /** The callback of timer `id` runs: `clearMaster()`, and the one-shot timer is gone. The
      service does not reset `timeoutId`, which keeps naming the spent timer. */
  function Fire(s: Session, id: TimerId): Session {
    Session("", s.timeoutId, s.timers - {id}, s.nextTimerId)
  }

  /** What happens when the clock reaches `now`: `locked` says the callback ran, which is
      when the service navigates to the login route and raises its alert. */
  datatype TickOutcome = TickOutcome(session: Session, locked: bool)

  function Tick(s: Session, now: nat): (r: TickOutcome)
    ensures r.locked <==> Deadline(s).Some? && Deadline(s).value <= now
    ensures r.locked ==> GetMaster(r.session) == "" && Deadline(r.session).None?
    ensures !r.locked ==> r.session == s
    ensures Valid(s) ==> Valid(r.session)
  {
    match Deadline(s)
    case Some(due) =>
      if due <= now then TickOutcome(Fire(s, s.timeoutId.value), true) else TickOutcome(s, false)
    case None => TickOutcome(s, false)
  }

  /** The DOM events `resetListeners` subscribes to. */
  datatype DomEvent = Click | KeyDown | MouseMove | TouchStart | VisibilityChange(hidden: bool)

  /** The listeners: the four input events always reset the timer; `visibilitychange` resets it
      only while the document is hidden. None of them reads or writes the password. */
  function OnEvent(s: Session, e: DomEvent, now: nat): (r: Session)
    ensures r.master == s.master
    ensures Valid(s) ==> Valid(r)
    ensures Valid(s) && !e.VisibilityChange? ==> Deadline(r) == Some(now + TimeoutMs)
    ensures Valid(s) && e == VisibilityChange(true) ==> Deadline(r) == Some(now + TimeoutMs)
    ensures e == VisibilityChange(false) ==> r == s
  {
    match e
    case VisibilityChange(hidden) => if hidden then ResetTimer(s, now) else s
    case _ => ResetTimer(s, now)
  }

  /** One input to the service, stamped with the clock. */
  datatype Input =
    | Set(m: string, at: nat)
    | Clear
    | Event(e: DomEvent, at: nat)
    | Time(at: nat)

  function Step(s: Session, i: Input): Session {
    match i
    case Set(m, at) => SetMaster(s, m, at)
    case Clear => ClearMaster(s)
    case Event(e, at) => OnEvent(s, e, at)
    case Time(at) => Tick(s, at).session
  }

  function Run(s: Session, inputs: seq<Input>): Session
    decreases |inputs|
  {
    if |inputs| == 0 then s else Run(Step(s, inputs[0]), inputs[1..])
  }

  /** The initial state holds no password and no timer. */
  lemma InitialIsLocked()
    ensures GetMaster(Initial) == "" && Deadline(Initial).None? && Valid(Initial)
  {
  }

  /** What `getMaster` reads after each input: the password just set, the empty string after
      `clearMaster` or a lock, and otherwise the password it read before. */
  lemma GetMasterAfterStep(s: Session, i: Input)
    ensures i.Set? ==> GetMaster(Step(s, i)) == i.m
    ensures i.Clear? ==> GetMaster(Step(s, i)) == ""
    ensures i.Event? ==> GetMaster(Step(s, i)) == GetMaster(s)
    ensures i.Time? ==> GetMaster(Step(s, i)) == (if Tick(s, i.at).locked then "" else GetMaster(s))
  {
  }

  /** Whatever happens after construction, at most one inactivity deadline is pending. */
  lemma {:induction false} AlwaysAtMostOnePending(s: Session, inputs: seq<Input>)
    requires Valid(s)
    ensures Valid(Run(s, inputs))
    ensures |Run(s, inputs).timers| <= 1
    decreases |inputs|
  {
    if |inputs| == 0 {
      AtMostOnePending(s);
    } else {
      var next := Step(s, inputs[0]);
      assert Valid(next) by {
        match inputs[0]
        case Set(m, at) =>
        case Clear =>
        case Event(e, at) =>
        case Time(at) =>
      }
      AlwaysAtMostOnePending(next, inputs[1..]);
    }
  }

  /** `setMaster(m)`, then five minutes without activity: locked, and locked once. */
  lemma LockAfterInactivity(s: Session, m: string, t: nat, later: nat)
    requires Valid(s)
    requires t + TimeoutMs <= later
    ensures var u := SetMaster(s, m, t);
            GetMaster(u) == m && Tick(u, later).locked && GetMaster(Tick(u, later).session) == ""
    ensures var after := Tick(SetMaster(s, m, t), later).session;
            forall t' :: !Tick(after, t').locked
  {
  }

  /** Activity before expiry moves the deadline, so the old expiry time no longer locks. */
  lemma ActivityKeepsSessionAlive(s: Session, e: DomEvent, now: nat)
    requires Valid(s) && Deadline(s).Some?
    requires now < Deadline(s).value < now + TimeoutMs
    requires e != VisibilityChange(false)
    ensures var r := Tick(OnEvent(s, e, now), Deadline(s).value);
            !r.locked && GetMaster(r.session) == GetMaster(s)
  {
  }

  /** Time passing while the password is already wiped keeps it wiped, whether or not the
      callback runs. */
  lemma FiringWhileLockedKeepsLocked(s: Session, now: nat)
    requires GetMaster(s) == ""
    ensures GetMaster(Tick(s, now).session) == ""
    ensures GetMaster(Tick(Tick(s, now).session, now).session) == ""
  {
  }

  /**
   The listeners reset the timer whether or not a password is held, so activity on a locked
   (or never unlocked) session schedules the lock callback again, and five minutes later it
   runs again: a further navigation to the login route and a further inactivity alert.
   */
  lemma ActivityWhileLockedLocksAgain(s: Session, e: DomEvent, now: nat)
    requires Valid(s) && GetMaster(s) == ""
    requires e != VisibilityChange(false)
    ensures var r := Tick(OnEvent(s, e, now), now + TimeoutMs);
            r.locked && GetMaster(r.session) == ""
  {
  }

  /** After `setMaster` and a lock, one click and five more idle minutes raise a second lock. */
  lemma SecondLockAfterClick(s: Session, m: string, t: nat, later: nat)
    requires Valid(s)
    requires t + TimeoutMs <= later
    ensures var first := Tick(SetMaster(s, m, t), later);
            var second := Tick(OnEvent(first.session, Click, later), later + TimeoutMs);
            first.locked && second.locked
  {
  }
}
