/**
 Generators and the collector: the session a generator is bound to, the timer that defers its
 state machine under back pressure, and the summary of connected generators.
 */
module Generators {
  import opened Options

  const INITIAL_DEFER_MSEC: nat := 300
  const MAX_DEFER_MSEC: nat := 30000

  type Session = nat

  /** A timer; once fired, its task has the handler before it or behind it until the task ends. */
  datatype TimerState = Idle | Running | Fired(handled: bool)

  /** Starting a timer that is running or has fired does nothing. */
  function Started(t: TimerState): TimerState {
    if t.Idle? then Running else t
  }

  /**
   A generator. The session, the state machine (named by its session) and the defer timer are
   separate pointers in the source; `deferring` is the dequeue flag of the current state machine.
   */
  datatype Gen = Gen(session: Option<Session>, machine: Option<Session>, timer: Option<TimerState>,
                     connects: nat, resets: nat, expiryUsec: nat, deferMsec: nat, deferring: bool)

  // ---- the defer time

  /** How long to defer at a back-pressure event; the clock must not run backwards. */
  function GetDeferTimeMSec(eventUsec: nat, lastExpiryUsec: nat, lastDeferUsec: nat): nat
    requires lastDeferUsec != 0 && lastExpiryUsec != 0 ==> eventUsec >= lastExpiryUsec
  {
    if lastDeferUsec == 0 || lastExpiryUsec == 0 then INITIAL_DEFER_MSEC
    else
      var since := eventUsec - lastExpiryUsec;
      if since <= 2 * lastDeferUsec then
        var doubled := 2 * lastDeferUsec / 1000;
        if doubled < MAX_DEFER_MSEC then doubled else MAX_DEFER_MSEC
      else if 2 * lastDeferUsec <= since && since <= 4 * lastDeferUsec then lastDeferUsec / 1000
      else INITIAL_DEFER_MSEC
  }

  function Doubled(k: nat): nat {
    if k == 0 then INITIAL_DEFER_MSEC else 2 * Doubled(k - 1)
  }

  /** None yet, the initial time doubled up to six times, or the maximum. */
  ghost predicate DeferTime(msec: nat) {
    msec == 0 || msec == MAX_DEFER_MSEC || exists k: nat :: k <= 6 && msec == Doubled(k)
  }

  lemma DeferTimeKept(eventUsec: nat, lastExpiryUsec: nat, msec: nat)
    requires DeferTime(msec)
    requires msec != 0 && lastExpiryUsec != 0 ==> eventUsec >= lastExpiryUsec
    ensures DeferTime(GetDeferTimeMSec(eventUsec, lastExpiryUsec, msec * 1000))
    ensures GetDeferTimeMSec(eventUsec, lastExpiryUsec, msec * 1000) > 0
  {
    assert INITIAL_DEFER_MSEC == Doubled(0);
    if msec != 0 && msec != MAX_DEFER_MSEC {
      var k: nat :| k <= 6 && msec == Doubled(k);
      assert Doubled(3) == 2400 && Doubled(6) == 19200;
      if k < 6 { assert 2 * msec == Doubled(k + 1); }
    }
  }

  /** The later the next back pressure comes, the shorter the deferral it gets. */
  lemma DeferAntitone(early: nat, late: nat, lastExpiryUsec: nat, msec: nat)
    requires DeferTime(msec) && lastExpiryUsec <= early <= late
    ensures GetDeferTimeMSec(early, lastExpiryUsec, msec * 1000) >= GetDeferTimeMSec(late, lastExpiryUsec, msec * 1000)
  {
    assert Doubled(3) == 2400 && Doubled(6) == 19200;
    if msec != 0 && msec != MAX_DEFER_MSEC {
      var k: nat :| k <= 6 && msec == Doubled(k);
      assert INITIAL_DEFER_MSEC <= msec <= MAX_DEFER_MSEC by { DoubledGrows(0, k); DoubledGrows(k, 6); }
    }
  }

  lemma {:induction false} DoubledGrows(j: nat, k: nat)
    requires j <= k
    ensures Doubled(j) <= Doubled(k)
    decreases k
  {
    if j < k { DoubledGrows(j, k - 1); }
  }

  /** The deferrals in milliseconds, by level. */
  const DEFERRALS: seq<nat> := [300, 600, 1200, 2400, 4800, 9600, 19200, 30000]
  const TOP_LEVEL := 7

  /** The level after back pressure `gapUsec` after the timer of level `n` expired: one up, the same, or the lowest. */
  function NextLevel(n: nat, gapUsec: nat): (m: nat)
    requires n <= TOP_LEVEL
    ensures m <= TOP_LEVEL
  {
    if gapUsec <= 2000 * DEFERRALS[n] then (if n < TOP_LEVEL then n + 1 else TOP_LEVEL)
    else if gapUsec <= 4000 * DEFERRALS[n] then n
    else 0
  }

  lemma LevelTimes(n: nat)
    requires n <= TOP_LEVEL
    ensures DEFERRALS[n] == (if n < TOP_LEVEL then Doubled(n) else MAX_DEFER_MSEC)
    ensures n < 6 ==> DEFERRALS[n + 1] == 2 * DEFERRALS[n]
  {
    assert Doubled(2) == 1200 && Doubled(4) == 4800 && Doubled(6) == 19200;
  }

  /** What back pressure gets, at every level: the first time 300 ms, and then by the time since the timer expired. */
  lemma Deferral(eventUsec: nat, lastExpiryUsec: nat, n: nat)
    requires n <= TOP_LEVEL && lastExpiryUsec <= eventUsec
    ensures GetDeferTimeMSec(eventUsec, lastExpiryUsec, 0) == 300
    ensures GetDeferTimeMSec(eventUsec, 0, DEFERRALS[n] * 1000) == 300
    ensures lastExpiryUsec > 0 ==>
              GetDeferTimeMSec(eventUsec, lastExpiryUsec, DEFERRALS[n] * 1000) ==
              DEFERRALS[NextLevel(n, eventUsec - lastExpiryUsec)]
  {
    LevelTimes(n);
    assert DEFERRALS[6] == 19200 && DEFERRALS[7] == 30000;
  }

  /** The deferral after back pressure came, each time, so long after the timer expired. */
  function Backoff(gapsUsec: seq<nat>): nat {
    var n := |gapsUsec|;
    if n == 0 then GetDeferTimeMSec(0, 0, 0)
    else GetDeferTimeMSec(1 + gapsUsec[n - 1], 1, Backoff(gapsUsec[..n - 1]) * 1000)
  }

  function Level(gapsUsec: seq<nat>): (n: nat)
    ensures n <= TOP_LEVEL
  {
    if gapsUsec == [] then 0 else NextLevel(Level(gapsUsec[..|gapsUsec| - 1]), gapsUsec[|gapsUsec| - 1])
  }

  /** Whatever the gaps: the deferral is the one of the level that they lead to. */
  lemma {:induction false} BackoffLevel(gapsUsec: seq<nat>)
    ensures Backoff(gapsUsec) == DEFERRALS[Level(gapsUsec)]
    decreases |gapsUsec|
  {
    hide GetDeferTimeMSec, NextLevel;
    var n := |gapsUsec|;
    if n == 0 {
      Deferral(0, 0, 0);
    } else {
      BackoffLevel(gapsUsec[..n - 1]);
      Deferral(1 + gapsUsec[n - 1], 1, Level(gapsUsec[..n - 1]));
    }
  }

  /** Back pressure that keeps coming within twice the last deferral doubles it every time, up to the maximum. */
  lemma {:induction false} SustainedPressure(gapsUsec: seq<nat>)
    requires forall i | 0 <= i < |gapsUsec| :: gapsUsec[i] <= 2000 * Backoff(gapsUsec[..i])
    ensures Backoff(gapsUsec) == DEFERRALS[if |gapsUsec| < TOP_LEVEL then |gapsUsec| else TOP_LEVEL]
    ensures Level(gapsUsec) == if |gapsUsec| < TOP_LEVEL then |gapsUsec| else TOP_LEVEL
    decreases |gapsUsec|
  {
    hide Backoff;
    BackoffLevel(gapsUsec);
    var n := |gapsUsec|;
    if n > 0 {
      var before := gapsUsec[..n - 1];
      forall i | 0 <= i < |before| ensures before[i] <= 2000 * Backoff(before[..i]) {
        assert before[i] == gapsUsec[i] && before[..i] == gapsUsec[..i];
      }
      SustainedPressure(before);
      BackoffLevel(before);
    }
  }

  // ---- what each operation does

  function Connected(g: Gen, s: Session): Gen {
    g.(session := Some(s), machine := Some(s), connects := g.connects + 1, timer := Some(Idle), deferring := false)
  }

  function NewGen(s: Session): Gen {
    Gen(Some(s), Some(s), Some(Idle), 1, 0, 0, 0, false)
  }

  function Disconnected(g: Gen, s: Session): Gen {
    if g.session != Some(s) then g
    else g.(session := None, machine := None, timer := None, resets := g.resets + 1, expiryUsec := 0, deferMsec := 0)
  }

  function Pressed(g: Gen, nowUsec: nat): Gen
    requires g.deferMsec != 0 && g.expiryUsec != 0 ==> nowUsec >= g.expiryUsec
  {
    if g.machine.None? || g.timer == Some(Running) then g
    else
      g.(deferring := true,
         deferMsec := GetDeferTimeMSec(nowUsec, g.expiryUsec, g.deferMsec * 1000),
         timer := if g.timer.Some? then Some(Started(g.timer.value)) else None)
  }

  /** The handler of the timer. */
  function Expired(g: Gen, nowUsec: nat): Gen {
    g.(expiryUsec := nowUsec, deferring := if g.machine.Some? then false else g.deferring,
       timer := if g.timer == Some(Fired(false)) then Some(Fired(true)) else g.timer)
  }

  /** A timer that has fired cannot be cancelled, which the source asserts; another session is only reported. */
  predicate CanDisconnect(g: Gen, s: Session) {
    g.session.Some? && g.timer.Some? && (g.session == Some(s) ==> !g.timer.value.Fired?)
  }

  /**
   Session, state machine and timer come and go together; connects exceed resets by one exactly then; and a timer
   whose handler is still to come has a state machine to release.
   */
  ghost predicate GenOk(g: Gen, clock: nat) {
    && (g.session.Some? <==> g.machine.Some?) && (g.session.Some? <==> g.timer.Some?)
    && g.connects == g.resets + (if g.session.Some? then 1 else 0)
    && (g.timer == Some(Running) || g.timer == Some(Fired(false)) ==> g.deferring)
    && DeferTime(g.deferMsec) && g.expiryUsec <= clock
  }

  class SandeshGenerator {
    var session: Option<Session>
    var machine: Option<Session>
    var timer: Option<TimerState>
    var connects: nat
    var resets: nat
    var expiryUsec: nat
    var deferMsec: nat
    var deferring: bool

    ghost function Abs(): Gen
      reads this
    {
      Gen(session, machine, timer, connects, resets, expiryUsec, deferMsec, deferring)
    }

    constructor (s: Session)
      ensures Abs() == NewGen(s)
    {
      machine := Some(s);
      session := Some(s);
      timer := Some(Idle);
      expiryUsec, deferMsec := 0, 0;
      connects, resets := 1, 0;
      deferring := false;
    }

    /** Creating the timer asserts that there is none; a new state machine is not held back. */
    method ConnectSession(s: Session)
      requires timer.None?
      modifies this
      ensures Abs() == Connected(old(Abs()), s)
    {
      session := Some(s);
      machine, deferring := Some(s), false;
      connects := connects + 1;
      timer := Some(Idle);
    }

    method DisconnectSession(s: Session)
      requires CanDisconnect(Abs(), s)
      modifies this
      ensures Abs() == Disconnected(old(Abs()), s)
    {
      if session == Some(s) {
        resets := resets + 1;
        timer := None;
        expiryUsec := 0;
        deferMsec := 0;
        session := None;
        machine := None;
      }
    }

    method ProcessRulesCb(backPressure: bool, nowUsec: nat)
      requires machine.Some? ==> timer.Some?
      requires deferMsec != 0 && expiryUsec != 0 ==> nowUsec >= expiryUsec
      modifies this
      ensures Abs() == if backPressure then Pressed(old(Abs()), nowUsec) else old(Abs())
    {
      if backPressure {
        if machine.Some? {
          if timer == Some(Running) { return; }
          deferring := true;
          deferMsec := GetDeferTimeMSec(nowUsec, expiryUsec, deferMsec * 1000);
          timer := Some(Started(timer.value));
        }
      }
    }

    method DeferTimerExpired(nowUsec: nat)
      modifies this
      ensures Abs() == Expired(old(Abs()), nowUsec)
    {
      expiryUsec := nowUsec;
      if machine.Some? { deferring := false; }
      if timer == Some(Fired(false)) { timer := Some(Fired(true)); }
    }
  }

  // ---- the collector

  predicate FiredTimer(g: Gen) {
    g.timer.Some? && g.timer.value.Fired?
  }

  /** Generators by id, and the generator each session is bound to. */
  datatype State = State(gens: map<string, Gen>, bound: map<Session, string>, clock: nat)

  datatype Event =
    | CtrlMsg(id: string, session: Session, seqOk: bool)
    | Disconnect(session: Session)
    | BackPressure(id: string, nowUsec: nat)
    | TimerFires(id: string)
    | TimerExpiry(id: string, nowUsec: nat)
    | TimerDone(id: string)

  /**
   Messages come on sessions that are not bound yet and disconnects on bound ones. The timer's task belongs to the
   state machine's task, so no disconnect comes in the middle of it. Time does not run back.
   */
  ghost predicate Enabled(s: State, e: Event) {
    match e
    case CtrlMsg(id, session, seqOk) => session !in s.bound
    case Disconnect(session) =>
      session in s.bound && (s.bound[session] in s.gens ==> !FiredTimer(s.gens[s.bound[session]]))
    case BackPressure(id, now) => id in s.gens && now >= s.clock
    case TimerFires(id) => id in s.gens && s.gens[id].timer == Some(Running)
    case TimerExpiry(id, now) => id in s.gens && s.gens[id].timer == Some(Fired(false)) && now >= s.clock
    case TimerDone(id) => id in s.gens && s.gens[id].timer == Some(Fired(true))
  }

  /** One event; `None` when an assert of the source fires or a missing session is used. */
  function Apply(s: State, e: Event): Option<State> {
    match e
    case CtrlMsg(id, session, seqOk) =>
      if id in s.gens && s.gens[id].session.Some? then Some(s)
      else if id in s.gens && s.gens[id].timer.Some? then None
      else
        var g := Bound(s.gens, id, session);
        if seqOk then Some(s.(gens := s.gens[id := g], bound := s.bound[session := id]))
        else if !CanDisconnect(g, session) then None
        else Some(s.(gens := s.gens[id := Disconnected(g, session)]))
    case Disconnect(session) =>
      if session !in s.bound || s.bound[session] !in s.gens then None
      else
        var id := s.bound[session];
        var g := s.gens[id];
        if !CanDisconnect(g, session) then None
        else Some(s.(gens := s.gens[id := Disconnected(g, session)],
                     bound := if g.session == Some(session) then s.bound - {session} else s.bound))
    case BackPressure(id, now) =>
      if id !in s.gens then Some(s)
      else
        var g := s.gens[id];
        if g.deferMsec != 0 && g.expiryUsec != 0 && now < g.expiryUsec then None
        else if g.machine.Some? && g.timer.None? then None
        else Some(s.(gens := s.gens[id := Pressed(g, now)], clock := now))
    case TimerFires(id) =>
      if id !in s.gens then Some(s) else Some(s.(gens := s.gens[id := s.gens[id].(timer := Some(Fired(false)))]))
    case TimerExpiry(id, now) =>
      if id !in s.gens then Some(s) else Some(s.(gens := s.gens[id := Expired(s.gens[id], now)], clock := now))
    case TimerDone(id) =>
      if id !in s.gens then Some(s) else Some(s.(gens := s.gens[id := s.gens[id].(timer := Some(Idle))]))
  }

  ghost predicate Good(s: State) {
    && (forall id | id in s.gens :: GenOk(s.gens[id], s.clock))
    && (forall x | x in s.bound :: s.bound[x] in s.gens && s.gens[s.bound[x]].session == Some(x))
    && (forall id | id in s.gens && s.gens[id].session.Some? ::
          s.gens[id].session.value in s.bound && s.bound[s.gens[id].session.value] == id)
  }

  /** Every event keeps the invariant, and no assert of the source fires. */
  lemma ApplyGood(s: State, e: Event)
    requires Good(s) && Enabled(s, e)
    ensures Apply(s, e).Some? && Good(Apply(s, e).value)
  {
    match e {
      case CtrlMsg(_, _, _) => CtrlMsgGood(s, e);
      case Disconnect(_) => DisconnectGood(s, e);
      case BackPressure(_, _) => BackPressureGood(s, e);
      case _ => TimerGood(s, e);
    }
  }

  /** The assert on stopping the timer fires at a disconnect exactly when the timer has fired. */
  lemma DisconnectAsserts(s: State, session: Session)
    requires Good(s) && session in s.bound
    ensures Apply(s, Disconnect(session)).None? <==> FiredTimer(s.gens[s.bound[session]])
  {
    hide DeferTime;
  }

  lemma CtrlMsgGood(s: State, e: Event)
    requires Good(s) && Enabled(s, e) && e.CtrlMsg?
    ensures Apply(s, e).Some? && Good(Apply(s, e).value)
  {
    DeferZero();
    hide DeferTime;
  }

  lemma DisconnectGood(s: State, e: Event)
    requires Good(s) && Enabled(s, e) && e.Disconnect?
    ensures Apply(s, e).Some? && Good(Apply(s, e).value)
  {
    DeferZero();
    hide DeferTime;
  }

  /** A generator that keeps its session does not disturb the others. */
  lemma OneGood(s: State, id: string, g: Gen, clock: nat)
    requires Good(s) && id in s.gens && g.session == s.gens[id].session && GenOk(g, clock) && s.clock <= clock
    ensures Good(s.(gens := s.gens[id := g], clock := clock))
  {
    hide DeferTime;
  }

  lemma BackPressureGood(s: State, e: Event)
    requires Good(s) && Enabled(s, e) && e.BackPressure?
    ensures Apply(s, e).Some? && Good(Apply(s, e).value)
  {
    hide DeferTime, GetDeferTimeMSec;
    var g := s.gens[e.id];
    assert GenOk(g, s.clock);
    DeferTimeKept(e.nowUsec, g.expiryUsec, g.deferMsec);
    OneGood(s, e.id, Pressed(g, e.nowUsec), e.nowUsec);
  }

  lemma TimerGood(s: State, e: Event)
    requires Good(s) && Enabled(s, e) && (e.TimerFires? || e.TimerExpiry? || e.TimerDone?)
    ensures Apply(s, e).Some? && Good(Apply(s, e).value)
  {
    hide DeferTime;
    var g := s.gens[e.id];
    assert GenOk(g, s.clock);
    hide Good;
    match e {
      case TimerFires(id) => OneGood(s, id, g.(timer := Some(Fired(false))), s.clock);
      case TimerExpiry(id, now) => OneGood(s, id, Expired(g, now), now);
      case TimerDone(id) => OneGood(s, id, g.(timer := Some(Idle)), s.clock);
    }
  }

  lemma DeferZero()
    ensures DeferTime(0)
  {
  }

  function Run(s: State, events: seq<Event>): Option<State>
    decreases |events|
  {
    if events == [] then Some(s)
    else match Apply(s, events[0])
      case None => None
      case Some(s') => Run(s', events[1..])
  }

  ghost predicate Feasible(s: State, events: seq<Event>)
    decreases |events|
  {
    events == [] ||
    (Enabled(s, events[0]) && (Apply(s, events[0]).Some? ==> Feasible(Apply(s, events[0]).value, events[1..])))
  }

  /** Over every run no assert fires and the invariant holds. */
  lemma {:induction false} Reachable(s: State, events: seq<Event>)
    requires Good(s) && Feasible(s, events)
    ensures Run(s, events).Some? && Good(Run(s, events).value)
    decreases |events|
  {
    if events != [] {
      ApplyGood(s, events[0]);
      Reachable(Apply(s, events[0]).value, events[1..]);
    }
  }

  // ---- what is remembered of the past

  /** The next back pressure after a timer was handled is timed from then, and holds the state machine back again. */
  lemma PressedAfterExpiry(g: Gen, expiry: nat, now: nat, n: nat)
    requires g.machine.Some? && g.timer == Some(Fired(false)) && n <= TOP_LEVEL && g.deferMsec == DEFERRALS[n]
    requires 0 < expiry <= now
    ensures var idle := Expired(g, expiry).(timer := Some(Idle));
            var again := Pressed(idle, now);
            && !idle.deferring && again.deferring && again.timer == Some(Running)
            && again.deferMsec == DEFERRALS[NextLevel(n, now - expiry)]
            && again == g.(deferMsec := again.deferMsec, expiryUsec := expiry, timer := Some(Running),
                           deferring := true)
  {
    hide GetDeferTimeMSec, NextLevel;
    Deferral(now, expiry, n);
  }

  /** Back pressure while a timer runs, or without a state machine, is ignored; otherwise it gets its time anew. */
  lemma PressedExactly(g: Gen, now: nat, n: nat)
    requires n <= TOP_LEVEL && g.deferMsec == DEFERRALS[n] && 0 < g.expiryUsec <= now
    ensures g.machine.None? || g.timer == Some(Running) ==> Pressed(g, now) == g
    ensures g.machine.Some? && g.timer.Some? && !g.timer.value.Running? ==>
              Pressed(g, now) == g.(deferring := true, deferMsec := DEFERRALS[NextLevel(n, now - g.expiryUsec)],
                                    timer := if g.timer.value.Idle? then Some(Running) else g.timer)
  {
    hide GetDeferTimeMSec, NextLevel;
    Deferral(now, g.expiryUsec, n);
  }

  /** A disconnect of a session that is not the generator's changes nothing. */
  lemma OtherSession(g: Gen, s: Session)
    requires g.session != Some(s)
    ensures Disconnected(g, s) == g
  {
  }

  /** A generator that comes back starts over: nothing of the deferrals before the disconnect is left. */
  lemma PressedAfterReconnect(g: Gen, s: Session, t: Session, now: nat)
    requires g.session == Some(s)
    ensures var back := Connected(Disconnected(g, s), t);
            && back == Gen(Some(t), Some(t), Some(Idle), g.connects + 1, g.resets + 1, 0, 0, false)
            && Pressed(back, now) == back.(timer := Some(Running), deferring := true, deferMsec := 300)
  {
    hide GetDeferTimeMSec;
    Deferral(now, 0, 0);
  }

  /** A message that finds the generator without a session binds it. */
  predicate Binds(s: State, e: Event, id: string) {
    e.CtrlMsg? && e.id == id && !(id in s.gens && s.gens[id].session.Some?)
  }

  /** A disconnect of its session drops it, and so does a sequence query that fails. */
  predicate Drops(s: State, e: Event, id: string) {
    || (Binds(s, e, id) && !e.seqOk)
    || (e.Disconnect? && e.session in s.bound && s.bound[e.session] == id)
  }

  function Connects(s: State, id: string): nat {
    if id in s.gens then s.gens[id].connects else 0
  }

  function Resets(s: State, id: string): nat {
    if id in s.gens then s.gens[id].resets else 0
  }

  function Bindings(s: State, events: seq<Event>, id: string): nat
    decreases |events|
  {
    if events == [] || Apply(s, events[0]).None? then 0
    else (if Binds(s, events[0], id) then 1 else 0) + Bindings(Apply(s, events[0]).value, events[1..], id)
  }

  function Droppings(s: State, events: seq<Event>, id: string): nat
    decreases |events|
  {
    if events == [] || Apply(s, events[0]).None? then 0
    else (if Drops(s, events[0], id) then 1 else 0) + Droppings(Apply(s, events[0]).value, events[1..], id)
  }

  lemma TallyStep(s: State, e: Event, id: string)
    requires Good(s) && Enabled(s, e) && Apply(s, e).Some?
    ensures Connects(Apply(s, e).value, id) == Connects(s, id) + if Binds(s, e, id) then 1 else 0
    ensures Resets(Apply(s, e).value, id) == Resets(s, id) + if Drops(s, e, id) then 1 else 0
  {
    hide DeferTime, GetDeferTimeMSec;
  }

  /** Over every run the two counters are the times the generator was bound and dropped. */
  lemma {:induction false} CountersTally(s: State, events: seq<Event>, id: string)
    requires Good(s) && Feasible(s, events)
    ensures Run(s, events).Some?
    ensures Connects(Run(s, events).value, id) == Connects(s, id) + Bindings(s, events, id)
    ensures Resets(Run(s, events).value, id) == Resets(s, id) + Droppings(s, events, id)
    decreases |events|
  {
    if events != [] {
      hide Binds, Drops, Connects, Resets, Good, Enabled;
      ApplyGood(s, events[0]);
      TallyStep(s, events[0], id);
      CountersTally(Apply(s, events[0]).value, events[1..], id);
    }
  }

  // ---- held back without a timer

  /** The state machine is held back and no handler is to come that would release it. */
  predicate Stuck(s: State, id: string) {
    && id in s.gens && s.gens[id].machine.Some? && s.gens[id].deferring
    && (s.gens[id].timer == Some(Idle) || s.gens[id].timer == Some(Fired(true)))
  }

  /** Back pressure between the handler and the end of the timer's task. */
  predicate Late(s: State, e: Event, id: string) {
    e.BackPressure? && e.id == id && id in s.gens && s.gens[id].machine.Some? && s.gens[id].timer == Some(Fired(true))
  }

  /** Back pressure that can start the timer, or the end of the session. */
  predicate Resumes(s: State, e: Event, id: string) {
    || (e.BackPressure? && e.id == id && id in s.gens && s.gens[id].timer == Some(Idle))
    || (e.Disconnect? && e.session in s.bound && s.bound[e.session] == id)
  }

  lemma StuckStep(s: State, e: Event, id: string)
    requires Good(s) && Enabled(s, e) && Apply(s, e).Some?
    ensures Stuck(Apply(s, e).value, id) <==> Late(s, e, id) || (Stuck(s, id) && !Resumes(s, e, id))
  {
    hide DeferTime, GetDeferTimeMSec;
  }

  ghost predicate NeverResumes(s: State, events: seq<Event>, id: string)
    decreases |events|
  {
    events != [] && Apply(s, events[0]).Some? ==>
      !Resumes(s, events[0], id) && NeverResumes(Apply(s, events[0]).value, events[1..], id)
  }

  /** Some back pressure came late and nothing has resumed the state machine since. */
  ghost predicate LateUnresumed(s: State, events: seq<Event>, id: string)
    decreases |events|
  {
    && events != [] && Apply(s, events[0]).Some?
    && var s' := Apply(s, events[0]).value;
       (Late(s, events[0], id) && NeverResumes(s', events[1..], id)) || LateUnresumed(s', events[1..], id)
  }

  /** Over every run: when a state machine is left held back with nothing to release it, and when it is not. */
  lemma {:induction false} StuckExactly(s: State, events: seq<Event>, id: string)
    requires Good(s) && Feasible(s, events)
    ensures Run(s, events).Some?
    ensures Stuck(Run(s, events).value, id) <==>
            LateUnresumed(s, events, id) || (Stuck(s, id) && NeverResumes(s, events, id))
    decreases |events|
  {
    if events != [] {
      hide Stuck, Late, Resumes;
      ApplyGood(s, events[0]);
      StuckStep(s, events[0], id);
      StuckExactly(Apply(s, events[0]).value, events[1..], id);
    }
  }

  /** Whenever a timer runs: back pressure that comes before its task has ended leaves the state machine stuck. */
  lemma StuckRun(s: State, id: string, expiry: nat, late: nat)
    requires Good(s) && id in s.gens && s.gens[id].timer == Some(Running) && s.clock <= expiry <= late
    ensures var events := [TimerFires(id), TimerExpiry(id, expiry), BackPressure(id, late), TimerDone(id)];
            Feasible(s, events) && Run(s, events).Some? && Stuck(Run(s, events).value, id)
  {
    hide GetDeferTimeMSec, DeferTime, Good, Feasible, Run;
    assert s.gens[id].machine.Some? by { TimedMachine(s, id); }
    var three: seq<Event> := [TimerExpiry(id, expiry), BackPressure(id, late), TimerDone(id)];
    var two: seq<Event> := [BackPressure(id, late), TimerDone(id)];
    var fired := StepGood(s, TimerFires(id), three);
    var handled := StepGood(fired, TimerExpiry(id, expiry), two);
    var pressed := StepGood(handled, BackPressure(id, late), [TimerDone(id)]);
    var done := StepGood(pressed, TimerDone(id), []);
    assert [TimerFires(id)] + three == [TimerFires(id), TimerExpiry(id, expiry), BackPressure(id, late), TimerDone(id)];
    assert [TimerExpiry(id, expiry)] + two == three && [BackPressure(id, late)] + [TimerDone(id)] == two;
    assert [TimerDone(id)] + [] == [TimerDone(id)];
    NoSteps(done);
  }

  lemma TimedMachine(s: State, id: string)
    requires Good(s) && id in s.gens && s.gens[id].timer.Some?
    ensures s.gens[id].machine.Some?
  {
  }

  lemma StepGood(s: State, e: Event, rest: seq<Event>) returns (s': State)
    requires Good(s) && Enabled(s, e)
    ensures Apply(s, e) == Some(s') && Good(s')
    ensures Run(s, [e] + rest) == Run(s', rest) && (Feasible(s, [e] + rest) <==> Feasible(s', rest))
  {
    ApplyGood(s, e);
    s' := Apply(s, e).value;
    assert ([e] + rest)[1..] == rest;
  }

  lemma NoSteps(s: State)
    ensures Run(s, []) == Some(s) && Feasible(s, [])
  {
  }

  /** The generators the summary lists: those with more connects than resets. */
  function Listed(gens: map<string, Gen>): set<string> {
    set id | id in gens && gens[id].connects > gens[id].resets
  }

  /** The summary lists exactly the generators that some session is bound to. */
  lemma SummaryIsConnected(s: State, events: seq<Event>)
    requires Good(s) && Feasible(s, events)
    ensures Run(s, events).Some?
    ensures var s' := Run(s, events).value; Listed(s'.gens) == set x | x in s'.bound :: s'.bound[x]
  {
    Reachable(s, events);
    var s' := Run(s, events).value;
    var ids := set x | x in s'.bound :: s'.bound[x];
    forall id ensures id in Listed(s'.gens) <==> id in ids {
      if id in Listed(s'.gens) { assert s'.bound[s'.gens[id].session.value] == id; }
    }
  }

  function Bound(gens: map<string, Gen>, id: string, session: Session): Gen {
    if id in gens then Connected(gens[id], session) else NewGen(session)
  }

  lemma CtrlMsgResult(s: State, id: string, session: Session, seqOk: bool)
    requires Apply(s, CtrlMsg(id, session, seqOk)).Some?
    ensures id in s.gens && s.gens[id].session.None? ==> s.gens[id].timer.None?
    ensures var g := Bound(s.gens, id, session);
            && CanDisconnect(g, session)
            && Apply(s, CtrlMsg(id, session, seqOk)) ==
               if id in s.gens && s.gens[id].session.Some? then Some(s)
               else if seqOk then Some(s.(gens := s.gens[id := g], bound := s.bound[session := id]))
               else Some(s.(gens := s.gens[id := Disconnected(g, session)]))
  {
  }

  lemma OverwriteBoth(s: State, id: string, g: Gen, h: Gen, session: Session)
    requires session !in s.bound
    ensures s.gens[id := g][id := h] == s.gens[id := h] && s.bound[session := id] - {session} == s.bound
  {
  }

  class Collector {
    var gens: map<string, SandeshGenerator>
    /** `vsession->generator()`, by the generator's id. */
    var bound: map<Session, string>
    var sessionMismatch: nat
    ghost var clock: nat

    ghost function Owned(): set<SandeshGenerator>
      reads this
    {
      set id | id in gens :: gens[id]
    }

    ghost predicate Valid()
      reads this
    {
      forall a, b | a in gens && b in gens && a != b :: gens[a] != gens[b]
    }

    ghost function Abs(): State
      reads this, Owned()
    {
      State(map id | id in gens :: gens[id].Abs(), bound, clock)
    }

    constructor ()
      ensures Valid() && Abs() == State(map[], map[], 0) && Good(Abs())
    {
      gens, bound, sessionMismatch, clock := map[], map[], 0, 0;
    }

    method Create(id: string, session: Session)
      requires Valid() && id !in gens
      modifies this`gens
      ensures Valid() && id in gens && fresh(Owned() - old(Owned()))
      ensures Abs() == old(Abs()).(gens := old(Abs()).gens[id := NewGen(session)])
    {
      var gen := new SandeshGenerator(session);
      gens := gens[id := gen];
      assert Abs().gens == old(Abs()).gens[id := NewGen(session)];
    }

    method Connect(id: string, session: Session)
      requires Valid() && id in gens && gens[id].timer.None?
      modifies gens[id]
      ensures Abs() == old(Abs()).(gens := old(Abs()).gens[id := Connected(old(Abs()).gens[id], session)])
    {
      hide Connected;
      gens[id].ConnectSession(session);
      assert Abs().gens == old(Abs()).gens[id := Connected(old(Abs()).gens[id], session)];
    }

    method Drop(id: string, session: Session)
      requires Valid() && id in gens && CanDisconnect(gens[id].Abs(), session)
      modifies gens[id]
      ensures Abs() == old(Abs()).(gens := old(Abs()).gens[id := Disconnected(old(Abs()).gens[id], session)])
    {
      hide Disconnected;
      gens[id].DisconnectSession(session);
      assert Abs().gens == old(Abs()).gens[id := Disconnected(old(Abs()).gens[id], session)];
    }

    /** Creates the generator or connects it; fails when it has a session. */
    method Bind(id: string, session: Session) returns (found: bool)
      requires Valid() && (id in gens && gens[id].session.None? ==> gens[id].timer.None?)
      modifies this, Owned()
      ensures Valid() && fresh(Owned() - old(Owned()))
      ensures found <==> !(id in old(gens) && old(gens[id].session).Some?)
      ensures found ==>
                id in gens && Abs() == old(Abs()).(gens := old(Abs()).gens[id := Bound(old(Abs()).gens, id, session)])
      ensures !found ==> Abs() == old(Abs())
    {
      hide Connected, NewGen;
      if id !in gens {
        Create(id, session);
      } else if gens[id].session.None? {
        Connect(id, session);
      } else {
        sessionMismatch := sessionMismatch + 1;
        assert Abs().gens == old(Abs()).gens;
        return false;
      }
      return true;
    }

    /** The binding part of `ReceiveSandeshCtrlMsg`; `seqOk` is the answer of the sequence query. */
    method ReceiveSandeshCtrlMsg(id: string, session: Session, seqOk: bool) returns (ok: bool)
      requires Valid() && session !in bound && Apply(Abs(), CtrlMsg(id, session, seqOk)).Some?
      modifies this, Owned()
      ensures Valid() && Apply(old(Abs()), CtrlMsg(id, session, seqOk)) == Some(Abs())
      ensures ok <==> session in bound
    {
      ghost var before := Abs();
      assert id in gens ==> before.gens[id] == gens[id].Abs();
      CtrlMsgResult(before, id, session, seqOk);
      hide Connected, NewGen, Disconnected, Bound, Apply;
      ok := Bind(id, session);
      if !ok { return; }
      SetGenerator(session, id);
      if !seqOk {
        assert gens[id].Abs() == Abs().gens[id];
        Drop(id, session);
        UnsetGenerator(session);
        ghost var g := Bound(before.gens, id, session);
        OverwriteBoth(before, id, g, Disconnected(g, session), session);
      }
      ok := seqOk;
    }

    /** `vsession->set_generator(gen)`. */
    method SetGenerator(session: Session, id: string)
      modifies this`bound
      ensures Abs() == old(Abs()).(bound := old(bound)[session := id])
    {
      bound := bound[session := id];
      assert Abs().gens == old(Abs()).gens;
    }

    /** `vsession->set_generator(NULL)`. */
    method UnsetGenerator(session: Session)
      modifies this`bound
      ensures Abs() == old(Abs()).(bound := old(bound) - {session})
    {
      bound := bound - {session};
      assert Abs().gens == old(Abs()).gens;
    }

    method DisconnectSession(session: Session)
      requires Valid() && Apply(Abs(), Disconnect(session)).Some?
      modifies this, Owned()
      ensures Valid() && Apply(old(Abs()), Disconnect(session)) == Some(Abs())
    {
      hide Disconnected;
      ghost var before := Abs();
      var id := bound[session];
      assert before.gens[id] == gens[id].Abs();
      if gens[id].session == Some(session) { UnsetGenerator(session); }
      Drop(id, session);
    }

    /** The ids of the generators with more connects than resets, each once. */
    method GetGeneratorSummaryInfo() returns (ids: seq<string>)
      ensures forall id :: id in ids <==> id in Listed(Abs().gens)
      ensures forall i, j | 0 <= i < j < |ids| :: ids[i] != ids[j]
    {
      ids := [];
      var todo := gens.Keys;
      while todo != {}
        invariant todo <= gens.Keys
        invariant forall id :: id in ids <==> id in Listed(Abs().gens) && id !in todo
        invariant forall i, j | 0 <= i < j < |ids| :: ids[i] != ids[j]
        decreases todo
      {
        var id :| id in todo;
        if gens[id].connects > gens[id].resets { ids := ids + [id]; }
        todo := todo - {id};
      }
    }
  }
}
