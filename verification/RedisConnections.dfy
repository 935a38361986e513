/**
 The asynchronous connection to Redis: connecting, failing, reconnecting and disconnecting
 through callbacks that are looked up in a map shared by all connections.
 */
module RedisConnections {
  import opened Options

  /** A hiredis context, by its address. */
  type Context = nat

  datatype RedisState = Init | Pending | Connected | Disconnected

  /** The callbacks registered for a context; each of the first two can be taken once. */
  datatype CbFns = CbFns(owner: nat, connectCb: bool, disconnectCb: bool)

  type CbMap = map<Context, CbFns>

  /**
   One connection. `timers` and `posts` count reconnects that are waiting: on the reconnect
   timer, and posted by the client when it was told of a disconnect.
   */
  datatype Conn = Conn(context: Option<Context>, state: RedisState, timers: nat, posts: nat,
                       disconnected: nat, failed: nat, succeeded: nat)
  {
    function Waiting(): nat {
      timers + posts
    }
  }

  const NEW := Conn(None, Init, 0, 0, 0, 0, 0)

  // ---- what each operation does, as a function of the connection and the map

  /** `redisAsyncConnect` answered with `ctx`, or with an error. */
  function AfterConnect(c: Conn, fns: CbMap, id: nat, ctx: Context, err: bool): (Conn, CbMap) {
    if err then (c.(context := None, timers := c.timers + 1), fns)
    else (c.(context := Some(ctx), state := Pending), fns[ctx := CbFns(id, true, true)])
  }

  function Unregistered(c: Conn, fns: CbMap): CbMap {
    if c.context.Some? then fns - {c.context.value} else fns
  }

  function AfterConnectCb(c: Conn, fns: CbMap, ok: bool): (Conn, CbMap) {
    if ok then (c.(state := Connected), fns)
    else (c.(context := None, timers := c.timers + 1), Unregistered(c, fns))
  }

  /** `reposts`: the client has a disconnect callback, which posts a reconnect. */
  function AfterDisconnectCb(c: Conn, fns: CbMap, reposts: bool): (Conn, CbMap) {
    (c.(context := None, state := Disconnected, posts := if reposts then c.posts + 1 else c.posts),
     Unregistered(c, fns))
  }

  /** A command; `ok` is what hiredis answers when it is asked. */
  function AfterCommand(c: Conn, ok: bool): Conn {
    if c.state != Connected then c.(disconnected := c.disconnected + 1)
    else if ok then c.(succeeded := c.succeeded + 1)
    else c.(failed := c.failed + 1)
  }

  /** The static map of callbacks. */
  class Callbacks {
    var fns: CbMap

    constructor ()
      ensures fns == map[]
    {
      fns := map[];
    }

    /** `RAC_ConnectCallback`: takes the connect callback of a context; its asserts are the preconditions. */
    method TakeConnect(ctx: Context) returns (owner: nat)
      requires ctx in fns && fns[ctx].connectCb
      modifies this
      ensures owner == old(fns)[ctx].owner && fns == old(fns)[ctx := old(fns)[ctx].(connectCb := false)]
    {
      owner := fns[ctx].owner;
      fns := fns[ctx := fns[ctx].(connectCb := false)];
    }

    /** `RAC_DisconnectCallback`: a context that is not registered is ignored. */
    method TakeDisconnect(ctx: Context) returns (owner: Option<nat>)
      requires ctx in fns ==> fns[ctx].disconnectCb
      modifies this
      ensures ctx !in old(fns) ==> owner == None && fns == old(fns)
      ensures ctx in old(fns) ==>
                && owner == Some(old(fns)[ctx].owner)
                && fns == old(fns)[ctx := old(fns)[ctx].(disconnectCb := false)]
    {
      if ctx !in fns { return None; }
      owner := Some(fns[ctx].owner);
      fns := fns[ctx := fns[ctx].(disconnectCb := false)];
    }
  }

  class RedisAsyncConnection {
    const id: nat
    const reposts: bool
    const callbacks: Callbacks
    var context: Option<Context>
    var state: RedisState
    var timers: nat
    var posts: nat
    var callDisconnected: nat
    var callFailed: nat
    var callSucceeded: nat

    ghost function Abs(): (Conn, CbMap)
      reads this, callbacks
    {
      (Conn(context, state, timers, posts, callDisconnected, callFailed, callSucceeded), callbacks.fns)
    }

    constructor (id: nat, reposts: bool, callbacks: Callbacks)
      ensures Abs() == (NEW, callbacks.fns) && this.id == id && this.reposts == reposts && this.callbacks == callbacks
    {
      this.id := id;
      this.reposts := reposts;
      this.callbacks := callbacks;
      context := None;
      state := Init;
      timers, posts := 0, 0;
      callDisconnected, callFailed, callSucceeded := 0, 0, 0;
    }

    /** `RAC_Connect`; its asserts are the preconditions. */
    method Connect(ctx: Context, err: bool)
      requires context.None?
      requires !err ==> ctx !in callbacks.fns
      modifies this, callbacks
      ensures Abs() == AfterConnect(old(Abs()).0, old(Abs()).1, id, ctx, err)
    {
      context := Some(ctx);
      if err {
        timers := timers + 1;
        context := None;
        return;
      }
      callbacks.fns := callbacks.fns[ctx := CbFns(id, false, false)];
      callbacks.fns := callbacks.fns[ctx := callbacks.fns[ctx].(connectCb := true)];
      callbacks.fns := callbacks.fns[ctx := callbacks.fns[ctx].(disconnectCb := true)];
      state := Pending;
      assert callbacks.fns == old(callbacks.fns)[ctx := CbFns(id, true, true)];
    }

    method ConnectCallbackProcess(ok: bool)
      modifies this, callbacks
      ensures Abs() == AfterConnectCb(old(Abs()).0, old(Abs()).1, ok)
    {
      if !ok {
        if context.Some? {
          if context.value in callbacks.fns { callbacks.fns := callbacks.fns - {context.value}; }
          assert callbacks.fns == Unregistered(old(Abs()).0, old(callbacks.fns));
          context := None;
        }
        timers := timers + 1;
        return;
      }
      state := Connected;
    }

    method DisconnectCallbackProcess()
      modifies this, callbacks
      ensures Abs() == AfterDisconnectCb(old(Abs()).0, old(Abs()).1, reposts)
    {
      if context.Some? && context.value in callbacks.fns { callbacks.fns := callbacks.fns - {context.value}; }
      assert callbacks.fns == Unregistered(old(Abs()).0, old(callbacks.fns));
      state := Disconnected;
      context := None;
      if reposts { posts := posts + 1; }
    }

    method Command(answer: bool) returns (status: bool)
      modifies this
      ensures Abs() == (AfterCommand(old(Abs()).0, answer), old(Abs()).1)
      ensures status <==> old(state) == Connected && answer
    {
      if state != Connected {
        callDisconnected := callDisconnected + 1;
        return false;
      }
      status := false;
      if !answer {
        callFailed := callFailed + 1;
      } else {
        status := true;
        callSucceeded := callSucceeded + 1;
      }
    }
  }

  // ---- the whole system

  /** How far hiredis is with a context it has not freed. */
  datatype Stage = Connecting | Up

  /** Connections by id, the shared map, and the contexts hiredis holds. */
  datatype World = World(conns: seq<Conn>, reposts: seq<bool>, fns: CbMap, lib: map<Context, Stage>)

  /** Why a connect is attempted: the client's first call, the timer, or a posted reconnect. */
  datatype Cause = First | Timer | Post

  datatype Event =
    | Connect(id: nat, cause: Cause, ctx: Context, err: bool)
    | ConnectCb(ctx: Context, ok: bool)
    | DisconnectCb(ctx: Context)
    | Command(id: nat, answer: bool)

  /** Not connected, nothing waiting and never tried; commands may have been counted. */
  predicate Untouched(c: Conn) {
    c.context.None? && c.Waiting() == 0 && c.state == Init
  }

  /** What the client and hiredis do: a context is new, connects once, and disconnects only after. */
  ghost predicate Enabled(w: World, e: Event) {
    match e
    case Connect(id, cause, ctx, err) =>
      && id < |w.conns| && ctx !in w.lib
      && (match cause
          case First => Untouched(w.conns[id])
          case Timer => w.conns[id].timers > 0
          case Post => w.conns[id].posts > 0)
    case ConnectCb(ctx, ok) => ctx in w.lib && w.lib[ctx] == Connecting
    case DisconnectCb(ctx) => ctx in w.lib && w.lib[ctx] == Up
    case Command(id, answer) => id < |w.conns|
  }

  function TakeCause(c: Conn, cause: Cause): Conn {
    match cause
    case First => c
    case Timer => if c.timers > 0 then c.(timers := c.timers - 1) else c
    case Post => if c.posts > 0 then c.(posts := c.posts - 1) else c
  }

  /** One event; `None` when an assert of the source fires. */
  function Apply(w: World, e: Event): Option<World>
    requires |w.reposts| == |w.conns|
  {
    match e
    case Connect(id, cause, ctx, err) =>
      if id >= |w.conns| then Some(w) else
      var c := TakeCause(w.conns[id], cause);
      if c.context.Some? || (!err && ctx in w.fns) then None
      else
        var (c', fns') := AfterConnect(c, w.fns, id, ctx, err);
        Some(w.(conns := w.conns[id := c'], fns := fns', lib := if err then w.lib else w.lib[ctx := Connecting]))
    case ConnectCb(ctx, ok) =>
      if ctx !in w.fns || !w.fns[ctx].connectCb || w.fns[ctx].owner >= |w.conns| then None
      else
        var id := w.fns[ctx].owner;
        var fns := w.fns[ctx := w.fns[ctx].(connectCb := false)];
        var (c', fns') := AfterConnectCb(w.conns[id], fns, ok);
        Some(w.(conns := w.conns[id := c'], fns := fns', lib := if ok then w.lib[ctx := Up] else w.lib - {ctx}))
    case DisconnectCb(ctx) =>
      if ctx !in w.fns then Some(w.(lib := w.lib - {ctx}))
      else if !w.fns[ctx].disconnectCb || w.fns[ctx].owner >= |w.conns| then None
      else
        var id := w.fns[ctx].owner;
        var fns := w.fns[ctx := w.fns[ctx].(disconnectCb := false)];
        var (c', fns') := AfterDisconnectCb(w.conns[id], fns, w.reposts[id]);
        Some(w.(conns := w.conns[id := c'], fns := fns', lib := w.lib - {ctx}))
    case Command(id, answer) =>
      if id >= |w.conns| then Some(w) else Some(w.(conns := w.conns[id := AfterCommand(w.conns[id], answer)]))
  }

  /** A connection either has a live registered context, or waits for one reconnect, or was never started. */
  ghost predicate ConnOk(w: World, id: nat)
    requires id < |w.conns| == |w.reposts|
  {
    var c := w.conns[id];
    match c.context
    case Some(ctx) =>
      && c.Waiting() == 0
      && ctx in w.fns && w.fns[ctx].owner == id
      && (c.state == Connected || c.state == Pending)
      && (c.state == Connected <==> ctx in w.lib && w.lib[ctx] == Up)
    case None =>
      && c.state != Connected
      && (c.Waiting() == 1 || (c.Waiting() == 0 && (c.state == Init || (c.state == Disconnected && !w.reposts[id]))))
  }

  ghost predicate Good(w: World) {
    && |w.reposts| == |w.conns|
    && (forall id | 0 <= id < |w.conns| :: ConnOk(w, id))
    && w.fns.Keys == w.lib.Keys
    && (forall ctx | ctx in w.fns ::
          && w.fns[ctx].owner < |w.conns|
          && w.conns[w.fns[ctx].owner].context == Some(ctx)
          && (w.fns[ctx].connectCb <==> w.lib[ctx] == Connecting)
          && w.fns[ctx].disconnectCb)
  }

  lemma InitialGood(reposts: seq<bool>)
    ensures Good(World(seq(|reposts|, _ => NEW), reposts, map[], map[]))
  {
  }

  /** Every event keeps the invariant, and no assert of the source fires. */
  lemma ApplyGood(w: World, e: Event)
    requires Good(w) && Enabled(w, e)
    ensures Apply(w, e).Some? && Good(Apply(w, e).value)
  {
    match e {
      case Connect(id, cause, ctx, err) => ConnectGood(w, e);
      case ConnectCb(ctx, ok) => ConnectCbGood(w, e);
      case DisconnectCb(ctx) => DisconnectCbGood(w, e);
      case Command(id, answer) => CommandGood(w, e);
    }
  }

  /** A connect is attempted only by a connection that has no context and then waits for nothing else. */
  lemma CauseTaken(w: World, e: Event)
    requires Good(w) && Enabled(w, e) && e.Connect?
    ensures var c := TakeCause(w.conns[e.id], e.cause); c.context.None? && c.Waiting() == 0 && c.state != Connected
  {
    assert ConnOk(w, e.id);
  }

  lemma ConnectGood(w: World, e: Event)
    requires Good(w) && Enabled(w, e) && e.Connect?
    ensures Apply(w, e).Some? && Good(Apply(w, e).value)
  {
    CauseTaken(w, e); NoContext(w, e);
    hide TakeCause, ConnOk;
    var w' := Apply(w, e).value;
    forall i | 0 <= i < |w'.conns| ensures ConnOk(w', i) {
      assert ConnOk(w, i);
      if i == e.id { ConnectOk(w, e); } else { OtherOk(w, e, i); }
    }
  }

  lemma ConnectOk(w: World, e: Event)
    requires Good(w) && Enabled(w, e) && e.Connect? && Apply(w, e).Some?
    ensures ConnOk(Apply(w, e).value, e.id)
  {
    CauseTaken(w, e);
    hide TakeCause;
  }

  /** A connect of another connection does not show. */
  lemma OtherOk(w: World, e: Event, i: nat)
    requires Good(w) && Enabled(w, e) && e.Connect? && Apply(w, e).Some? && i < |w.conns| && i != e.id
    ensures ConnOk(Apply(w, e).value, i)
  {
    hide TakeCause;
    assert ConnOk(w, i);
  }

  lemma NoContext(w: World, e: Event)
    requires Good(w) && Enabled(w, e) && e.Connect?
    ensures forall ctx | ctx in w.fns :: w.fns[ctx].owner != e.id
  {
    CauseTaken(w, e);
  }

  lemma ConnectCbGood(w: World, e: Event)
    requires Good(w) && Enabled(w, e) && e.ConnectCb?
    ensures Apply(w, e).Some? && Good(Apply(w, e).value)
  {
    assert ConnOk(w, w.fns[e.ctx].owner);
    var w' := Apply(w, e).value;
    forall i | 0 <= i < |w'.conns| ensures ConnOk(w', i) { assert ConnOk(w, i); }
  }

  lemma DisconnectCbGood(w: World, e: Event)
    requires Good(w) && Enabled(w, e) && e.DisconnectCb?
    ensures Apply(w, e).Some? && Good(Apply(w, e).value)
  {
    assert ConnOk(w, w.fns[e.ctx].owner);
    var w' := Apply(w, e).value;
    forall i | 0 <= i < |w'.conns| ensures ConnOk(w', i) { assert ConnOk(w, i); }
  }

  lemma CommandGood(w: World, e: Event)
    requires Good(w) && Enabled(w, e) && e.Command?
    ensures Apply(w, e).Some? && Good(Apply(w, e).value)
  {
    var w' := Apply(w, e).value;
    forall i | 0 <= i < |w'.conns| ensures ConnOk(w', i) { assert ConnOk(w, i); }
  }

  // ---- runs

  function Run(w: World, events: seq<Event>): (r: Option<World>)
    requires |w.reposts| == |w.conns|
    ensures r.Some? ==> |r.value.reposts| == |r.value.conns| == |w.conns|
    decreases |events|
  {
    if events == [] then Some(w)
    else match Apply(w, events[0])
      case None => None
      case Some(w') => Run(w', events[1..])
  }

  ghost predicate Feasible(w: World, events: seq<Event>)
    requires |w.reposts| == |w.conns|
    decreases |events|
  {
    events == [] ||
    (Enabled(w, events[0]) && (Apply(w, events[0]).Some? ==> Feasible(Apply(w, events[0]).value, events[1..])))
  }

  predicate Starts(e: Event, id: nat) {
    e.Connect? && e.id == id
  }

  function Issued(events: seq<Event>, id: nat): nat {
    if events == [] then 0 else (if events[0].Command? && events[0].id == id then 1 else 0) + Issued(events[1..], id)
  }

  function Calls(c: Conn): nat {
    c.disconnected + c.failed + c.succeeded
  }

  lemma StepCounts(w: World, e: Event, id: nat)
    requires |w.reposts| == |w.conns| && id < |w.conns| && Apply(w, e).Some?
    ensures Apply(w, e).value.reposts == w.reposts
    ensures Calls(Apply(w, e).value.conns[id]) == Calls(w.conns[id]) + Issued([e], id)
  {
  }

  lemma StepTouches(w: World, e: Event, id: nat)
    requires |w.reposts| == |w.conns| && id < |w.conns| && Apply(w, e).Some?
    requires e.Connect? && e.id < |w.conns| ==> TakeCause(w.conns[e.id], e.cause).Waiting() == 0
    requires Starts(e, id) || !Untouched(w.conns[id])
    ensures !Untouched(Apply(w, e).value.conns[id])
  {
  }

  lemma StepOne(w: World, e: Event, id: nat)
    requires Good(w) && Enabled(w, e) && id < |w.conns|
    ensures Apply(w, e).Some? && Good(Apply(w, e).value) && Apply(w, e).value.reposts == w.reposts
    ensures var c, c' := w.conns[id], Apply(w, e).value.conns[id];
            && Calls(c') == Calls(c) + Issued([e], id)
            && (Starts(e, id) || !Untouched(c) ==> !Untouched(c'))
  {
    ApplyGood(w, e);
    if e.Connect? { CauseTaken(w, e); }
    hide Apply, TakeCause, Calls, Issued, Untouched;
    StepCounts(w, e, id);
    if Starts(e, id) || !Untouched(w.conns[id]) { StepTouches(w, e, id); }
  }

  // ---- what each counter counts

  datatype Outcome = NotConnected | Refused | Accepted

  /** What becomes of a command issued in a state; `answer` is what hiredis says when it is asked. */
  function OutcomeOf(c: Conn, answer: bool): Outcome {
    if c.state != Connected then NotConnected else if answer then Accepted else Refused
  }

  /** How many commands of a connection had an outcome, by the events and the states before them. */
  function Tally(w: World, events: seq<Event>, id: nat, o: Outcome): nat
    requires |w.reposts| == |w.conns|
    decreases |events|
  {
    if events == [] || Apply(w, events[0]).None? then 0
    else
      var e := events[0];
      (if e.Command? && e.id == id && id < |w.conns| && OutcomeOf(w.conns[id], e.answer) == o then 1 else 0) +
      Tally(Apply(w, e).value, events[1..], id, o)
  }

  lemma TallyStep(w: World, e: Event, id: nat)
    requires |w.reposts| == |w.conns| && id < |w.conns| && Apply(w, e).Some?
    ensures var c, c' := w.conns[id], Apply(w, e).value.conns[id];
            && c'.succeeded == c.succeeded + Tally(w, [e], id, Accepted)
            && c'.failed == c.failed + Tally(w, [e], id, Refused)
            && c'.disconnected == c.disconnected + Tally(w, [e], id, NotConnected)
  {
  }

  lemma TallyFirst(w: World, events: seq<Event>, id: nat, o: Outcome)
    requires |w.reposts| == |w.conns| && events != [] && Apply(w, events[0]).Some?
    ensures Tally(w, events, id, o) ==
            Tally(w, [events[0]], id, o) + Tally(Apply(w, events[0]).value, events[1..], id, o)
  {
    assert [events[0]][1..] == [];
  }

  /** Over every run each counter is the number of its commands: accepted, refused, and not asked for at all. */
  lemma {:induction false} CountersTally(w: World, events: seq<Event>, id: nat)
    requires |w.reposts| == |w.conns| && id < |w.conns| && Run(w, events).Some?
    ensures var c, c' := w.conns[id], Run(w, events).value.conns[id];
            && c'.succeeded == c.succeeded + Tally(w, events, id, Accepted)
            && c'.failed == c.failed + Tally(w, events, id, Refused)
            && c'.disconnected == c.disconnected + Tally(w, events, id, NotConnected)
    decreases |events|
  {
    if events != [] {
      var w' := Apply(w, events[0]).value;
      TallyStep(w, events[0], id);
      TallyFirst(w, events, id, Accepted); TallyFirst(w, events, id, Refused); TallyFirst(w, events, id, NotConnected);
      hide Apply, Tally;
      CountersTally(w', events[1..], id);
    }
  }

  /** How a connection stands after each event that is its own, and that the others stand as they did. */
  lemma StepLeaves(w: World, e: Event, id: nat)
    requires Good(w) && Enabled(w, e) && id < |w.conns| && Apply(w, e).Some?
    ensures var c, c', w' := w.conns[id], Apply(w, e).value.conns[id], Apply(w, e).value;
            match e
            case Connect(i, _, ctx, err) =>
              if i != id then c' == c
              else if err then c'.context == None && c'.timers == 1 && c'.posts == 0 && c'.state == c.state
              else c'.context == Some(ctx) && c'.Waiting() == 0 && c'.state == Pending && ctx in w'.fns
            case ConnectCb(ctx, ok) =>
              if c.context != Some(ctx) then c' == c
              else if ok then c' == c.(state := Connected) && ctx in w'.fns
              else c' == c.(context := None, timers := 1) && c'.posts == 0 && ctx !in w'.fns
            case DisconnectCb(ctx) =>
              if c.context != Some(ctx) then c' == c
              else c' == c.(context := None, state := Disconnected, posts := if w.reposts[id] then 1 else 0) &&
                   c'.timers == 0 && ctx !in w'.fns
            case Command(i, answer) =>
              c'.context == c.context && c'.state == c.state && c'.timers == c.timers && c'.posts == c.posts
  {
    assert ConnOk(w, id);
    match e {
      case Connect(_, _, _, _) => CauseTaken(w, e);
      case ConnectCb(ctx, _) => assert ConnOk(w, w.fns[ctx].owner);
      case DisconnectCb(ctx) => assert ConnOk(w, w.fns[ctx].owner);
      case Command(_, _) =>
    }
  }

  /**
   Over every run: no assert fires, every command is counted once, and a connection that was
   started either has a live context registered for it and nothing waiting, or has no context
   and exactly one reconnect waiting; only a client without a disconnect callback is left idle.
   */
  lemma {:induction false} Reachable(w: World, events: seq<Event>, id: nat)
    requires Good(w) && Feasible(w, events) && id < |w.conns|
    ensures Run(w, events).Some?
    ensures var w' := Run(w, events).value; var c := w'.conns[id];
            && Good(w')
            && Calls(c) == Calls(w.conns[id]) + Issued(events, id)
            && (c.state == Connected ==> c.context.Some? && c.context.value in w'.lib && w'.lib[c.context.value] == Up)
            && ((exists e | e in events :: Starts(e, id)) || !Untouched(w.conns[id]) ==>
                || (c.context.Some? && c.context.value in w'.fns && w'.fns[c.context.value].owner == id &&
                    c.Waiting() == 0)
                || (c.context.None? && c.Waiting() == 1)
                || (c.context.None? && c.Waiting() == 0 && c.state == Disconnected && !w.reposts[id]))
    decreases |events|
  {
    if events == [] {
      assert ConnOk(w, id);
    } else {
      StepOne(w, events[0], id);
      Reachable(Apply(w, events[0]).value, events[1..], id);
      assert events == [events[0]] + events[1..];
    }
  }
}
