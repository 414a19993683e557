/** The server of test/server.c as steps: what each callback does, and the shutdown over every run. */
module ServerSteps {
  import opened Frames
  import opened UvLoop

  datatype Terminate = NOTSET | CLIENT | SERVER

  /** The listening socket is the handle `Socket`; `Peer` is the stream of the one client; `printed` are the
      messages that print_msg has written out. */
  datatype State = State(loop: Loop, terminate: Terminate, active: bool, printed: seq<Msg>, exited: bool)

  /** A message, or the null pointer for the end of the stream. */
  datatype Delivery = End | Text(msg: Msg)

  /** What the loop may report. A zero error code is success. */
  datatype Event =
    | OnSignal(which: Id)
    | OnAsync
    | OnIdle
    | OnConnection(errcode: int, acceptCode: int)
    | OnRecv(message: Delivery, errcode: int)
    | OnClose(which: Id)

  /** The loop calls back only on open handles, or on closing ones to settle them. At most one client is
      connected at a time. */
  predicate Enabled(s: State, e: Event)
  {
    && !s.exited
    && match e
       case OnSignal(w) => (w == Sigterm || w == Sigint) && PhaseOf(s.loop, w) == Open
       case OnAsync => PhaseOf(s.loop, Async) == Open && s.loop.pending
       case OnIdle => PhaseOf(s.loop, Idle) == Open
       case OnConnection(_, _) =>
         PhaseOf(s.loop, Socket) == Open &&
           (s.terminate == NOTSET ==> PhaseOf(s.loop, Peer) != Open && PhaseOf(s.loop, Peer) != Closing)
       case OnRecv(_, _) => PhaseOf(s.loop, Peer) == Open
       case OnClose(h) => PhaseOf(s.loop, h) == Closing
  }

  function Exit(s: State): State {
    s.(exited := true)
  }

  function CloseHandle(s: State, h: Id): State
  {
    s.(loop := UvClose(s.loop, h))
  }

  /** client_on_accept */
  function OnAccept(s: State, errcode: int): State
  {
    if errcode != 0 then Exit(s)
    else
      var t := s.(active := true);
      if t.terminate != NOTSET then CloseHandle(t, Peer) else t
  }

  /** One callback. */
  function Step(s: State, e: Event): (r: State)
  {
    match e
    case OnSignal(_) => if s.terminate != NOTSET then s else s.(loop := AsyncSend(s.loop))
    case OnAsync => CloseHandle(s.(loop := s.loop.(pending := false), terminate := CLIENT), Async)
    case OnIdle =>
      if !s.active && s.terminate == CLIENT then s.(terminate := SERVER)
      else if s.terminate == SERVER then CloseHandle(CloseHandle(s, Idle), Socket)
      else s
    case OnConnection(errcode, acceptCode) =>
      if errcode != 0 then Exit(s)
      else if s.terminate != NOTSET then s
      else OnAccept(s.(loop := Started(s.loop, Peer)), acceptCode)
    case OnRecv(message, errcode) =>
      if errcode != 0 then Exit(s)
      else if message.End? then CloseHandle(s, Peer)
      else
        var t := s.(printed := s.printed + [message.msg]);
        if t.terminate != NOTSET then CloseHandle(t, Peer) else t
    case OnClose(h) =>
      var t := s.(loop := Settled(s.loop, h));
      if h == Socket then CloseHandle(CloseHandle(t, Sigterm), Sigint)
      else if h == Peer then t.(active := false)
      else t
  }

  predicate Possible(s: State, es: seq<Event>)
    decreases es
  {
    es == [] || (Enabled(s, es[0]) && Possible(Step(s, es[0]), es[1..]))
  }

  function Run(s: State, es: seq<Event>): (r: State)
    decreases es
  {
    if es == [] then s else Run(Step(s, es[0]), es[1..])
  }

  /** After server_init, client_init and the bind. */
  function Initial(): (s: State)
  {
    State(Ready(), NOTSET, false, [], false)
  }

  predicate Up(s: State, h: Id)
  {
    PhaseOf(s.loop, h) == Open
  }

  /** The five handles of the server itself. */
  predicate Once(l: Loop) {
    Single(l.handles.async) && Single(l.handles.sigterm) && Single(l.handles.sigint) && Single(l.handles.idle) &&
      Single(l.handles.socket)
  }

  /** What every callback keeps. */
  predicate Inv(s: State) {
    && s.loop.faults == 0 && Once(s.loop)
    && s.loop.handles.peer.opens == s.loop.handles.peer.closes + (if Up(s, Peer) then 1 else 0)
    && (!s.exited ==> (s.active <==> PhaseOf(s.loop, Peer) == Open || PhaseOf(s.loop, Peer) == Closing))
    && (s.terminate == NOTSET <==> Up(s, Async))
    && (Up(s, Idle) <==> Up(s, Socket))
    && (s.terminate != SERVER ==> Up(s, Idle))
    && (s.terminate == SERVER ==> !s.active)
    && (Up(s, Sigterm) <==> PhaseOf(s.loop, Socket) != Closed)
    && (Up(s, Sigint) <==> PhaseOf(s.loop, Socket) != Closed)
  }

  function Rank(t: Terminate): nat {
    match t case NOTSET => 0 case CLIENT => 1 case SERVER => 2
  }

  /** The invariant is kept; the phase stays or goes on by one. */
  predicate Kept(s: State, t: State) {
    Inv(t) && Rank(s.terminate) <= Rank(t.terminate) <= Rank(s.terminate) + 1
  }

  lemma {:induction false} InitialInv()
    ensures Inv(Initial()) && !Initial().exited
  {
    ReadyIs();
    hide Ready;
  }

  lemma {:induction false} CloseInv(s: State, h: Id)
    requires Inv(s) && Enabled(s, OnClose(h))
    ensures Kept(s, Step(s, OnClose(h)))
  {
  }

  lemma {:induction false} PeerInv(s: State, e: Event)
    requires Inv(s) && Enabled(s, e) && (e.OnConnection? || e.OnRecv?)
    ensures Kept(s, Step(s, e))
  {
  }

  lemma {:induction false} ControlInv(s: State, e: Event)
    requires Inv(s) && Enabled(s, e) && (e.OnSignal? || e.OnAsync? || e.OnIdle?)
    ensures Kept(s, Step(s, e))
  {
  }

  lemma {:induction false} StepInv(s: State, e: Event)
    requires Inv(s) && Enabled(s, e)
    ensures Kept(s, Step(s, e))
  {
    hide Inv, Kept, Step, Enabled;
    match e
    case OnClose(h) => CloseInv(s, h);
    case OnConnection(_, _) => PeerInv(s, e);
    case OnRecv(_, _) => PeerInv(s, e);
    case _ => ControlInv(s, e);
  }

  /** Over every interleaving: the invariant holds at the end, and the phase has not gone back. */
  lemma {:induction false} RunInv(s: State, es: seq<Event>)
    requires Inv(s) && Possible(s, es)
    ensures Inv(Run(s, es)) && Rank(s.terminate) <= Rank(Run(s, es).terminate)
    decreases es
  {
    if es != [] {
      StepInv(s, es[0]);
      assert Inv(Step(s, es[0]));
      hide Inv, Step, Enabled;
      RunInv(Step(s, es[0]), es[1..]);
    }
  }

  lemma {:induction false} RunSplit(s: State, es: seq<Event>, k: nat)
    requires Possible(s, es) && k <= |es|
    ensures Possible(s, es[..k]) && Possible(Run(s, es[..k]), es[k..]) && Run(s, es) == Run(Run(s, es[..k]), es[k..])
    decreases k
  {
    if k > 0 {
      RunSplit(Step(s, es[0]), es[1..], k - 1);
      hide Step, Enabled;
      assert es[..k][1..] == es[1..][..k - 1] && es[1..][k - 1..] == es[k..];
    } else {
      assert es[..0] == [] && es[0..] == es;
    }
  }

  /** Between any two moments of a run the phase only moves NOTSET, CLIENT, SERVER. */
  lemma {:induction false} PhaseMonotone(es: seq<Event>, i: nat, j: nat)
    requires i <= j <= |es| && Possible(Initial(), es)
    ensures Rank(Run(Initial(), es[..i]).terminate) <= Rank(Run(Initial(), es[..j]).terminate)
  {
    InitialInv();
    RunSplit(Initial(), es, j);
    RunSplit(Initial(), es[..j], i);
    assert es[..j][..i] == es[..i];
    hide Initial, Inv;
    RunInv(Initial(), es[..i]);
    RunInv(Run(Initial(), es[..i]), es[..j][i..]);
  }

  /** In every reachable state: no call that libuv does not allow was made, so the async handle was
      signalled only while open; no handle was closed twice; and phase SERVER finds no active client. */
  lemma {:induction false} Shutdown(es: seq<Event>)
    requires Possible(Initial(), es)
    ensures var s := Run(Initial(), es);
      && s.loop.faults == 0
      && (forall h: Id :: h != Peer ==> s.loop.handles.Get(h).closes <= 1)
      && s.loop.handles.peer.closes <= s.loop.handles.peer.opens
      && (s.terminate == SERVER ==> !s.active)
  {
    InitialInv();
    var s := Run(Initial(), es);
    hide Initial, Run, Possible;
    RunInv(Initial(), es);
    assert Once(s.loop);
  }

  /** If the loop drains, every handle was closed exactly once, and as often as it was opened. */
  lemma {:induction false} DrainedOnce(es: seq<Event>)
    requires Possible(Initial(), es) && !Alive(Run(Initial(), es).loop)
    ensures var s := Run(Initial(), es);
      && s.terminate == SERVER
      && (forall h: Id :: s.loop.handles.Get(h).closes == s.loop.handles.Get(h).opens)
      && (forall h: Id :: h != Peer ==> s.loop.handles.Get(h).closes == 1)
  {
    InitialInv();
    var s := Run(Initial(), es);
    hide Initial, Run, Possible;
    RunInv(Initial(), es);
    DrainedState(s);
  }

  lemma {:induction false} DrainedState(s: State)
    requires Inv(s) && !Alive(s.loop)
    ensures s.terminate == SERVER
    ensures forall h: Id :: s.loop.handles.Get(h).closes == s.loop.handles.Get(h).opens
    ensures forall h: Id :: h != Peer ==> s.loop.handles.Get(h).closes == 1
  {
    forall h: Id ensures PhaseOf(s.loop, h) != Open && PhaseOf(s.loop, h) != Closing {
    }
    assert !Up(s, Async) && !Up(s, Idle) && !Up(s, Peer);
  }

  // The loop can always be drained

  /** How many callbacks are left at most until the loop is empty. */
  function Distance(s: State): nat
  {
    Work(s.loop, Async) + Work(s.loop, Sigterm) + Work(s.loop, Sigint) + Work(s.loop, Idle) + Work(s.loop, Socket)
    + Work(s.loop, Peer) + (2 - Rank(s.terminate)) + (if s.terminate == NOTSET && !s.loop.pending then 1 else 0)
  }

  /** A callback that brings the end nearer. */
  function Next(s: State): Event
  {
    if s.terminate == NOTSET then (if s.loop.pending then OnAsync else OnSignal(Sigterm))
    else if Up(s, Peer) then OnRecv(End, 0)
    else if PhaseOf(s.loop, Peer) == Closing then OnClose(Peer)
    else if Up(s, Idle) then OnIdle
    else if PhaseOf(s.loop, Socket) == Closing then OnClose(Socket)
    else if PhaseOf(s.loop, Idle) == Closing then OnClose(Idle)
    else if PhaseOf(s.loop, Async) == Closing then OnClose(Async)
    else if PhaseOf(s.loop, Sigterm) == Closing then OnClose(Sigterm)
    else OnClose(Sigint)
  }

  lemma {:induction false} NextServed(s: State)
    requires Inv(s) && !s.exited && (s.terminate == NOTSET || Up(s, Peer) || PhaseOf(s.loop, Peer) == Closing)
    ensures Enabled(s, Next(s)) && !Step(s, Next(s)).exited && Distance(Step(s, Next(s))) < Distance(s)
  {
  }

  /** Once the idle handle is closed, every live handle is closing, or waits for the listening socket. */
  lemma {:induction false} SomeClosing(s: State)
    requires Inv(s) && s.terminate != NOTSET && !Up(s, Idle) && Alive(s.loop) && !Up(s, Peer)
    ensures exists h: Id :: PhaseOf(s.loop, h) == Closing
  {
    var h: Id :| PhaseOf(s.loop, h) == Open || PhaseOf(s.loop, h) == Closing;
    if PhaseOf(s.loop, h) == Open {
      assert PhaseOf(s.loop, Socket) == Closing;
    }
  }

  lemma {:induction false} NextIdle(s: State)
    requires Inv(s) && !s.exited && s.terminate != NOTSET && Up(s, Idle) && !s.active
    ensures Enabled(s, OnIdle) && !Step(s, OnIdle).exited && Distance(Step(s, OnIdle)) < Distance(s)
  {
  }

  lemma {:induction false} NextSettle(s: State, h: Id)
    requires Inv(s) && !s.exited && PhaseOf(s.loop, h) == Closing
    ensures Enabled(s, OnClose(h)) && !Step(s, OnClose(h)).exited && Distance(Step(s, OnClose(h))) < Distance(s)
  {
  }

  lemma {:induction false} NextStopped(s: State)
    requires Inv(s) && !s.exited && Alive(s.loop)
    requires s.terminate != NOTSET && !Up(s, Peer) && PhaseOf(s.loop, Peer) != Closing
    ensures Enabled(s, Next(s)) && !Step(s, Next(s)).exited && Distance(Step(s, Next(s))) < Distance(s)
  {
    assert !s.active;
    hide Inv, Enabled, Step, Distance, Alive;
    if Up(s, Idle) {
      NextIdle(s);
    } else {
      SomeClosing(s);
      NextSettle(s, Next(s).which);
    }
  }

  lemma {:induction false} NextNearer(s: State)
    requires Inv(s) && !s.exited && Alive(s.loop)
    ensures Enabled(s, Next(s)) && !Step(s, Next(s)).exited && Distance(Step(s, Next(s))) < Distance(s)
  {
    hide Inv, Enabled, Next, Step, Distance, Alive;
    if s.terminate == NOTSET || Up(s, Peer) || PhaseOf(s.loop, Peer) == Closing {
      NextServed(s);
    } else {
      NextStopped(s);
    }
  }

  /** From every reachable state of a run that was not ended by an error, some continuation drains the loop. */
  lemma {:induction false} CanDrain(s: State) returns (es: seq<Event>)
    requires Inv(s) && !s.exited
    ensures Possible(s, es) && !Alive(Run(s, es).loop) && !Run(s, es).exited && |es| <= Distance(s)
    decreases Distance(s)
  {
    if Alive(s.loop) {
      NextNearer(s);
      StepInv(s, Next(s));
      hide Inv, Step, Enabled, Next, Distance;
      var rest := CanDrain(Step(s, Next(s)));
      es := [Next(s)] + rest;
      assert es[1..] == rest;
    } else {
      es := [];
    }
  }

  /** So no run that met no error can get stuck: whatever has happened, the loop can still drain. */
  lemma {:induction false} AlwaysDrainable(es: seq<Event>) returns (more: seq<Event>)
    requires Possible(Initial(), es) && !Run(Initial(), es).exited
    ensures var s := Run(Initial(), es); Possible(s, more) && !Alive(Run(s, more).loop) && !Run(s, more).exited
  {
    InitialInv();
    hide Initial;
    RunInv(Initial(), es);
    more := CanDrain(Run(Initial(), es));
  }
}
