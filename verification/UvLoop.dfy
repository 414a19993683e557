/** The handles of one event loop, as far as the two test programs use them: a handle is opened, closed by
    uv_close, and settled later, when the loop runs its close callback. */
module UvLoop {
  datatype Id = Async | Sigterm | Sigint | Idle | Socket | Peer

  datatype Phase = Unset | Open | Closing | Closed

  datatype Handle = Handle(phase: Phase, opens: nat, closes: nat)

  datatype Handles = Handles(async: Handle, sigterm: Handle, sigint: Handle, idle: Handle, socket: Handle,
    peer: Handle) {
    function Get(h: Id): Handle {
      match h
      case Async => async
      case Sigterm => sigterm
      case Sigint => sigint
      case Idle => idle
      case Socket => socket
      case Peer => peer
    }

    function Set(h: Id, x: Handle): Handles {
      match h
      case Async => this.(async := x)
      case Sigterm => this.(sigterm := x)
      case Sigint => this.(sigint := x)
      case Idle => this.(idle := x)
      case Socket => this.(socket := x)
      case Peer => this.(peer := x)
    }
  }

  /** `pending`: uv_async_send was called and the callback has not run yet.
      `faults`: calls that libuv does not allow, such as uv_close on a handle that is not open. */
  datatype Loop = Loop(handles: Handles, pending: bool, faults: nat)

  /** A loop before any handle is initialised. */
  function Empty(): Loop {
    var u := Handle(Unset, 0, 0);
    Loop(Handles(u, u, u, u, u, u), false, 0)
  }

  function PhaseOf(l: Loop, h: Id): Phase {
    l.handles.Get(h).phase
  }

  /** The handles that keep uv_run going. */
  predicate Alive(l: Loop)
  {
    exists h: Id :: PhaseOf(l, h) == Open || PhaseOf(l, h) == Closing
  }

  /** uv_async_init and the like. */
  function Started(l: Loop, h: Id): Loop {
    var x := l.handles.Get(h);
    if x.phase == Open || x.phase == Closing then l.(faults := l.faults + 1)
    else l.(handles := l.handles.Set(h, Handle(Open, x.opens + 1, x.closes)))
  }

  /** The loop when the five handles of a program have been opened. */
  function Ready(): Loop {
    Started(Started(Started(Started(Started(Empty(), Async), Sigterm), Sigint), Idle), Socket)
  }

  lemma {:induction false} ReadyIs()
    ensures var o, u := Handle(Open, 1, 0), Handle(Unset, 0, 0);
      Ready() == Loop(Handles(o, o, o, o, o, u), false, 0)
  {
  }

  /** uv_close */
  function UvClose(l: Loop, h: Id): Loop {
    var x := l.handles.Get(h);
    if x.phase == Open then l.(handles := l.handles.Set(h, Handle(Closing, x.opens, x.closes + 1)))
    else l.(faults := l.faults + 1)
  }

  /** The loop is done with a closing handle, just before it calls back. */
  function Settled(l: Loop, h: Id): Loop {
    var x := l.handles.Get(h);
    l.(handles := l.handles.Set(h, Handle(Closed, x.opens, x.closes)))
  }

  /** uv_async_send */
  function AsyncSend(l: Loop): Loop {
    if PhaseOf(l, Async) == Open then l.(pending := true) else l.(faults := l.faults + 1)
  }

  /** Opened once, and closed once it is no longer open. */
  predicate Single(x: Handle) {
    x.phase != Unset && x.opens == 1 && x.closes == if x.phase == Open then 0 else 1
  }

  /** How many callbacks a handle needs until it is settled. */
  function Work(l: Loop, h: Id): nat {
    match PhaseOf(l, h) case Open => 2 case Closing => 1 case _ => 0
  }

  /** The loop as an object that the callbacks act on. */
  class EventLoop {
    var handles: Handles
    var pending: bool
    var faults: nat

    constructor ()
      ensures State() == Empty()
    {
      handles, pending, faults := Empty().handles, false, 0;
    }

    function State(): Loop
      reads this
    {
      Loop(handles, pending, faults)
    }

    method Init(h: Id)
      modifies this
      ensures State() == Started(old(State()), h)
    {
      var x := handles.Get(h);
      if x.phase == Open || x.phase == Closing {
        faults := faults + 1;
      } else {
        handles := handles.Set(h, Handle(Open, x.opens + 1, x.closes));
      }
    }

    method Close(h: Id)
      modifies this
      ensures State() == UvClose(old(State()), h)
    {
      var x := handles.Get(h);
      if x.phase == Open {
        handles := handles.Set(h, Handle(Closing, x.opens, x.closes + 1));
      } else {
        faults := faults + 1;
      }
    }

    method Settle(h: Id)
      modifies this
      ensures State() == Settled(old(State()), h)
    {
      var x := handles.Get(h);
      handles := handles.Set(h, Handle(Closed, x.opens, x.closes));
    }

    method Send()
      modifies this
      ensures State() == AsyncSend(old(State()))
    {
      if handles.async.phase == Open {
        pending := true;
      } else {
        faults := faults + 1;
      }
    }

    /** The wake-up is taken, just before the async callback runs. */
    method Wake()
      modifies this`pending
      ensures !pending
    {
      pending := false;
    }
  }

  /** async_init, the two calls of signal_init, idle_init, and the stream of the socket. */
  method InitHandles(loop: EventLoop)
    requires loop.State() == Empty()
    modifies loop
    ensures loop.State() == Ready()
  {
    hide Started, Empty;
    loop.Init(Async);
    loop.Init(Sigterm);
    loop.Init(Sigint);
    loop.Init(Idle);
    loop.Init(Socket);
  }
}
