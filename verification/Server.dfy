/** struct server of test/server.c: its callbacks, run by the event loop in any order that the loop allows. */
module Server {
  import opened Frames
  import opened UvLoop
  import opened ServerSteps
  import opened ServerLaws

  /** struct server, with struct client inside; `exited` stands for a call to fatal. */
  class Program {
    const loop: EventLoop
    var terminate: Terminate
    var active: bool
    var printed: seq<Msg>
    var exited: bool

    function Now(): State
      reads this, loop
    {
      State(loop.State(), terminate, active, printed, exited)
    }

    /** server_init, client_init and the bind that opens the listening stream. */
    constructor ()
      ensures Now() == Initial() && fresh(loop)
    {
      loop := new EventLoop();
      terminate, active, printed, exited := NOTSET, false, [], false;
      new;
      InitHandles(loop);
    }

    /** server_on_connection, down through buv_accept. */
    method ServerOnConnection(errcode: int, acceptCode: int)
      modifies this, loop
      ensures Now() == Step(old(Now()), OnConnection(errcode, acceptCode))
    {
      if errcode != 0 {
        exited := true;
        return;
      }
      if terminate != NOTSET {
        return;
      }
      loop.Init(Peer);
      ClientOnAccept(acceptCode);
    }

    /** client_on_accept */
    method ClientOnAccept(errcode: int)
      modifies this, loop
      ensures Now() == OnAccept(old(Now()), errcode)
    {
      if errcode != 0 {
        exited := true;
        return;
      }
      active := true;
      if terminate != NOTSET {
        loop.Close(Peer);
      }
    }

    /** print_msg, which gives the message to the output file. */
    method PrintMsg(m: Msg)
      modifies this`printed
      ensures printed == old(printed) + [m]
    {
      printed := printed + [m];
    }

    /** client_on_recv */
    method ClientOnRecv(message: Delivery, errcode: int)
      modifies this, loop
      ensures Now() == Step(old(Now()), OnRecv(message, errcode))
    {
      if errcode != 0 {
        exited := true;
        return;
      }
      if message.End? {
        loop.Close(Peer);
        return;
      }
      PrintMsg(message.msg);
      if terminate != NOTSET {
        loop.Close(Peer);
      }
    }

    /** async_cb */
    method AsyncCb()
      modifies this, loop
      ensures Now() == Step(old(Now()), OnAsync)
    {
      loop.Wake();
      terminate := CLIENT;
      loop.Close(Async);
    }

    /** signal_cb */
    method SignalCb(which: Id)
      modifies loop
      ensures Now() == Step(old(Now()), OnSignal(which))
    {
      if terminate != NOTSET {
        return;
      }
      loop.Send();
    }

    /** idle_cb */
    method IdleCb()
      modifies this, loop
      ensures Now() == Step(old(Now()), OnIdle)
    {
      if !active && terminate == CLIENT {
        terminate := SERVER;
      } else if terminate == SERVER {
        loop.Close(Idle);
        loop.Close(Socket);
      }
    }

    /** What runs when a handle has been closed: server_on_close, client_on_close, or nothing. */
    method CloseCb(h: Id)
      modifies this, loop
      ensures Now() == Step(old(Now()), OnClose(h))
    {
      loop.Settle(h);
      if h == Socket {
        loop.Close(Sigterm);
        loop.Close(Sigint);
      } else if h == Peer {
        active := false;
      }
    }

    method Dispatch(e: Event)
      modifies this, loop
      ensures Now() == Step(old(Now()), e)
    {
      match e {
        case OnSignal(w) => SignalCb(w);
        case OnAsync => AsyncCb();
        case OnIdle => IdleCb();
        case OnConnection(errcode, acceptCode) => ServerOnConnection(errcode, acceptCode);
        case OnRecv(message, errcode) => ClientOnRecv(message, errcode);
        case OnClose(h) => CloseCb(h);
      }
    }

    /** uv_run: any callbacks that the loop may make, one after the other. */
    method UvRun(es: seq<Event>)
      requires Possible(Now(), es)
      modifies this, loop
      ensures Now() == Run(old(Now()), es)
    {
      ghost var s := Now();
      hide Step, Enabled;
      assert es[0..] == es;
      for i := 0 to |es|
        invariant Possible(Now(), es[i..]) && Run(Now(), es[i..]) == Run(s, es)
      {
        assert es[i..][1..] == es[i + 1..];
        Dispatch(es[i]);
      }
    }
  }

  /** main, from the first callback to the end of the loop: the connections, the messages printed, the phases
      and the calls of fatal are those of the events; if the loop drains, every handle was closed exactly once. */
  method Serve(es: seq<Event>) returns (end: State)
    requires Possible(Initial(), es)
    ensures end == Run(Initial(), es) && end.loop.faults == 0
    ensures Served(es, end) && Phased(es, end) && (end.exited <==> Failed(es))
    ensures !Alive(end.loop) ==> end.terminate == SERVER && forall h: Id :: h != Peer ==>
      end.loop.handles.Get(h).closes == 1
  {
    hide Served, Phased, Failed;
    var program := new Program();
    program.UvRun(es);
    end := program.Now();
    Shutdown(es);
    Account(es);
    if !Alive(end.loop) {
      DrainedOnce(es);
    }
  }
}
