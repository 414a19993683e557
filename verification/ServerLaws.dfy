/** What the server has done after a run, told by the list of events alone. */
module ServerLaws {
  import opened Frames
  import opened UvLoop
  import opened Counting
  import opened ServerSteps

  /** The events before the wake-up that ends the service. */
  function Prelude(es: seq<Event>): (r: seq<Event>)
    ensures |r| <= |es|
  {
    if es == [] || es[0] == OnAsync then [] else [es[0]] + Prelude(es[1..])
  }

  /** The events from that wake-up on. */
  function Sequel(es: seq<Event>): seq<Event> {
    es[|Prelude(es)|..]
  }

  predicate Connects(e: Event) {
    e.OnConnection? && e.errcode == 0
  }

  predicate Ends(e: Event) {
    e.OnRecv? && e.message.End? && e.errcode == 0
  }

  predicate Speaks(e: Event) {
    e.OnRecv? && e.message.Text? && e.errcode == 0
  }

  predicate Leaves(e: Event) {
    e == OnClose(Peer)
  }

  predicate Signals(e: Event) {
    e.OnSignal?
  }

  /** The messages that were received without an error. */
  function Received(es: seq<Event>): seq<Msg> {
    if es == [] then []
    else
      var e := es[|es| - 1];
      Received(es[..|es| - 1]) + if Speaks(e) then [e.message.msg] else []
  }

  /** No client is there: whoever was accepted has been settled. */
  predicate Alone(es: seq<Event>) {
    Count(es, Leaves) == Count(Prelude(es), Connects)
  }

  /** An idle callback after the wake-up that finds no client. */
  ghost predicate HandedOver(es: seq<Event>) {
    exists k {:trigger es[k]} :: 0 <= k < |es| && es[k] == OnIdle && OnAsync in es[..k] && Alone(es[..k])
  }

  /** And another one after that. */
  ghost predicate Stopped(es: seq<Event>) {
    exists k {:trigger es[k]} :: 0 <= k < |es| && es[k] == OnIdle && HandedOver(es[..k])
  }

  /** The connections: all that are made before the wake-up are accepted, and none after it. A stream is
      closed at its end, and after the wake-up at its next message; every message is printed. */
  ghost predicate Served(es: seq<Event>, s: State) {
    && s.loop.handles.peer.opens == Count(Prelude(es), Connects)
    && s.loop.handles.peer.closes == Count(es, Ends) + Count(Sequel(es), Speaks)
    && s.printed == Received(es)
    && (!s.exited ==> Count(Prelude(es), Connects) == Count(es, Leaves) + if s.active then 1 else 0)
  }

  /** The phases, and the closing of the server's own handles. */
  ghost predicate Phased(es: seq<Event>, s: State) {
    && (s.terminate != NOTSET <==> OnAsync in es)
    && (s.loop.pending <==> OnAsync !in es && Count(es, Signals) > 0)
    && (s.terminate == SERVER <==> HandedOver(es))
    && (!Up(s, Socket) <==> Stopped(es))
    && (!Up(s, Idle) <==> Stopped(es))
    && (!Up(s, Sigterm) <==> OnClose(Socket) in es)
    && (!Up(s, Sigint) <==> OnClose(Socket) in es)
  }

  predicate Fails(e: Event) {
    (e.OnConnection? || e.OnRecv?) && e.errcode != 0
  }

  predicate Unaccepted(e: Event) {
    e.OnConnection? && e.acceptCode != 0
  }

  /** The calls of fatal: an error is reported, or one comes of the accept call before the wake-up. */
  ghost predicate Failed(es: seq<Event>) {
    (exists e :: e in es && Fails(e)) || (exists e :: e in Prelude(es) && Unaccepted(e))
  }

  lemma {:induction false} PreludeAll(es: seq<Event>)
    ensures OnAsync !in es ==> Prelude(es) == es && Sequel(es) == []
  {
    if es != [] {
      PreludeAll(es[1..]);
      assert es == [es[0]] + es[1..];
    }
  }

  lemma {:induction false} PreludeSnoc(es: seq<Event>, e: Event)
    ensures Prelude(es + [e]) == if OnAsync in es || e == OnAsync then Prelude(es) else es + [e]
    ensures OnAsync in es ==> Sequel(es + [e]) == Sequel(es) + [e]
  {
    if OnAsync in es {
      assert (es + [e])[1..] == es[1..] + [e];
      if es[0] != OnAsync {
        assert es == [es[0]] + es[1..];
        PreludeSnoc(es[1..], e);
      }
    } else {
      PreludeAll(es + [e]);
      PreludeAll(es);
      if e == OnAsync {
        PreludeStops(es);
      }
    }
  }

  lemma {:induction false} PreludeStops(es: seq<Event>)
    requires OnAsync !in es
    ensures Prelude(es + [OnAsync]) == es
  {
    if es != [] {
      assert (es + [OnAsync])[1..] == es[1..] + [OnAsync];
      PreludeStops(es[1..]);
    }
  }

  lemma {:induction false} ReceivedSnoc(es: seq<Event>, e: Event)
    ensures Received(es + [e]) == Received(es) + if Speaks(e) then [e.message.msg] else []
  {
    assert (es + [e])[..|es|] == es;
  }

  /** One more event in every count of Served. */
  lemma {:induction false} CountsSnoc(es: seq<Event>, e: Event)
    ensures var es' := es + [e];
      && Count(es', Ends) == Count(es, Ends) + (if Ends(e) then 1 else 0)
      && Count(es', Leaves) == Count(es, Leaves) + (if Leaves(e) then 1 else 0)
      && Count(es', Signals) == Count(es, Signals) + (if Signals(e) then 1 else 0)
      && Count(Prelude(es'), Connects) == Count(Prelude(es), Connects) +
        (if OnAsync !in es && Connects(e) then 1 else 0)
      && Count(Sequel(es'), Speaks) == Count(Sequel(es), Speaks) + (if OnAsync in es && Speaks(e) then 1 else 0)
  {
    CountSnoc(es, e, Ends);
    CountSnoc(es, e, Leaves);
    CountSnoc(es, e, Signals);
    CountSnoc(es, e, Connects);
    CountSnoc(Sequel(es), e, Speaks);
    PreludeSnoc(es, e);
    PreludeAll(es);
    PreludeAll(es + [e]);
  }

  /** The service as numbers: what one callback does to them. */
  lemma {:induction false} PeerStep(s: State, e: Event)
    requires Inv(s) && Enabled(s, e)
    ensures var t := Step(s, e);
      var x, y := s.loop.handles.peer, t.loop.handles.peer;
      && y.opens == x.opens + (if s.terminate == NOTSET && Connects(e) then 1 else 0)
      && y.closes == x.closes + (if Ends(e) || (s.terminate != NOTSET && Speaks(e)) then 1 else 0)
      && t.printed == s.printed + (if Speaks(e) then [e.message.msg] else [])
      && (!t.exited && s.terminate == NOTSET && Connects(e) ==> !s.active && t.active)
      && (!t.exited && Leaves(e) ==> s.active && !t.active)
      && (!t.exited && !(s.terminate == NOTSET && Connects(e)) && !Leaves(e) ==> t.active == s.active)
  {
    hide Once, Started;
    match e
    case OnConnection(_, _) => PeerStarts(s);
    case _ =>
  }

  lemma {:induction false} PeerStarts(s: State)
    ensures var x := s.loop.handles.peer;
      x.phase != Open && x.phase != Closing ==>
        Started(s.loop, Peer) == s.loop.(handles := s.loop.handles.(peer := Handle(Open, x.opens + 1, x.closes)))
  {
  }

  lemma {:induction false} ServedStep(es: seq<Event>, s: State, e: Event)
    requires Inv(s) && Enabled(s, e) && Served(es, s) && Phased(es, s)
    ensures Served(es + [e], Step(s, e))
  {
    hide Count, Prelude, Sequel, Received, Inv, Enabled, Step, HandedOver, Stopped;
    assert !s.exited by { StillRunning(s, e); }
    assert s.terminate != NOTSET <==> OnAsync in es;
    hide Phased;
    CountsSnoc(es, e);
    ReceivedSnoc(es, e);
    PeerStep(s, e);
    assert !(Ends(e) && Speaks(e));
    hide Ends, Speaks, Connects, Leaves;
  }

  lemma {:induction false} StillRunning(s: State, e: Event)
    requires Enabled(s, e)
    ensures !s.exited
  {
  }

  lemma {:induction false} HandedOverSnoc(es: seq<Event>, e: Event)
    ensures HandedOver(es + [e]) <==> HandedOver(es) || (e == OnIdle && OnAsync in es && Alone(es))
  {
    var es' := es + [e];
    assert forall k :: 0 <= k <= |es| ==> es'[..k] == es[..k];
    assert es[..|es|] == es && es'[|es|] == e;
    assert forall k :: 0 <= k < |es| ==> es'[k] == es[k];
    hide Alone;
  }

  lemma {:induction false} StoppedSnoc(es: seq<Event>, e: Event)
    ensures Stopped(es + [e]) <==> Stopped(es) || (e == OnIdle && HandedOver(es))
  {
    var es' := es + [e];
    assert forall k :: 0 <= k <= |es| ==> es'[..k] == es[..k];
    assert es[..|es|] == es && es'[|es|] == e;
    assert forall k :: 0 <= k < |es| ==> es'[k] == es[k];
    hide HandedOver;
  }

  /** What one callback does to the phase and to the server's own handles. */
  lemma {:induction false} ControlStep(s: State, e: Event)
    requires Inv(s) && Enabled(s, e)
    ensures var t := Step(s, e);
      && (t.terminate != NOTSET <==> s.terminate != NOTSET || e == OnAsync)
      && (t.loop.pending <==> e != OnAsync && (s.loop.pending || (s.terminate == NOTSET && Signals(e))))
      && (t.terminate == SERVER <==> s.terminate == SERVER || (e == OnIdle && s.terminate != NOTSET && !s.active))
      && (Up(t, Socket) <==> Up(s, Socket) && !(e == OnIdle && s.terminate == SERVER))
      && (Up(t, Idle) <==> Up(s, Idle) && !(e == OnIdle && s.terminate == SERVER))
      && (Up(t, Sigterm) <==> Up(s, Sigterm) && e != OnClose(Socket))
      && (Up(t, Sigint) <==> Up(s, Sigint) && e != OnClose(Socket))
  {
    hide Once;
  }

  lemma {:induction false} PhasedStep(es: seq<Event>, s: State, e: Event)
    requires Inv(s) && Enabled(s, e) && Served(es, s) && Phased(es, s)
    ensures Phased(es + [e], Step(s, e))
  {
    hide Count, Prelude, Sequel, Received, Inv, Enabled, Step, HandedOver, Stopped, Up;
    StillRunning(s, e);
    assert Alone(es) <==> !s.active;
    CountSnoc(es, e, Signals);
    HandedOverSnoc(es, e);
    StoppedSnoc(es, e);
    ControlStep(s, e);
    hide Served, Alone, Signals;
    assert forall x :: x in es + [e] <==> x in es || x == e;
  }

  lemma {:induction false} FailedStep(es: seq<Event>, s: State, e: Event)
    requires Enabled(s, e) && Phased(es, s) && !Failed(es)
    ensures Step(s, e).exited <==> Failed(es + [e])
  {
    assert s.terminate != NOTSET <==> OnAsync in es;
    hide Phased;
    PreludeSnoc(es, e);
    PreludeAll(es);
    assert e in es + [e];
    assert Step(s, e).exited <==> Fails(e) || (OnAsync !in es && Unaccepted(e));
    hide Step, Enabled, Prelude, Fails, Unaccepted;
  }

  lemma {:induction false} RunSnoc(s: State, es: seq<Event>, e: Event)
    requires Possible(s, es + [e])
    ensures Possible(s, es) && Enabled(Run(s, es), e) && Run(s, es + [e]) == Step(Run(s, es), e)
  {
    RunSplit(s, es + [e], |es|);
    assert (es + [e])[..|es|] == es && (es + [e])[|es|..] == [e];
    hide Step, Enabled;
    assert [e][1..] == [];
  }

  lemma {:induction false} AtFirst(s: State)
    requires s == Initial()
    ensures Inv(s) && Served([], s) && Phased([], s) && !s.exited && !Failed([])
  {
    InitialInv();
    ReadyIs();
    hide Ready, Inv;
    assert Prelude([]) == [] && Sequel([]) == [] && Received([]) == [];
  }

  /** Every possible run of the server, by the list of its events: who was accepted and let go, what was
      printed, how far the shutdown is, and whether an error has ended the program. */
  lemma {:induction false} Account(es: seq<Event>)
    requires Possible(Initial(), es)
    ensures var s := Run(Initial(), es);
      Inv(s) && Served(es, s) && Phased(es, s) && (s.exited <==> Failed(es))
    decreases |es|
  {
    var s0 := Initial();
    AtFirst(s0);
    hide Initial, Inv, Served, Phased, Failed, Enabled, Step;
    if es != [] {
      var before, e := es[..|es| - 1], es[|es| - 1];
      assert es == before + [e];
      RunSnoc(s0, before, e);
      Account(before);
      var s := Run(s0, before);
      hide Run, Possible;
      StepKept(s, e);
      ServedStep(before, s, e);
      PhasedStep(before, s, e);
      StillRunning(s, e);
      FailedStep(before, s, e);
    }
  }

  lemma {:induction false} StepKept(s: State, e: Event)
    requires Inv(s) && Enabled(s, e)
    ensures Inv(Step(s, e))
  {
    hide Inv, Step, Enabled;
    StepInv(s, e);
  }
}
