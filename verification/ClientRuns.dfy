/** What holds over every run of the client: stop and wait, the payloads, the shutdown, and which inputs
    let the client end by itself. */
module ClientRuns {
  import opened Endian
  import opened Stdio
  import opened UvLoop
  import opened ClientSteps

  /** In every reachable state: no call that libuv does not allow was made, so the one write request was
      never used while in flight; ready to send means that nothing is in flight; no handle is closed twice. */
  lemma {:induction false} StopAndWait(text: seq<Byte>, es: seq<Event>)
    requires Possible(Initial(text), es)
    ensures var s := Run(Initial(text), es);
      && s.loop.faults == 0
      && (!s.exited ==> (s.ready <==> !s.connecting && !s.writing))
      && s.acked <= |s.sent| <= s.acked + 1
      && (forall h: Id :: s.loop.handles.Get(h).closes <= 1)
      && PhaseOf(s.loop, Peer) == Unset
  {
    InitialInv(text);
    var s := Run(Initial(text), es);
    hide Initial, Run, Possible, InOrder;
    RunInv(text, Initial(text), es);
  }

  // The payloads

  lemma {:induction false} ConcatPrefix(ps: seq<seq<Byte>>, qs: seq<seq<Byte>>)
    requires ps <= qs
    ensures Concat(ps) <= Concat(qs)
  {
    if ps != [] {
      ConcatPrefix(ps[1..], qs[1..]);
    }
  }

  /** Payloads are whole pieces exactly for an input without NUL bytes. */
  lemma {:induction false} PayloadsWhole(t: seq<Byte>)
    ensures Payloads(Pieces(t)) == Pieces(t) <==> 0 !in t
  {
    if t != [] {
      var p, r := Piece(t), Remainder(t);
      PayloadsCons(t);
      PayloadsWhole(r);
      PayloadIs(p);
      assert p + r == t;
      NulIn(p, r);
      assert Pieces(t) == [p] + Pieces(r);
      HeadTail(Payload(p), Payloads(Pieces(r)), p, Pieces(r));
    }
  }

  lemma {:induction false} NulIn(p: seq<Byte>, r: seq<Byte>)
    ensures 0 in p + r <==> 0 in p || 0 in r
  {
  }

  lemma {:induction false} HeadTail(a: seq<Byte>, as_: seq<seq<Byte>>, b: seq<Byte>, bs: seq<seq<Byte>>)
    ensures [a] + as_ == [b] + bs <==> a == b && as_ == bs
  {
    if [a] + as_ == [b] + bs {
      assert ([a] + as_)[0] == ([b] + bs)[0] && ([a] + as_)[1..] == ([b] + bs)[1..];
    }
  }

  /** The payloads sent are, in order, those of the first pieces of the input. Without NUL bytes they are
      the pieces themselves, and together a prefix of the input. */
  lemma {:induction false} SentInOrder(text: seq<Byte>, es: seq<Event>)
    requires Possible(Initial(text), es)
    ensures var sent := Run(Initial(text), es).sent;
      && sent <= Payloads(Pieces(text))
      && (0 !in text ==> sent <= Pieces(text) && Concat(sent) <= text)
  {
    InitialInv(text);
    var s := Run(Initial(text), es);
    hide Initial, Run, Possible;
    RunInv(text, Initial(text), es);
    assert InOrder(text, s);
    if 0 !in text {
      PayloadsWhole(text);
      ConcatPrefix(s.sent, Pieces(text));
      PiecesConcat(text);
    }
  }

  // The shutdown

  /** If the loop drains, every handle was closed exactly once, and every write was answered. */
  lemma {:induction false} DrainedOnce(text: seq<Byte>, es: seq<Event>)
    requires Possible(Initial(text), es) && !Alive(Run(Initial(text), es).loop)
    ensures var s := Run(Initial(text), es);
      && s.terminate && !s.writing && s.acked == |s.sent|
      && (forall h: Id :: h != Peer ==> s.loop.handles.Get(h).closes == 1)
  {
    InitialInv(text);
    var s := Run(Initial(text), es);
    hide Initial, Run, Possible;
    RunInv(text, Initial(text), es);
    DrainedState(text, s);
  }

  lemma {:induction false} DrainedState(text: seq<Byte>, s: State)
    requires Inv(text, s) && !Alive(s.loop)
    ensures s.terminate && !s.writing && s.acked == |s.sent|
    ensures forall h: Id :: h != Peer ==> s.loop.handles.Get(h).closes == 1
  {
    hide InOrder;
    forall h: Id ensures PhaseOf(s.loop, h) != Open && PhaseOf(s.loop, h) != Closing {
    }
    assert !Up(s, Async) && !Up(s, Idle) && PhaseOf(s.loop, Socket) == Closed;
  }

  // Ending without a signal

  predicate Quiet(es: seq<Event>) {
    forall e :: e in es ==> !e.OnSignal?
  }

  /** How the end of the input is noticed. A last line without a newline is noticed while it is read, and
      then nothing wakes the async handle. */
  predicate Ending(text: seq<Byte>, s: State) {
    && (s.rest != [] ==> (EndsOpen(s.rest) <==> EndsOpen(text)))
    && (s.rest == [] && !s.inputEof ==> !EndsOpen(text))
    && (!s.exited && s.inputEof && !EndsOpen(text) ==> s.loop.pending || s.terminate)
  }

  /** Without signals the async handle is woken only at a null from fgets. */
  predicate Unprompted(text: seq<Byte>, s: State) {
    s.loop.pending || s.terminate ==> s.inputEof && !EndsOpen(text)
  }

  lemma {:induction false} EndingStep(text: seq<Byte>, s: State, e: Event)
    requires Inv(text, s) && Enabled(s, e) && Ending(text, s)
    ensures Ending(text, Step(s, e)) || Step(s, e).exited
    ensures Unprompted(text, s) && !e.OnSignal? ==> Unprompted(text, Step(s, e)) || Step(s, e).exited
  {
    match e
    case OnIdle(readError, sendCode) =>
      if !s.terminate && !s.inputEof && s.ready {
        FeedEnding(text, s, readError, sendCode);
        hide Feed, EndsOpen;
      } else {
        hide Feed, EndsOpen;
      }
    case _ => hide Feed, EndsOpen;
  }

  lemma {:induction false} FeedEnding(text: seq<Byte>, s: State, readError: bool, sendCode: int)
    requires Inv(text, s) && Ending(text, s) && !s.exited && !s.terminate && !s.inputEof && s.ready
    ensures var t := Feed(s, readError, sendCode);
      t.exited || (Ending(text, t) && (Unprompted(text, s) ==> Unprompted(text, t)))
  {
    if !readError && s.rest != [] {
      FeedSends(s, sendCode);
      RanOutEnd(s.rest);
      hide Feed, RanOut, Line, Remainder, Piece, Payload;
      assert EndsOpen(s.rest) <==> if Remainder(s.rest) == [] then RanOut(s.rest, MSG_MAX_SIZE - 1)
        else EndsOpen(Remainder(s.rest));
    }
  }

  lemma {:induction false} EndingRun(text: seq<Byte>, s: State, es: seq<Event>)
    requires Inv(text, s) && Possible(s, es) && Ending(text, s) && !Run(s, es).exited
    ensures Ending(text, Run(s, es))
    ensures Unprompted(text, s) && Quiet(es) ==> Unprompted(text, Run(s, es))
    decreases es
  {
    if es != [] {
      hide Inv, Step, Enabled, Ending, Unprompted, EndsOpen;
      StepInv(text, s, es[0]);
      EndingStep(text, s, es[0]);
      if Step(s, es[0]).exited {
        ExitedStays(Step(s, es[0]), es[1..]);
      }
      EndingRun(text, Step(s, es[0]), es[1..]);
    }
  }

  lemma {:induction false} ExitedStays(s: State, es: seq<Event>)
    requires s.exited && Possible(s, es)
    ensures es == []
  {
    hide Step;
  }

  lemma {:induction false} InitialEnding(text: seq<Byte>)
    ensures Ending(text, Initial(text)) && Unprompted(text, Initial(text))
  {
  }

  /** Without a signal and without an error the client stops only after it has sent all of its input. */
  lemma {:induction false} QuietSendsAll(text: seq<Byte>, es: seq<Event>)
    requires Possible(Initial(text), es) && Quiet(es) && !Run(Initial(text), es).exited &&
      Run(Initial(text), es).terminate
    ensures Run(Initial(text), es).sent == Payloads(Pieces(text)) && !EndsOpen(text)
  {
    InitialInv(text);
    InitialEnding(text);
    var s := Run(Initial(text), es);
    hide Initial, Run, Possible, Ending;
    RunInv(text, Initial(text), es);
    EndingRun(text, Initial(text), es);
    assert InOrder(text, s) && s.rest == [] && Payloads(Pieces([])) == [];
    assert s.sent + [] == s.sent;
  }

  // Which runs can drain

  function Handles(l: Loop): nat {
    Work(l, Async) + Work(l, Sigterm) + Work(l, Sigint) + Work(l, Idle) + Work(l, Socket)
  }

  /** How many callbacks are left at most until the loop is empty. */
  function Distance(s: State): nat {
    Handles(s.loop) + 2 * |s.rest|
    + (if s.connecting then 1 else 0) + (if s.writing then 1 else 0)
    + (if s.terminate then 0 else if s.loop.pending then 1 else 2)
  }

  /** The loop has drained, and no error has ended the program. */
  predicate EndsWell(s: State) {
    !Alive(s.loop) && !s.exited
  }

  /** A request that is still open on a stream that is being closed can only fail. */
  predicate Doomed(s: State) {
    !Up(s, Socket) && (s.connecting || s.writing)
  }

  /** A callback that brings the end nearer; with or without the help of a signal. */
  function Next(s: State, quiet: bool): Event {
    if s.connecting then OnConnect(0)
    else if s.writing then OnSend(0)
    else if !s.terminate then (if s.loop.pending then OnAsync else if quiet then OnIdle(false, 0)
      else OnSignal(Sigterm))
    else if Up(s, Idle) then OnIdle(false, 0)
    else if PhaseOf(s.loop, Socket) == Closing then OnClose(Socket)
    else if PhaseOf(s.loop, Idle) == Closing then OnClose(Idle)
    else if PhaseOf(s.loop, Async) == Closing then OnClose(Async)
    else if PhaseOf(s.loop, Sigterm) == Closing then OnClose(Sigterm)
    else OnClose(Sigint)
  }

  /** What Next relies on. */
  predicate Drainable(text: seq<Byte>, s: State, quiet: bool) {
    Inv(text, s) && !s.exited && !Doomed(s) && (quiet ==> Ending(text, s) && !EndsOpen(text))
  }

  lemma {:induction false} NextRequest(text: seq<Byte>, s: State, quiet: bool)
    requires Drainable(text, s, quiet) && (s.connecting || s.writing)
    ensures var t := Step(s, Next(s, quiet));
      Enabled(s, Next(s, quiet)) && !t.exited && !Doomed(t) && Distance(t) < Distance(s)
  {
    hide InOrder, Ending;
  }

  lemma {:induction false} NextTerminate(text: seq<Byte>, s: State, quiet: bool)
    requires Drainable(text, s, quiet) && !s.connecting && !s.writing && !s.terminate && (s.loop.pending || !quiet)
    ensures var t := Step(s, Next(s, quiet));
      Enabled(s, Next(s, quiet)) && !t.exited && !Doomed(t) && Distance(t) < Distance(s)
  {
    hide InOrder, Ending;
  }

  lemma {:induction false} NextFeed(text: seq<Byte>, s: State)
    requires Drainable(text, s, true) && !s.connecting && !s.writing && !s.terminate && !s.loop.pending
    ensures var t := Step(s, OnIdle(false, 0));
      Enabled(s, OnIdle(false, 0)) && !t.exited && !Doomed(t) && Distance(t) < Distance(s)
  {
    if s.rest != [] {
      FeedSends(s, 0);
      hide Feed, RanOut, Line, Remainder, Piece, Payload, EndsOpen, Pieces, Payloads;
    }
  }

  lemma {:induction false} NextStop(text: seq<Byte>, s: State)
    requires Inv(text, s) && !s.exited && !s.connecting && !s.writing && s.terminate && Up(s, Idle)
    ensures var t := Step(s, OnIdle(false, 0));
      Enabled(s, OnIdle(false, 0)) && !t.exited && !Doomed(t) && Distance(t) < Distance(s)
  {
    hide InOrder, Feed;
  }

  lemma {:induction false} NextSettle(text: seq<Byte>, s: State, h: Id)
    requires Inv(text, s) && !s.exited && !s.connecting && !s.writing && PhaseOf(s.loop, h) == Closing
    ensures var t := Step(s, OnClose(h));
      Enabled(s, OnClose(h)) && !t.exited && !Doomed(t) && Distance(t) < Distance(s)
  {
    hide InOrder;
  }

  /** Once the idle handle is closed, every live handle is closing, or waits for the socket. */
  lemma {:induction false} SomeClosing(text: seq<Byte>, s: State)
    requires Inv(text, s) && s.terminate && !Up(s, Idle) && Alive(s.loop)
    ensures exists h: Id :: h != Peer && PhaseOf(s.loop, h) == Closing
  {
    hide InOrder, Waiting;
    var h: Id :| PhaseOf(s.loop, h) == Open || PhaseOf(s.loop, h) == Closing;
    if PhaseOf(s.loop, h) == Open {
      assert PhaseOf(s.loop, Socket) == Closing;
    }
  }

  lemma {:induction false} NextClose(text: seq<Byte>, s: State, quiet: bool)
    requires Drainable(text, s, quiet) && !s.connecting && !s.writing && s.terminate && Alive(s.loop)
    ensures var t := Step(s, Next(s, quiet));
      Enabled(s, Next(s, quiet)) && !t.exited && !Doomed(t) && Distance(t) < Distance(s)
  {
    if Up(s, Idle) {
      hide Inv, Step, Enabled, Doomed, Distance, Alive;
      NextStop(text, s);
    } else {
      hide Inv, Step, Enabled, Doomed, Distance, Alive;
      SomeClosing(text, s);
      var e := Next(s, quiet);
      assert e.OnClose? && PhaseOf(s.loop, e.which) == Closing;
      NextSettle(text, s, e.which);
    }
  }

  lemma {:induction false} NextNearer(text: seq<Byte>, s: State, quiet: bool)
    requires Drainable(text, s, quiet) && Alive(s.loop)
    ensures var e := Next(s, quiet);
      Enabled(s, e) && Drainable(text, Step(s, e), quiet) && Distance(Step(s, e)) < Distance(s) &&
        (quiet ==> !e.OnSignal?)
  {
    var e := Next(s, quiet);
    hide Inv, Step, Enabled, Distance, Ending, EndsOpen, Alive;
    if s.connecting || s.writing {
      NextRequest(text, s, quiet);
    } else if s.terminate {
      NextClose(text, s, quiet);
    } else if s.loop.pending || !quiet {
      NextTerminate(text, s, quiet);
    } else {
      NextFeed(text, s);
    }
    StepInv(text, s, e);
    if quiet {
      EndingStep(text, s, e);
    }
  }

  lemma {:induction false} CanDrain(text: seq<Byte>, s: State, quiet: bool) returns (es: seq<Event>)
    requires Drainable(text, s, quiet)
    ensures Possible(s, es) && !Alive(Run(s, es).loop) && !Run(s, es).exited && (quiet ==> Quiet(es))
    decreases Distance(s)
  {
    hide Drainable, Step, Enabled, Distance, Alive;
    if Alive(s.loop) {
      NextNearer(text, s, quiet);
      var e := Next(s, quiet);
      hide Next;
      var rest := CanDrain(text, Step(s, e), quiet);
      es := [e] + rest;
      assert es[1..] == rest;
      DrainableLive(text, s, quiet);
    } else {
      es := [];
      DrainableLive(text, s, quiet);
    }
  }

  lemma {:induction false} DrainableLive(text: seq<Byte>, s: State, quiet: bool)
    requires Drainable(text, s, quiet)
    ensures !s.exited
  {
  }

  /** Some run without a signal and without an error ends, if and only if the input does not end in a
      short line without a newline. */
  lemma {:induction false} EndsByItselfExactly(text: seq<Byte>)
    ensures !EndsOpen(text) <==>
      exists es :: Possible(Initial(text), es) && Quiet(es) && EndsWell(Run(Initial(text), es))
  {
    if !EndsOpen(text) {
      InitialInv(text);
      InitialEnding(text);
      hide Ending, EndsOpen, Inv;
      var es := CanDrain(text, Initial(text), true);
    }
    hide EndsOpen, Initial;
    forall es | Possible(Initial(text), es) && Quiet(es) && EndsWell(Run(Initial(text), es))
      ensures !EndsOpen(text)
    {
      DrainedOnce(text, es);
      QuietSendsAll(text, es);
    }
  }

  /** A state without an error can still drain, if and only if no request is open on a stream that is being
      closed. */
  lemma {:induction false} DrainsUnlessDoomed(text: seq<Byte>, s: State)
    requires Inv(text, s) && !s.exited
    ensures (exists es :: Possible(s, es) && EndsWell(Run(s, es))) <==> !Doomed(s)
  {
    if !Doomed(s) {
      hide Inv, Doomed;
      var es := CanDrain(text, s, false);
    } else {
      forall es | Possible(s, es) && !Run(s, es).exited
        ensures Alive(Run(s, es).loop)
      {
        DoomedStays(text, s, es);
      }
    }
  }

  /** The single letter A is such an input: no run without a signal and without an error ends. */
  lemma {:induction false} ShortLineWitness(es: seq<Event>)
    requires Possible(Initial([65]), es) && Quiet(es) && !Run(Initial([65]), es).exited
    ensures Alive(Run(Initial([65]), es).loop)
  {
    var t: seq<Byte> := [65];
    EndsByItselfExactly(t);
    EndsOpenExactly(t);
    assert t[..0] == [] && Tail([]) == 0;
    assert Tail(t) == 1;
  }

  /** So it is after every run that has met no error so far. */
  lemma {:induction false} DrainableExactly(text: seq<Byte>, es: seq<Event>)
    requires Possible(Initial(text), es) && !Run(Initial(text), es).exited
    ensures var s := Run(Initial(text), es);
      (exists more :: Possible(s, more) && EndsWell(Run(s, more))) <==> !Doomed(s)
  {
    InitialInv(text);
    var s := Run(Initial(text), es);
    RunInv(text, Initial(text), es);
    hide Initial, Inv, Doomed, Possible, Run;
    DrainsUnlessDoomed(text, s);
  }

  /** Every input lets the client get there: a signal before the connection stands closes the stream under
      its connect request. */
  lemma {:induction false} DoomedWitness(text: seq<Byte>)
    ensures var es := [OnSignal(Sigterm), OnAsync, OnIdle(false, 0)];
      Possible(Initial(text), es) && Doomed(Run(Initial(text), es)) && !Run(Initial(text), es).exited
  {
    var a, b, c := OnSignal(Sigterm), OnAsync, OnIdle(false, 0);
    var s := Initial(text);
    CutOff(text, a, b, c);
    hide Step, Enabled, Initial, Doomed;
    assert [a, b, c][1..] == [b, c] && [b, c][1..] == [c] && [c][1..] == [];
    var t := Step(s, a);
    var u := Step(t, b);
    assert Run(Step(u, c), []) == Step(u, c);
    assert Possible(u, [c]) && Run(u, [c]) == Step(u, c);
    assert Possible(t, [b, c]) && Run(t, [b, c]) == Step(u, c);
  }

  lemma {:induction false} CutOff(text: seq<Byte>, a: Event, b: Event, c: Event)
    requires a == OnSignal(Sigterm) && b == OnAsync && c == OnIdle(false, 0)
    ensures var s := Initial(text);
      var t := Step(s, a);
      var u := Step(t, b);
      Enabled(s, a) && Enabled(t, b) && Enabled(u, c) && Doomed(Step(u, c)) && !Step(u, c).exited
  {
    ReadyIs();
    hide Ready, Feed;
  }

  lemma {:induction false} DoomedStays(text: seq<Byte>, s: State, es: seq<Event>)
    requires Inv(text, s) && Doomed(s) && Possible(s, es) && !Run(s, es).exited
    ensures Doomed(Run(s, es)) && Alive(Run(s, es).loop)
    decreases es
  {
    if es == [] {
      assert PhaseOf(s.loop, Socket) == Closing;
    } else {
      StepInv(text, s, es[0]);
      DoomedStep(text, s, es[0]);
      hide Inv, Step, Enabled, Doomed, Alive;
      if Step(s, es[0]).exited {
        ExitedStays(Step(s, es[0]), es[1..]);
      }
      DoomedStays(text, Step(s, es[0]), es[1..]);
    }
  }

  lemma {:induction false} DoomedStep(text: seq<Byte>, s: State, e: Event)
    requires Inv(text, s) && Doomed(s) && Enabled(s, e)
    ensures Step(s, e).exited || Doomed(Step(s, e))
  {
    hide InOrder;
  }
}
