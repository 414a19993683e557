/** What the client has done after a run, told by the list of events and the input alone. */
module ClientLaws {
  import opened Endian
  import opened Stdio
  import opened UvLoop
  import opened Counting
  import opened ClientSteps
  import opened ClientRuns

  predicate Connects(e: Event) {
    e == OnConnect(0)
  }

  predicate Answers(e: Event) {
    e == OnSend(0)
  }

  predicate Signals(e: Event) {
    e.OnSignal?
  }

  /** How often the client has been made ready for one more line. */
  function Turns(es: seq<Event>): nat {
    Count(es, Connects) + Count(es, Answers)
  }

  /** Since it was made ready last, an idle callback has run before the wake-up. */
  ghost predicate Taken(es: seq<Event>) {
    exists k {:trigger es[k]} :: 0 <= k < |es| && es[k].OnIdle? && OnAsync !in es[..k] &&
      forall j :: k < j < |es| ==> !Connects(es[j]) && !Answers(es[j])
  }

  /** How many lines have been sent: one for each turn that an idle callback has taken, while there are lines. */
  ghost function Lines(n: nat, es: seq<Event>): nat {
    if Turns(es) == 0 then 0 else Turns(es) - 1 + if Taken(es) && Turns(es) <= n then 1 else 0
  }

  /** fgets has been called once more than there are lines: it has found the end of the input. */
  ghost predicate NullRead(n: nat, open: bool, es: seq<Event>) {
    !open && Taken(es) && Turns(es) == n + 1
  }

  /** The next idle callback reads. */
  ghost predicate Due(n: nat, open: bool, es: seq<Event>) {
    OnAsync !in es && Turns(es) > 0 && !Taken(es) && !(open && Turns(es) == n + 1)
  }

  /** An idle callback after the wake-up. */
  ghost predicate Stopped(es: seq<Event>) {
    exists k {:trigger es[k]} :: 0 <= k < |es| && es[k].OnIdle? && OnAsync in es[..k]
  }

  /** The calls of fatal: a request that failed, an input that cannot be read, a line that cannot be sent. */
  ghost predicate Fatal(n: nat, open: bool, before: seq<Event>, e: Event) {
    match e
    case OnConnect(errcode) => errcode != 0
    case OnSend(errcode) => errcode != 0
    case OnIdle(readError, sendCode) => Due(n, open, before) && (readError || (sendCode != 0 && Turns(before) <= n))
    case _ => false
  }

  ghost predicate Failed(n: nat, open: bool, es: seq<Event>) {
    exists k {:trigger es[k]} :: 0 <= k < |es| && Fatal(n, open, es[..k], es[k])
  }

  /** The requests and the shutdown. */
  ghost predicate Answered(es: seq<Event>, s: State) {
    && s.acked == Count(es, Answers)
    && Count(es, Connects) == (if s.connecting then 0 else 1)
    && (s.connecting ==> s.acked == 0)
    && (s.terminate <==> OnAsync in es)
    && (!Up(s, Socket) <==> Stopped(es))
    && (!Up(s, Idle) <==> Stopped(es))
    && (!Up(s, Sigterm) <==> OnClose(Socket) in es)
    && (!Up(s, Sigint) <==> OnClose(Socket) in es)
  }

  /** What has been read of an input of n pieces and sent; `open` is EndsOpen of the input. */
  ghost predicate Fed(n: nat, open: bool, es: seq<Event>, s: State) {
    && |s.sent| == Lines(n, es)
    && (s.inputEof <==> (open && Lines(n, es) == n) || NullRead(n, open, es))
    && (s.loop.pending <==> OnAsync !in es && (Count(es, Signals) > 0 || NullRead(n, open, es)))
  }

  lemma {:induction false} TakenSnoc(es: seq<Event>, e: Event)
    ensures Taken(es + [e]) <==>
      !Connects(e) && !Answers(e) && (Taken(es) || (e.OnIdle? && OnAsync !in es))
  {
    var es' := es + [e];
    assert forall k :: 0 <= k <= |es| ==> es'[..k] == es[..k];
    assert es[..|es|] == es && es'[|es|] == e;
    assert forall k :: 0 <= k < |es| ==> es'[k] == es[k];
    hide Connects, Answers;
    if Taken(es) && !Connects(e) && !Answers(e) {
      var k :| 0 <= k < |es| && es[k].OnIdle? && OnAsync !in es[..k] &&
        forall j :: k < j < |es| ==> !Connects(es[j]) && !Answers(es[j]);
      assert es'[k].OnIdle?;
    }
  }

  lemma {:induction false} StoppedSnoc(es: seq<Event>, e: Event)
    ensures Stopped(es + [e]) <==> Stopped(es) || (e.OnIdle? && OnAsync in es)
  {
    var es' := es + [e];
    assert forall k :: 0 <= k <= |es| ==> es'[..k] == es[..k];
    assert es[..|es|] == es && es'[|es|] == e;
    assert forall k :: 0 <= k < |es| ==> es'[k] == es[k];
  }

  lemma {:induction false} FailedSnoc(n: nat, open: bool, es: seq<Event>, e: Event)
    ensures Failed(n, open, es + [e]) <==> Failed(n, open, es) || Fatal(n, open, es, e)
  {
    var es' := es + [e];
    assert forall k :: 0 <= k <= |es| ==> es'[..k] == es[..k];
    assert es[..|es|] == es && es'[|es|] == e;
    assert forall k :: 0 <= k < |es| ==> es'[k] == es[k];
    hide Fatal;
  }

  lemma {:induction false} CountsSnoc(es: seq<Event>, e: Event)
    ensures var es' := es + [e];
      && Count(es', Connects) == Count(es, Connects) + (if Connects(e) then 1 else 0)
      && Count(es', Answers) == Count(es, Answers) + (if Answers(e) then 1 else 0)
      && Count(es', Signals) == Count(es, Signals) + (if Signals(e) then 1 else 0)
  {
    CountSnoc(es, e, Connects);
    CountSnoc(es, e, Answers);
    CountSnoc(es, e, Signals);
  }

  ghost predicate Moved(s: State, e: Event, t: State) {
    && t.acked == s.acked + (if Answers(e) then 1 else 0)
    && (t.connecting <==> s.connecting && !Connects(e))
    && (Connects(e) ==> s.connecting) && (Answers(e) ==> !s.connecting && s.writing)
    && (t.terminate <==> s.terminate || e == OnAsync)
    && (Up(t, Socket) <==> Up(s, Socket) && !(e.OnIdle? && s.terminate))
    && (Up(t, Idle) <==> Up(s, Idle) && !(e.OnIdle? && s.terminate))
    && (Up(t, Sigterm) <==> Up(s, Sigterm) && e != OnClose(Socket))
    && (Up(t, Sigint) <==> Up(s, Sigint) && e != OnClose(Socket))
  }

  lemma {:induction false} MovedIdle(text: seq<Byte>, s: State, readError: bool, sendCode: int)
    requires Inv(text, s) && Enabled(s, OnIdle(readError, sendCode))
    ensures Moved(s, OnIdle(readError, sendCode), Step(s, OnIdle(readError, sendCode)))
  {
    if !s.terminate && !s.inputEof && s.ready {
      FeedParts(text, s, readError, sendCode);
    }
    hide Feed, InOrder, Waiting;
  }

  lemma {:induction false} MovedClose(text: seq<Byte>, s: State, h: Id)
    requires Inv(text, s) && Enabled(s, OnClose(h))
    ensures Moved(s, OnClose(h), Step(s, OnClose(h)))
  {
    hide InOrder, Waiting, Feed;
  }

  lemma {:induction false} MovedOther(text: seq<Byte>, s: State, e: Event)
    requires Inv(text, s) && Enabled(s, e) && !e.OnIdle? && !e.OnClose?
    ensures Moved(s, e, Step(s, e))
  {
    hide InOrder, Feed;
  }

  /** Reading and sending leaves requests that are answered, and all handles, alone. */
  lemma {:induction false} FeedParts(text: seq<Byte>, s: State, readError: bool, sendCode: int)
    requires Inv(text, s) && !s.exited && !s.terminate && !s.inputEof && s.ready
    ensures var t := Feed(s, readError, sendCode);
      t.acked == s.acked && t.connecting == s.connecting && t.terminate == s.terminate &&
        t.loop.handles == s.loop.handles
  {
    hide InOrder, Stdio.Line, Piece, Remainder, Payload, Stdio.RanOut;
    if !readError && s.rest != [] {
      FeedSends(s, sendCode);
      hide Feed;
    }
  }

  lemma {:induction false} AnsweredStep(text: seq<Byte>, es: seq<Event>, s: State, e: Event)
    requires Inv(text, s) && Enabled(s, e) && Answered(es, s)
    ensures Answered(es + [e], Step(s, e))
  {
    hide Inv, Enabled, Step, Count, Stopped, Up;
    CountsSnoc(es, e);
    StoppedSnoc(es, e);
    match e {
      case OnIdle(readError, sendCode) => MovedIdle(text, s, readError, sendCode);
      case OnClose(h) => MovedClose(text, s, h);
      case _ => MovedOther(text, s, e);
    }
    assert !(Connects(e) && Answers(e));
    hide Connects, Answers, Signals;
    assert forall x :: x in es + [e] <==> x in es || x == e;
  }

  // Reading and sending

  lemma {:induction false} PayloadsLength(ps: seq<seq<Byte>>)
    ensures |Payloads(ps)| == |ps|
  {
    if ps != [] {
      PayloadsLength(ps[1..]);
    }
  }

  /** How many pieces are left. */
  lemma {:induction false} LinesLeft(text: seq<Byte>, s: State)
    requires InOrder(text, s)
    ensures |s.sent| <= |Pieces(text)|
    ensures !s.exited ==> |s.sent| + |Pieces(s.rest)| == |Pieces(text)|
    ensures s.rest == [] ==> Pieces(s.rest) == []
    ensures s.rest != [] ==> |Pieces(s.rest)| == 1 + |Pieces(Remainder(s.rest))|
    ensures Remainder(s.rest) != [] ==> Pieces(Remainder(s.rest)) != []
  {
    PayloadsLength(Pieces(s.rest));
    PayloadsLength(Pieces(text));
    hide Payloads;
  }

  /** One call of fgets, and what follows it, in numbers. */
  lemma {:induction false} FeedNumbers(text: seq<Byte>, s: State, readError: bool, sendCode: int)
    requires Inv(text, s) && Ending(text, s) && !s.exited && !s.terminate && !s.inputEof && s.ready
    ensures var t, n := Feed(s, readError, sendCode), |Pieces(text)|;
      && |s.sent| <= n && (|s.sent| == n ==> !EndsOpen(text))
      && (t.exited <==> readError || (sendCode != 0 && |s.sent| < n))
      && (!t.exited ==>
            && |t.sent| == |s.sent| + (if |s.sent| < n then 1 else 0)
            && (t.inputEof <==> |s.sent| == n || (EndsOpen(text) && |t.sent| == n))
            && (t.loop.pending <==> s.loop.pending || |s.sent| == n))
  {
    LinesLeft(text, s);
    if s.rest != [] {
      FeedSends(s, sendCode);
      RanOutEnd(s.rest);
      assert EndsOpen(s.rest) <==> if Remainder(s.rest) == [] then Stdio.RanOut(s.rest, MSG_MAX_SIZE - 1)
        else EndsOpen(Remainder(s.rest));
    }
    hide InOrder, Stdio.Line, Piece, Remainder, Payload, Stdio.RanOut, Pieces, EndsOpen;
    if !readError && s.rest != [] {
      hide Feed;
    }
  }

  /** The client reads exactly when the events say that a turn is open. */
  lemma {:induction false} DueExactly(n: nat, open: bool, es: seq<Event>, s: State)
    requires Answered(es, s) && Fed(n, open, es, s) && Waiting(s) && !s.exited && |s.sent| <= n
    ensures Due(n, open, es) <==> !s.terminate && !s.inputEof && s.ready
    ensures Due(n, open, es) ==> Turns(es) == |s.sent| + 1
  {
    assert s.terminate <==> OnAsync in es;
    hide Count, Taken, Stopped, Up;
  }

  /** What an idle callback does, in numbers. */
  ghost predicate Read(n: nat, open: bool, s: State, readError: bool, sendCode: int, t: State) {
    if s.terminate || s.inputEof || !s.ready
      then !t.exited && t.sent == s.sent && t.inputEof == s.inputEof && t.loop.pending == s.loop.pending
    else
      && |s.sent| <= n && (|s.sent| == n ==> !open)
      && (t.exited <==> readError || (sendCode != 0 && |s.sent| < n))
      && (!t.exited ==>
            && |t.sent| == |s.sent| + (if |s.sent| < n then 1 else 0)
            && (t.inputEof <==> |s.sent| == n || (open && |t.sent| == n))
            && (t.loop.pending <==> s.loop.pending || |s.sent| == n))
  }

  lemma {:induction false} IdleReads(text: seq<Byte>, s: State, readError: bool, sendCode: int)
    requires Inv(text, s) && Ending(text, s) && Enabled(s, OnIdle(readError, sendCode))
    ensures Read(|Pieces(text)|, EndsOpen(text), s, readError, sendCode, Step(s, OnIdle(readError, sendCode)))
  {
    hide Inv, Ending, Pieces, EndsOpen, Feed;
    if !s.terminate && !s.inputEof && s.ready {
      FeedNumbers(text, s, readError, sendCode);
    }
  }

  lemma {:induction false} FedReads(n: nat, open: bool, es: seq<Event>, s: State, e: Event, t: State)
    requires Answered(es, s) && Fed(n, open, es, s) && Due(n, open, es) && e.OnIdle?
    requires Turns(es) == |s.sent| + 1 && |s.sent| <= n && !s.terminate && !s.inputEof && s.ready
    requires Read(n, open, s, e.readError, e.sendCode, t)
    ensures (t.exited <==> Fatal(n, open, es, e)) && (!t.exited ==> Fed(n, open, es + [e], t))
  {
    hide Count, Taken, Answered;
    CountsSnoc(es, e);
    TakenSnoc(es, e);
    assert OnAsync in es + [e] <==> OnAsync in es;
  }

  lemma {:induction false} FedRests(n: nat, open: bool, es: seq<Event>, s: State, e: Event, t: State)
    requires Answered(es, s) && Fed(n, open, es, s) && Waiting(s) && !Due(n, open, es) && e.OnIdle? && !s.exited
    requires |s.sent| <= n && (s.terminate || s.inputEof || !s.ready)
    requires Read(n, open, s, e.readError, e.sendCode, t)
    ensures !t.exited && !Fatal(n, open, es, e) && Fed(n, open, es + [e], t)
  {
    hide Count, Taken, Stopped, Up, Due;
    CountsSnoc(es, e);
    TakenSnoc(es, e);
    assert OnAsync in es + [e] <==> OnAsync in es;
    assert s.terminate <==> OnAsync in es;
  }

  lemma {:induction false} FedIdle(n: nat, open: bool, es: seq<Event>, s: State, e: Event, t: State)
    requires Answered(es, s) && Fed(n, open, es, s) && Waiting(s) && |s.sent| <= n && !s.exited && e.OnIdle?
    requires Read(n, open, s, e.readError, e.sendCode, t)
    ensures (t.exited <==> Fatal(n, open, es, e)) && (!t.exited ==> Fed(n, open, es + [e], t))
  {
    hide Answered, Fed, Waiting, Due, Read, Fatal;
    DueExactly(n, open, es, s);
    if Due(n, open, es) {
      FedReads(n, open, es, s, e, t);
    } else {
      FedRests(n, open, es, s, e, t);
    }
  }

  /** What every other callback does. */
  ghost predicate Passed(s: State, e: Event, t: State) {
    && t.sent == s.sent && t.inputEof == s.inputEof
    && (t.exited <==> (e.OnConnect? || e.OnSend?) && e.errcode != 0)
    && (t.loop.pending <==> e != OnAsync && (s.loop.pending || (Signals(e) && !s.terminate)))
    && (Connects(e) ==> s.connecting) && (Answers(e) ==> !s.connecting && s.writing)
  }

  lemma {:induction false} OthersPass(text: seq<Byte>, s: State, e: Event)
    requires Inv(text, s) && Enabled(s, e) && !e.OnIdle?
    ensures Passed(s, e, Step(s, e))
  {
    hide InOrder, Feed;
  }

  lemma {:induction false} FedOther(n: nat, open: bool, es: seq<Event>, s: State, e: Event, t: State)
    requires Answered(es, s) && Fed(n, open, es, s) && Waiting(s) && |s.sent| <= n && !s.exited && !e.OnIdle?
    requires Passed(s, e, t)
    ensures (t.exited <==> Fatal(n, open, es, e)) && (!t.exited ==> Fed(n, open, es + [e], t))
  {
    CountsSnoc(es, e);
    TakenSnoc(es, e);
    assert OnAsync in es + [e] <==> OnAsync in es || e == OnAsync;
    assert s.terminate <==> OnAsync in es;
    hide Count, Taken, Stopped, Up;
  }

  // Whole runs

  lemma {:induction false} RunSplit(s: State, es: seq<Event>, e: Event)
    requires Possible(s, es + [e])
    ensures Possible(s, es) && Enabled(Run(s, es), e) && Run(s, es + [e]) == Step(Run(s, es), e)
    decreases |es|
  {
    if es == [] {
      assert es + [e] == [e] && [e][1..] == [];
    } else {
      assert (es + [e])[1..] == es[1..] + [e];
      RunSplit(Step(s, es[0]), es[1..], e);
      hide Step, Enabled;
    }
  }

  lemma {:induction false} AtFirst(text: seq<Byte>, s: State)
    requires s == Initial(text)
    ensures Inv(text, s) && Ending(text, s) && !s.exited
    ensures Answered([], s) && Fed(|Pieces(text)|, EndsOpen(text), [], s) &&
      !Failed(|Pieces(text)|, EndsOpen(text), [])
  {
    InitialInv(text);
    InitialEnding(text);
    ReadyIs();
    hide Ready, Inv, Ending, EndsOpen, Pieces;
    assert EndsOpen(text) ==> |Pieces(text)| > 0 by { OpenHasPieces(text); }
  }

  lemma {:induction false} OpenHasPieces(text: seq<Byte>)
    ensures EndsOpen(text) ==> |Pieces(text)| > 0
  {
    hide RanOut, Piece, Remainder;
  }

  /** One more callback. */
  lemma {:induction false} LawStep(text: seq<Byte>, es: seq<Event>, s: State, e: Event)
    requires Inv(text, s) && Ending(text, s) && Enabled(s, e)
    requires Answered(es, s) && Fed(|Pieces(text)|, EndsOpen(text), es, s) &&
      !Failed(|Pieces(text)|, EndsOpen(text), es)
    ensures var n, open, t := |Pieces(text)|, EndsOpen(text), Step(s, e);
      && Inv(text, t) && Answered(es + [e], t)
      && (t.exited <==> Failed(n, open, es + [e]))
      && (!t.exited ==> Ending(text, t) && Fed(n, open, es + [e], t))
  {
    var n, open := |Pieces(text)|, EndsOpen(text);
    Facts(text, s, e);
    hide Inv, Ending, Enabled, Step, Answered, Fed, Pieces, EndsOpen, Waiting, Failed, Fatal;
    StepInv(text, s, e);
    EndingStep(text, s, e);
    AnsweredStep(text, es, s, e);
    FailedSnoc(n, open, es, e);
    match e {
      case OnIdle(readError, sendCode) =>
        IdleReads(text, s, readError, sendCode);
        FedIdle(n, open, es, s, e, Step(s, e));
      case _ =>
        OthersPass(text, s, e);
        FedOther(n, open, es, s, e, Step(s, e));
    }
  }

  lemma {:induction false} Facts(text: seq<Byte>, s: State, e: Event)
    requires Inv(text, s) && Enabled(s, e)
    ensures !s.exited && Waiting(s) && |s.sent| <= |Pieces(text)|
  {
    LinesLeft(text, s);
  }

  /** Every possible run of the client, by the list of its events: which requests were answered, how much of
      the input was sent, how far the shutdown is, and whether an error has ended the program. */
  lemma {:induction false} Account(text: seq<Byte>, es: seq<Event>)
    requires Possible(Initial(text), es)
    ensures var s, n, open := Run(Initial(text), es), |Pieces(text)|, EndsOpen(text);
      && Inv(text, s) && Answered(es, s)
      && (s.exited <==> Failed(n, open, es))
      && (!s.exited ==> Ending(text, s) && Fed(n, open, es, s))
    decreases |es|
  {
    var s0 := Initial(text);
    AtFirst(text, s0);
    hide Initial, Inv, Ending, Answered, Fed, Failed, Enabled, Step, Pieces, EndsOpen;
    if es != [] {
      var before, e := es[..|es| - 1], es[|es| - 1];
      assert es == before + [e];
      RunSplit(s0, before, e);
      Account(text, before);
      var s := Run(s0, before);
      hide Run, Possible;
      StillRunning(s, e);
      LawStep(text, before, s, e);
    }
  }

  lemma {:induction false} StillRunning(s: State, e: Event)
    requires Enabled(s, e)
    ensures !s.exited
  {
  }
}
