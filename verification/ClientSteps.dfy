/** The client of test/client.c as steps: what each callback does, and what holds over every run. */
module ClientSteps {
  import opened Endian
  import opened Stdio
  import opened UvLoop

  const MSG_MAX_SIZE := 1024

  // The pieces that fgets makes of a text

  function Piece(t: seq<Byte>): seq<Byte> {
    t[..Line(t, MSG_MAX_SIZE - 1)]
  }

  function Remainder(t: seq<Byte>): (r: seq<Byte>)
    ensures |r| <= |t| && (t != [] ==> |r| < |t|)
  {
    t[Line(t, MSG_MAX_SIZE - 1)..]
  }

  function Pieces(t: seq<Byte>): seq<seq<Byte>> {
    if t == [] then [] else [Piece(t)] + Pieces(Remainder(t))
  }

  /** The last piece is a short line without a newline: reading it sets the end-of-file indicator. */
  predicate EndsOpen(t: seq<Byte>) {
    t != [] && if Remainder(t) == [] then RanOut(t, MSG_MAX_SIZE - 1) else EndsOpen(Remainder(t))
  }

  /** How many bytes follow the last newline, byte 10. */
  function Tail(t: seq<Byte>): nat {
    if t == [] || t[|t| - 1] == 10 then 0 else 1 + Tail(t[..|t| - 1])
  }

  lemma {:induction false} TailAppend(a: seq<Byte>, b: seq<Byte>)
    ensures Tail(b) <= |b|
    ensures Tail(a + b) == if Tail(b) == |b| then Tail(a) + |b| else Tail(b)
    decreases b
  {
    var s := a + b;
    if b == [] {
      assert s == a;
    } else {
      var c := b[..|b| - 1];
      TailAppend(a, c);
      assert s[..|s| - 1] == a + c && s[|s| - 1] == b[|b| - 1];
    }
  }

  lemma {:induction false} TailNone(t: seq<Byte>)
    requires forall i :: 0 <= i < |t| ==> t[i] != 10
    ensures Tail(t) == |t|
    decreases t
  {
    if t != [] {
      TailNone(t[..|t| - 1]);
    }
  }

  /** Taking off one piece changes the length of the last line by nothing, or by 1023. */
  lemma {:induction false} TailPiece(t: seq<Byte>)
    requires t != []
    ensures var p, r := Piece(t), Remainder(t);
      if r == [] && RanOut(t, MSG_MAX_SIZE - 1) then 0 < Tail(t) < 1023
      else Tail(t) == Tail(r) || Tail(t) == Tail(r) + 1023
  {
    var p, r := Piece(t), Remainder(t);
    LineIs(t, MSG_MAX_SIZE - 1);
    assert t == p + r;
    TailAppend(p, r);
    if p[|p| - 1] != 10 {
      TailNone(p);
    }
  }

  /** The last line is not closed by a newline, and does not fill the buffers that it is read in. */
  lemma {:induction false} EndsOpenExactly(t: seq<Byte>)
    ensures EndsOpen(t) <==> Tail(t) % 1023 != 0
    decreases |t|
  {
    hide Line, Remainder, Piece, RanOut, Tail;
    if t == [] {
      TailNone(t);
    } else {
      TailPiece(t);
      RanOutEnd(t);
      var r := Remainder(t);
      if r != [] {
        EndsOpenExactly(r);
      } else {
        TailNone(r);
      }
      OneMore1023(Tail(r));
    }
  }

  lemma {:induction false} OneMore1023(n: nat)
    ensures (n + 1023) % 1023 == n % 1023
  {
  }

  function Concat(ps: seq<seq<Byte>>): seq<Byte> {
    if ps == [] then [] else ps[0] + Concat(ps[1..])
  }

  /** The pieces are the text again. */
  lemma {:induction false} PiecesConcat(t: seq<Byte>)
    ensures Concat(Pieces(t)) == t
  {
    if t != [] {
      PiecesConcat(Remainder(t));
      assert Piece(t) + Remainder(t) == t;
      assert Pieces(t)[1..] == Pieces(Remainder(t));
    }
  }

  /** Where the pieces end: each has from 1 to 1023 bytes, byte 10 only at its end, and every piece but the
      last ends in it or is full. */
  predicate PieceAt(ps: seq<seq<Byte>>, i: nat)
    requires i < |ps|
  {
    var p := ps[i];
    && 1 <= |p| <= 1023
    && (forall k :: 0 <= k < |p| - 1 ==> p[k] != 10)
    && (i < |ps| - 1 ==> p[|p| - 1] == 10 || |p| == 1023)
  }

  predicate Shaped(ps: seq<seq<Byte>>) {
    forall i :: 0 <= i < |ps| ==> PieceAt(ps, i)
  }

  lemma {:induction false} PieceShape(t: seq<Byte>, i: nat)
    requires i < |Pieces(t)|
    ensures PieceAt(Pieces(t), i)
  {
    if i > 0 {
      PieceShape(Remainder(t), i - 1);
    } else {
      LineIs(t, MSG_MAX_SIZE - 1);
      hide Line;
    }
  }

  /** The pieces are the one way to take the text apart like that. */
  lemma {:induction false} PiecesExactly(t: seq<Byte>, ps: seq<seq<Byte>>)
    ensures ps == Pieces(t) <==> Concat(ps) == t && Shaped(ps)
  {
    if ps == Pieces(t) {
      PiecesConcat(t);
      forall i | 0 <= i < |ps| ensures PieceAt(ps, i) {
        PieceShape(t, i);
      }
    }
    if Concat(ps) == t && Shaped(ps) {
      PiecesUnique(t, ps);
    }
  }

  lemma {:induction false} PiecesUnique(t: seq<Byte>, ps: seq<seq<Byte>>)
    requires Concat(ps) == t && Shaped(ps)
    ensures ps == Pieces(t)
    decreases |ps|
  {
    if ps != [] {
      var p := ps[0];
      assert PieceAt(ps, 0) && t == p + Concat(ps[1..]);
      assert |ps| == 1 ==> Concat(ps[1..]) == [];
      LineExactly(t, 1023, |p|);
      assert t[..|p|] == p && t[|p|..] == Concat(ps[1..]);
      hide Line;
      forall i | 0 <= i < |ps| - 1 ensures PieceAt(ps[1..], i) {
        assert PieceAt(ps, i + 1);
      }
      PiecesUnique(Remainder(t), ps[1..]);
      assert ps == [p] + ps[1..];
    }
  }

  /** strlen of a piece: what msg_setup takes of it. */
  function Payload(p: seq<Byte>): (r: seq<Byte>)
    ensures |r| <= |p|
  {
    if p == [] || p[0] == 0 then [] else [p[0]] + Payload(p[1..])
  }

  lemma {:induction false} PayloadIs(p: seq<Byte>)
    ensures var r := Payload(p); r <= p && 0 !in r && (|r| == |p| || p[|r|] == 0)
  {
    if p != [] && p[0] != 0 {
      PayloadIs(p[1..]);
    }
  }

  function Payloads(ps: seq<seq<Byte>>): seq<seq<Byte>> {
    if ps == [] then [] else [Payload(ps[0])] + Payloads(ps[1..])
  }

  // The steps

  /** `rest` is what has not been read of the input, `feof` its end-of-file indicator; `sent` are the
      payloads handed to uv_write, of which `acked` have been reported written. */
  datatype State = State(loop: Loop, terminate: bool, inputEof: bool, ready: bool, connecting: bool, writing: bool,
    rest: seq<Byte>, feof: bool, sent: seq<seq<Byte>>, acked: nat, exited: bool)

  datatype Event =
    | OnSignal(which: Id)
    | OnAsync
    | OnIdle(readError: bool, sendCode: int)
    | OnConnect(errcode: int)
    | OnSend(errcode: int)
    | OnClose(which: Id)

  /** The loop calls back on open handles, or on closing ones to settle them. A request that is cut off by
      closing its stream is reported as failed, and before the stream is settled. */
  predicate Enabled(s: State, e: Event) {
    && !s.exited
    && match e
       case OnSignal(w) => (w == Sigterm || w == Sigint) && PhaseOf(s.loop, w) == Open
       case OnAsync => PhaseOf(s.loop, Async) == Open && s.loop.pending
       case OnIdle(_, _) => PhaseOf(s.loop, Idle) == Open
       case OnConnect(errcode) => s.connecting && (PhaseOf(s.loop, Socket) == Open || errcode != 0)
       case OnSend(errcode) => s.writing && (PhaseOf(s.loop, Socket) == Open || errcode != 0)
       case OnClose(h) => PhaseOf(s.loop, h) == Closing && (h == Socket ==> !s.connecting && !s.writing)
  }

  function Exit(s: State): State {
    s.(exited := true)
  }

  function CloseHandle(s: State, h: Id): State {
    s.(loop := UvClose(s.loop, h))
  }

  /** uv_write with the one write request of the socket: it must be free, and the stream open. */
  function Write(s: State, payload: seq<Byte>, sendCode: int): State {
    if s.writing || PhaseOf(s.loop, Socket) != Open then s.(loop := s.loop.(faults := s.loop.faults + 1))
    else if sendCode != 0 then Exit(s)
    else s.(writing := true, sent := s.sent + [payload])
  }

  /** The part of idle_cb that reads and sends. */
  function Feed(s: State, readError: bool, sendCode: int): State {
    if readError then Exit(s)
    else if s.rest == [] then s.(feof := true, inputEof := true, loop := AsyncSend(s.loop))
    else
      var feof := s.feof || RanOut(s.rest, MSG_MAX_SIZE - 1);
      var t := Write(s.(rest := Remainder(s.rest), feof := feof), Payload(Piece(s.rest)), sendCode);
      if t.exited then t else t.(ready := false, inputEof := feof)
  }

  function Step(s: State, e: Event): State {
    match e
    case OnSignal(_) => if s.terminate then s else s.(loop := AsyncSend(s.loop))
    case OnAsync => CloseHandle(s.(loop := s.loop.(pending := false), terminate := true), Async)
    case OnIdle(readError, sendCode) =>
      if s.terminate then CloseHandle(CloseHandle(s, Idle), Socket)
      else if !s.inputEof && s.ready then Feed(s, readError, sendCode)
      else s
    case OnConnect(errcode) => if errcode != 0 then Exit(s) else s.(connecting := false, ready := true)
    case OnSend(errcode) => if errcode != 0 then Exit(s) else s.(writing := false, ready := true, acked := s.acked + 1)
    case OnClose(h) =>
      var t := s.(loop := Settled(s.loop, h));
      if h == Socket then CloseHandle(CloseHandle(t, Sigterm), Sigint) else t
  }

  predicate Possible(s: State, es: seq<Event>)
    decreases es
  {
    es == [] || (Enabled(s, es[0]) && Possible(Step(s, es[0]), es[1..]))
  }

  function Run(s: State, es: seq<Event>): State
    decreases es
  {
    if es == [] then s else Run(Step(s, es[0]), es[1..])
  }

  /** After client_init and a connect that has been started. */
  function Initial(text: seq<Byte>): State {
    State(Ready(), false, false, false, true, false, text, false, [], 0, false)
  }

  // What every callback keeps

  predicate Up(s: State, h: Id) {
    PhaseOf(s.loop, h) == Open
  }

  /** The handles and the two-phase shutdown. */
  predicate Orderly(s: State) {
    && s.loop.faults == 0
    && Single(s.loop.handles.async) && Single(s.loop.handles.sigterm) && Single(s.loop.handles.sigint)
    && Single(s.loop.handles.idle) && Single(s.loop.handles.socket) && s.loop.handles.peer == Handle(Unset, 0, 0)
    && (s.terminate <==> !Up(s, Async))
    && (Up(s, Idle) <==> Up(s, Socket))
    && (!s.terminate ==> Up(s, Idle))
    && (Up(s, Sigterm) <==> PhaseOf(s.loop, Socket) != Closed)
    && (Up(s, Sigint) <==> PhaseOf(s.loop, Socket) != Closed)
  }

  /** Stop and wait: ready exactly when nothing is in flight. */
  predicate Waiting(s: State) {
    && !(s.connecting && s.writing)
    && (!s.exited ==> (s.ready <==> !s.connecting && !s.writing))
    && (PhaseOf(s.loop, Socket) == Closed ==> !s.connecting && !s.writing)
    && |s.sent| == s.acked + (if s.writing then 1 else 0)
  }

  /** What has been sent and what has not been read make up the input. */
  predicate InOrder(text: seq<Byte>, s: State) {
    && (!s.exited ==> s.sent + Payloads(Pieces(s.rest)) == Payloads(Pieces(text)))
    && s.sent <= Payloads(Pieces(text))
    && (s.inputEof ==> s.rest == [])
    && (!s.exited ==> (s.feof <==> s.inputEof))
  }

  predicate Inv(text: seq<Byte>, s: State) {
    Orderly(s) && Waiting(s) && InOrder(text, s)
  }

  lemma {:induction false} InitialInv(text: seq<Byte>)
    ensures Inv(text, Initial(text))
  {
    ReadyIs();
    hide Pieces, Payloads, Ready;
  }

  lemma {:induction false} FeedInv(text: seq<Byte>, s: State, readError: bool, sendCode: int)
    requires Inv(text, s) && !s.exited && !s.terminate && !s.inputEof && s.ready
    ensures Inv(text, Feed(s, readError, sendCode))
  {
    FeedOrder(text, s, readError, sendCode);
    hide InOrder, Line, Piece, Remainder, Pieces, Payloads, Payload, RanOut;
  }

  /** One more piece moves from the unread text to what has been sent. */
  lemma {:induction false} FeedOrder(text: seq<Byte>, s: State, readError: bool, sendCode: int)
    requires InOrder(text, s) && !s.exited && !s.inputEof && !s.writing && Up(s, Socket)
    ensures InOrder(text, Feed(s, readError, sendCode))
  {
    if !readError && s.rest != [] {
      FeedSends(s, sendCode);
      RanOutEnd(s.rest);
      Taken(text, s.sent, s.rest);
      hide Feed;
    }
    hide Line, Piece, Remainder, Pieces, Payloads, Payload, RanOut;
  }

  /** A line was there to send. */
  lemma {:induction false} FeedSends(s: State, sendCode: int)
    requires s.rest != [] && !s.writing && Up(s, Socket) && !s.exited
    ensures var feof := s.feof || RanOut(s.rest, MSG_MAX_SIZE - 1);
      Feed(s, false, sendCode) ==
        if sendCode != 0 then s.(rest := Remainder(s.rest), feof := feof, exited := true)
        else s.(rest := Remainder(s.rest), feof := feof, writing := true, sent := s.sent + [Payload(Piece(s.rest))],
          ready := false, inputEof := feof)
  {
    hide Line, Piece, Remainder, Payload, RanOut;
  }

  lemma {:induction false} Taken(text: seq<Byte>, sent: seq<seq<Byte>>, rest: seq<Byte>)
    requires rest != [] && sent + Payloads(Pieces(rest)) == Payloads(Pieces(text))
    ensures var sent' := sent + [Payload(Piece(rest))];
      sent' + Payloads(Pieces(Remainder(rest))) == Payloads(Pieces(text)) && sent' <= Payloads(Pieces(text))
  {
    PayloadsCons(rest);
    var p, more, all := Payload(Piece(rest)), Payloads(Pieces(Remainder(rest))), Payloads(Pieces(text));
    hide *;
    Shift(sent, p, more);
  }

  lemma {:induction false} Shift(a: seq<seq<Byte>>, p: seq<Byte>, b: seq<seq<Byte>>)
    ensures a + [p] + b == a + ([p] + b) && a + [p] <= a + ([p] + b)
  {
  }

  lemma {:induction false} RanOutEnd(t: seq<Byte>)
    ensures RanOut(t, MSG_MAX_SIZE - 1) ==> Remainder(t) == []
  {
  }

  lemma {:induction false} PayloadsCons(t: seq<Byte>)
    requires t != []
    ensures Payloads(Pieces(t)) == [Payload(Piece(t))] + Payloads(Pieces(Remainder(t)))
  {
    assert Pieces(t)[1..] == Pieces(Remainder(t));
  }

  lemma {:induction false} ConnectInv(text: seq<Byte>, s: State, errcode: int)
    requires Inv(text, s) && Enabled(s, OnConnect(errcode))
    ensures Inv(text, Step(s, OnConnect(errcode)))
  {
    hide Pieces, Payloads, Feed;
  }

  lemma {:induction false} SendInv(text: seq<Byte>, s: State, errcode: int)
    requires Inv(text, s) && Enabled(s, OnSend(errcode))
    ensures Inv(text, Step(s, OnSend(errcode)))
  {
    hide Pieces, Payloads, Feed;
  }

  lemma {:induction false} ControlInv(text: seq<Byte>, s: State, e: Event)
    requires Inv(text, s) && Enabled(s, e) &&
      (e.OnSignal? || e.OnAsync? || (e.OnIdle? && (s.terminate || s.inputEof || !s.ready)))
    ensures Inv(text, Step(s, e))
  {
    hide Pieces, Payloads, Feed;
  }

  lemma {:induction false} CloseInv(text: seq<Byte>, s: State, h: Id)
    requires Inv(text, s) && Enabled(s, OnClose(h))
    ensures Inv(text, Step(s, OnClose(h)))
  {
    hide Pieces, Payloads;
  }

  lemma {:induction false} StepInv(text: seq<Byte>, s: State, e: Event)
    requires Inv(text, s) && Enabled(s, e)
    ensures Inv(text, Step(s, e))
  {
    match e
    case OnClose(h) => CloseInv(text, s, h);
    case OnConnect(errcode) => ConnectInv(text, s, errcode);
    case OnSend(errcode) => SendInv(text, s, errcode);
    case OnIdle(readError, sendCode) =>
      hide Inv, Feed;
      if s.terminate || s.inputEof || !s.ready {
        ControlInv(text, s, e);
      } else {
        FeedInv(text, s, readError, sendCode);
      }
    case _ => ControlInv(text, s, e);
  }

  lemma {:induction false} RunInv(text: seq<Byte>, s: State, es: seq<Event>)
    requires Inv(text, s) && Possible(s, es)
    ensures Inv(text, Run(s, es))
    decreases es
  {
    if es != [] {
      hide Inv, Step, Enabled;
      StepInv(text, s, es[0]);
      RunInv(text, Step(s, es[0]), es[1..]);
    }
  }
}
