/** struct client of test/client.c: the callbacks on its one message buffer and one write request, and what
    they put on the wire. */
module Client {
  import opened Endian
  import opened Frames
  import opened Stdio
  import opened UvLoop
  import opened ClientSteps
  import opened ClientRuns
  import opened Counting
  import opened ClientLaws
  import SocketUv
  import Receiver

  /** The message that carries a payload. */
  function Message(p: seq<Byte>): Msg
    requires |p| < 0x1_0000_0000
  {
    Msg(Header(BigEndian, Unsigned32(|p|)), p)
  }

  predicate Small(ps: seq<seq<Byte>>) {
    forall p :: p in ps ==> |p| < MSG_MAX_SIZE
  }

  function Messages(ps: seq<seq<Byte>>): seq<Msg>
    requires Small(ps)
  {
    if ps == [] then [] else [Message(ps[0])] + Messages(ps[1..])
  }

  lemma {:induction false} MessageProper(host: Host, p: seq<Byte>)
    requires |p| < 0x1_0000_0000
    ensures Proper(Message(p)) && Message(p).head == Header(host, Unsigned32(|p|))
  {
    SizeRoundTrip(BigEndian, BigEndian, |p|);
    hide Unsigned32;
    HeaderIsBigEndian(host, Unsigned32(|p|));
    HeaderIsBigEndian(BigEndian, Unsigned32(|p|));
  }

  lemma {:induction false} MessagesSnoc(ps: seq<seq<Byte>>, p: seq<Byte>)
    requires Small(ps) && |p| < MSG_MAX_SIZE
    ensures Small(ps + [p]) && Messages(ps + [p]) == Messages(ps) + [Message(p)]
  {
    hide Message;
    if ps == [] {
      assert [p][1..] == [] && ps + [p] == [p];
    } else {
      assert (ps + [p])[1..] == ps[1..] + [p];
      MessagesSnoc(ps[1..], p);
    }
  }

  lemma {:induction false} StreamOne(m: Msg)
    ensures Stream([m]) == Frame(m)
  {
    assert Stream([m][1..]) == [];
  }

  lemma {:induction false} MessagesProper(ps: seq<seq<Byte>>)
    requires Small(ps)
    ensures forall m :: m in Messages(ps) ==> Proper(m)
  {
    if ps != [] {
      MessagesProper(ps[1..]);
      MessageProper(BigEndian, ps[0]);
    }
  }

  lemma {:induction false} PayloadsSmall(t: seq<Byte>)
    ensures Small(Payloads(Pieces(t)))
  {
    if t != [] {
      PayloadsSmall(Remainder(t));
      PayloadsCons(t);
    }
  }

  // The program

  /** strlen of the NUL-terminated piece at the front of a buffer. */
  method Strlen(buffer: array<Byte>, ghost piece: seq<Byte>) returns (n: nat)
    requires |piece| < buffer.Length && buffer[..|piece|] == piece && buffer[|piece|] == 0
    ensures n == |Payload(piece)|
  {
    n := 0;
    while buffer[n] != 0
      invariant n <= |piece| && n + |Payload(piece[n..])| == |Payload(piece)|
      decreases |piece| - n
    {
      assert piece[n] == buffer[n] && piece[n..][1..] == piece[n + 1..];
      n := n + 1;
    }
    if n < |piece| {
      assert piece[n] == buffer[n];
    }
  }

  /** struct client; `exited` stands for a call to fatal, `connecting` and `writing` for the requests that
      the loop works on, and `wire` for the bytes that it has written out. */
  class Program {
    const host: Host
    const loop: EventLoop
    const socket: SocketUv.Socket
    const msg: SocketUv.MsgBuf
    const input: File
    var terminate: bool
    var inputEof: bool
    var ready: bool
    var connecting: bool
    var writing: bool
    var exited: bool
    var wire: seq<Byte>
    ghost var sent: seq<seq<Byte>>
    ghost var acked: nat

    /** client_new */
    constructor (h: Host, text: seq<Byte>)
      ensures Fresh() && host == h && input.bytes == text && input.pos == 0 && !input.eof
      ensures fresh(loop) && fresh(socket) && fresh(input) && fresh(msg.size_be) && fresh(msg.data)
    {
      host := h;
      loop := new EventLoop();
      socket := new SocketUv.Socket(h);
      msg := new SocketUv.MsgBuf(MSG_MAX_SIZE);
      input := new File(text);
      terminate, inputEof, ready, connecting, writing, exited := false, false, false, false, false, false;
      sent, acked, wire := [], 0, [];
    }

    ghost predicate Fresh()
      reads this, loop, input
    {
      Shape() && loop.State() == Empty() && sent == [] && acked == 0 && wire == [] && !connecting && !writing && !exited
    }

    /** The state that client_init leaves. */
    ghost predicate Begun()
      reads this, loop, input
    {
      && Shape() && loop.State() == Ready() && input.pos == 0 && !input.eof
      && sent == [] && acked == 0 && wire == []
      && !terminate && !inputEof && !ready && connecting && !writing && !exited
    }

    lemma {:induction false} BegunParts()
      requires Begun()
      ensures Shape() && Flying() && Written() && input.pos == 0 && Now() == Initial(input.bytes)
    {
      NothingWritten();
    }

    lemma {:induction false} BegunInv()
      requires input.Valid() && input.pos == 0 && Now() == Initial(input.bytes)
      ensures Inv(input.bytes, Now())
    {
      hide *;
      BeginInv(input.bytes, Now());
    }

    lemma {:induction false} BegunValid()
      requires Begun()
      ensures Valid() && Now() == Initial(input.bytes)
    {
      hide Begun, Flying, Written, Inv, Initial, Now;
      BegunParts();
      BegunInv();
    }

    /** client_init, and a connect that has been started. */
    method Start()
      requires Fresh() && input.pos == 0 && !input.eof
      modifies this, loop
      ensures Begun()
    {
      hide Empty, Ready, Shape;
      InitHandles(loop);
      terminate, inputEof, ready, connecting := false, false, false, true;
    }

    ghost function Now(): State
      requires input.Valid()
      reads this, loop, input
    {
      State(loop.State(), terminate, inputEof, ready, connecting, writing, input.Rest(), input.eof, sent, acked, exited)
    }

    ghost predicate Shape()
      reads input
    {
      && input.Valid() && socket.host == host
      && msg.size_be.Length == 4 && msg.data.Length == MSG_MAX_SIZE && msg.size_be != msg.data
    }

    /** The buffers handed to the loop hold the message of a payload. */
    ghost predicate Loaded(p: seq<Byte>)
      reads socket, msg.size_be, msg.data
    {
      && |p| < msg.data.Length < 0x1_0000_0000
      && socket.writeBuffers == [(msg.size_be, 4), (msg.data, |p|)]
      && msg.size_be[..] == Message(p).head && msg.data[..|p|] == p
    }

    /** While a write is in flight, its buffers still hold the message that was sent last. */
    ghost predicate Flying()
      reads this`writing, this`sent, socket, msg.size_be, msg.data
    {
      writing ==>
        sent != [] && msg.data.Length == MSG_MAX_SIZE && Loaded(sent[|sent| - 1])
    }

    /** The wire carries the answered messages, each one whole. */
    ghost predicate Written()
      reads this`sent, this`acked, this`wire
    {
      acked <= |sent| && Small(sent) && wire == Stream(Messages(sent[..acked]))
    }

    /** The objects, the buffers and the wire. */
    ghost predicate Sane()
      reads this`writing, this`sent, this`acked, this`wire, socket, input, msg.size_be, msg.data
    {
      Shape() && Flying() && Written()
    }

    ghost predicate Valid()
      reads this, loop, socket, input, msg.size_be, msg.data
    {
      Sane() && Inv(input.bytes, Now())
    }

    /** msg_setup and buv_send on the piece that fgets has left in the data block; the copy in msg_setup is
        from the block onto itself. */
    method Load(ghost piece: seq<Byte>)
      requires Shape() && |piece| < MSG_MAX_SIZE && msg.data[..|piece|] == piece && msg.data[|piece|] == 0
      modifies socket`writeBuffers, msg.size_be
      ensures Shape() && Loaded(Payload(piece))
    {
      PayloadIs(piece);
      ghost var p := Payload(piece);
      hide Payload, Announced, Message;
      var n := Strlen(msg.data, piece);
      assert msg.data[..n] == p;
      SetHeader(n, p);
      var wire' := socket.Send(msg);
    }

    method SetHeader(n: nat, ghost p: seq<Byte>)
      requires Shape() && n == |p| < MSG_MAX_SIZE
      modifies msg.size_be
      ensures msg.size_be[..] == Message(p).head && Announced(msg.size_be[..]) == n
    {
      HeaderIs(host, p);
      hide Announced, Header, Unsigned32, Message;
      msg.SetSize(host, Unsigned32(n));
    }

    /** The call of fgets. */
    method ReadPiece() returns (read: bool)
      requires Shape()
      modifies input, msg.data
      ensures Shape() && (read <==> old(input.Rest()) != [])
      ensures input.Rest() == Remainder(old(input.Rest())) &&
        input.eof == (old(input.eof) || RanOut(old(input.Rest()), MSG_MAX_SIZE - 1))
      ensures read ==>
        var p := Piece(old(input.Rest()));
        |p| < MSG_MAX_SIZE && msg.data[..|p|] == p && msg.data[|p|] == 0
    {
      hide Line, RanOut;
      read := input.Fgets(msg.data, MSG_MAX_SIZE);
    }

    /** The rest of idle_cb after a line was read. */
    method SendLine(sendCode: int, ghost piece: seq<Byte>)
      requires Shape() && Written() && !writing && |piece| < MSG_MAX_SIZE && msg.data[..|piece|] == piece &&
        msg.data[|piece|] == 0
      modifies this`exited, this`sent, this`writing, this`ready, this`inputEof, socket`writeBuffers, msg.size_be
      ensures Shape() && Written() && Flying()
      ensures var s := old(Now());
        Now() == if sendCode != 0 then s.(exited := true)
        else s.(writing := true, sent := s.sent + [Payload(piece)], ready := false, inputEof := s.feof)
    {
      hide Payload, Messages, Stream, Message;
      Load(piece);
      hide Loaded;
      if sendCode != 0 {
        exited := true;
        return;
      }
      writing := true;
      ghost var was, p := sent, Payload(piece);
      assert (was + [p])[..acked] == was[..acked] && (was + [p])[|was + [p]| - 1] == p;
      sent := was + [p];
      ready := false;
      inputEof := input.eof;
    }

    /** The rest of idle_cb at the end of the input: fgets has set the indicator, so the call of fatal for an
        indicator that is not set cannot happen. */
    method EndOfInput()
      requires Shape() && !writing && input.eof
      modifies this`inputEof, loop
      ensures Shape() && (old(Written()) ==> Written()) && Flying()
      ensures var s := old(Now()); Now() == s.(inputEof := true, loop := AsyncSend(s.loop))
    {
      hide AsyncSend, Messages, Stream;
      inputEof := input.eof;
      if !inputEof {
        assert false;
      }
      loop.Send();
    }

    /** The part of idle_cb that reads and sends. */
    method Feed(readError: bool, sendCode: int)
      requires Valid() && !exited && !terminate && !inputEof && ready
      modifies this, loop, socket`writeBuffers, input, msg.size_be, msg.data
      ensures Valid() && Now() == ClientSteps.Feed(old(Now()), readError, sendCode)
    {
      ghost var was := Now();
      FeedInv(input.bytes, was, readError, sendCode);
      FeedFree(input.bytes, was);
      FeedEnds(was);
      hide Inv, Messages, Stream, Up, ClientSteps.Feed, Message, Remainder, RanOut;
      if readError {
        exited := true;
      } else {
        FeedLine(sendCode, was);
      }
    }

    /** From the call of fgets on. */
    method FeedLine(sendCode: int, ghost was: State)
      requires Valid() && !exited && !writing && Up(was, Socket) && was == Now()
      requires Inv(input.bytes, ClientSteps.Feed(was, false, sendCode))
      modifies this, loop, socket`writeBuffers, input, msg.size_be, msg.data
      ensures Valid() && Now() == ClientSteps.Feed(was, false, sendCode)
    {
      FeedEnds(was);
      if was.rest != [] {
        FeedSends(was, sendCode);
      }
      hide Inv, Payload, Pieces, Payloads, Line, RanOut, Messages, Stream, Up, Remainder, Piece, ClientSteps.Feed,
        AsyncSend, Message, Written, Flying, Loaded;
      var read := ReadPiece();
      if read {
        SendLine(sendCode, Piece(was.rest));
      } else {
        EndOfInput();
      }
    }

    /** idle_cb */
    method IdleCb(readError: bool, sendCode: int)
      requires Valid() && Enabled(Now(), OnIdle(readError, sendCode))
      modifies this, loop, socket`writeBuffers, input, msg.size_be, msg.data
      ensures Valid() && Now() == Step(old(Now()), OnIdle(readError, sendCode))
    {
      ghost var was := Now();
      StepInv(input.bytes, was, OnIdle(readError, sendCode));
      hide Inv, ClientSteps.Feed, UvClose, Flying, Written;
      if terminate {
        loop.Close(Idle);
        loop.Close(Socket);
        return;
      }
      if !inputEof && ready {
        Feed(readError, sendCode);
      }
    }

    /** signal_cb */
    method SignalCb(which: Id)
      requires Sane()
      modifies loop
      ensures Sane() && Now() == Step(old(Now()), OnSignal(which))
    {
      hide AsyncSend, Flying, Written;
      if terminate {
        return;
      }
      loop.Send();
    }

    /** async_cb */
    method AsyncCb()
      requires Sane()
      modifies this`terminate, loop
      ensures Sane() && Now() == Step(old(Now()), OnAsync)
    {
      hide UvClose, Flying, Written;
      loop.Wake();
      terminate := true;
      loop.Close(Async);
    }

    /** on_connect; the request is over. */
    method ConnectCb(errcode: int)
      requires Sane()
      modifies this`exited, this`connecting, this`ready
      ensures Sane() && Now() == Step(old(Now()), OnConnect(errcode))
    {
      hide Flying, Written;
      if errcode != 0 {
        exited := true;
        return;
      }
      connecting := false;
      ready := true;
    }

    /** on_send; by now the loop has written out what the buffers of the request hold. */
    method SendCb(errcode: int)
      requires Sane() && writing && |sent| == acked + 1
      modifies this`exited, this`writing, this`ready, this`wire, this`acked
      ensures Sane() && Now() == Step(old(Now()), OnSend(errcode))
    {
      hide Written, Loaded;
      if errcode != 0 {
        exited := true;
        return;
      }
      Flush();
      writing := false;
      ready := true;
    }

    /** The loop writes out what the buffers of the request hold by now. */
    method Flush()
      requires Shape() && Flying() && Written() && writing && |sent| == acked + 1
      modifies this`wire, this`acked
      ensures Written() && acked == old(acked) + 1
    {
      var buffers := socket.writeBuffers;
      wire := wire + buffers[0].0[..buffers[0].1] + buffers[1].0[..buffers[1].1];
      OneMore(sent, acked);
      hide Messages, Message, Stream;
      acked := acked + 1;
    }

    /** on_close, for the socket; no callback for the other handles. */
    method CloseCb(h: Id)
      requires Sane()
      modifies loop
      ensures Sane() && Now() == Step(old(Now()), OnClose(h))
    {
      hide UvClose, Settled, Flying, Written;
      loop.Settle(h);
      if h == Socket {
        loop.Close(Sigterm);
        loop.Close(Sigint);
      }
    }

    method Dispatch(e: Event)
      requires Valid() && Enabled(Now(), e)
      modifies this, loop, socket`writeBuffers, input, msg.size_be, msg.data
      ensures Valid() && Now() == Step(old(Now()), e)
    {
      StepInv(input.bytes, Now(), e);
      Counted(input.bytes, Now(), e);
      hide Sane, Step, Enabled, Inv;
      match e {
        case OnSignal(w) => SignalCb(w);
        case OnAsync => AsyncCb();
        case OnIdle(readError, sendCode) => IdleCb(readError, sendCode);
        case OnConnect(errcode) => ConnectCb(errcode);
        case OnSend(errcode) => SendCb(errcode);
        case OnClose(h) => CloseCb(h);
      }
    }

    /** uv_run: any callbacks that the loop may make, one after the other. */
    method UvRun(es: seq<Event>)
      requires Valid() && Possible(Now(), es)
      modifies this, loop, socket`writeBuffers, input, msg.size_be, msg.data
      ensures Valid() && Now() == Run(old(Now()), es)
    {
      ghost var s := Now();
      hide Step, Enabled, Inv, Sane, Now;
      assert es[0..] == es;
      for i := 0 to |es|
        invariant Valid() && Possible(Now(), es[i..]) && Run(Now(), es[i..]) == Run(s, es)
      {
        assert es[i..][1..] == es[i + 1..];
        Dispatch(es[i]);
      }
    }
  }

  lemma {:induction false} OneMore(sent: seq<seq<Byte>>, k: nat)
    requires k < |sent| && Small(sent)
    ensures Stream(Messages(sent[..k + 1])) == Stream(Messages(sent[..k])) + Frame(Message(sent[k]))
  {
    assert sent[..k + 1] == sent[..k] + [sent[k]];
    MessagesSnoc(sent[..k], sent[k]);
    StreamAppend(Messages(sent[..k]), [Message(sent[k])]);
    StreamOne(Message(sent[k]));
  }

  lemma {:induction false} Counted(text: seq<Byte>, s: State, e: Event)
    requires Inv(text, s) && Enabled(s, e)
    ensures e.OnSend? ==> s.writing && |s.sent| == s.acked + 1
  {
    hide Orderly, InOrder;
  }

  lemma {:induction false} BeginInv(text: seq<Byte>, s: State)
    requires s == Initial(text)
    ensures Inv(text, s)
  {
    hide *;
    InitialInv(text);
  }

  lemma {:induction false} NothingWritten()
    ensures Small([]) && Stream(Messages([][..0])) == []
  {
  }

  lemma {:induction false} HeaderIs(host: Host, p: seq<Byte>)
    requires |p| < 0x1_0000_0000
    ensures var head := Header(host, Unsigned32(|p|)); head == Message(p).head && Announced(head) == |p|
  {
    MessageProper(host, p);
  }

  lemma {:induction false} FeedEnds(s: State)
    ensures RanOut([], MSG_MAX_SIZE - 1) && Remainder([]) == []
    ensures forall sendCode :: ClientSteps.Feed(s, true, sendCode) == s.(exited := true)
    ensures s.rest == [] ==> forall sendCode ::
      ClientSteps.Feed(s, false, sendCode) == s.(feof := true, inputEof := true, loop := AsyncSend(s.loop))
  {
  }

  lemma {:induction false} FeedFree(text: seq<Byte>, s: State)
    requires Inv(text, s) && !s.exited && !s.terminate && s.ready
    ensures !s.writing && Up(s, Socket)
  {
    hide InOrder;
  }

  lemma {:induction false} MessagesPrefix(ps: seq<seq<Byte>>, qs: seq<seq<Byte>>)
    requires Small(qs) && ps <= qs
    ensures Small(ps) && Messages(ps) <= Messages(qs)
  {
    if ps != [] {
      MessagesPrefix(ps[1..], qs[1..]);
    }
  }

  /** What the client has put on the wire after a run. */
  function Wire(s: State): seq<Byte>
    requires s.acked <= |s.sent| && Small(s.sent)
  {
    Stream(Messages(s.sent[..s.acked]))
  }

  lemma {:induction false} WireOf(text: seq<Byte>, s: State)
    requires InOrder(text, s) && s.acked <= |s.sent| && Small(s.sent)
    ensures var all := Payloads(Pieces(text));
      s.acked <= |all| && Small(all[..s.acked]) && Wire(s) == Stream(Messages(all[..s.acked]))
  {
    hide Payloads, Pieces, Stream, Messages;
    assert s.sent[..s.acked] == Payloads(Pieces(text))[..s.acked];
  }

  lemma {:induction false} WireIn(text: seq<Byte>, es: seq<Event>, s: State)
    requires Inv(text, s) && Answered(es, s) && s.acked <= |s.sent| && Small(s.sent)
    ensures var all, k := Payloads(Pieces(text)), Count(es, Answers);
      k <= |all| && Small(all[..k]) && Wire(s) == Stream(Messages(all[..k]))
  {
    hide Orderly, InOrder, Small, Payloads, Pieces, Wire, Messages, Stream, Up, Stopped;
    WireOf(text, s);
  }

  /** main: whatever the loop does, the wire carries, whole and in order, as many messages of the input as
      requests were answered; and the program ends by fatal exactly when a callback says so. */
  method Play(host: Host, text: seq<Byte>, es: seq<Event>) returns (exited: bool, wire: seq<Byte>)
    requires Possible(Initial(text), es)
    ensures var end := Run(Initial(text), es);
      exited == end.exited && end.acked <= |end.sent| && Small(end.sent) && wire == Wire(end)
    ensures var all, k := Payloads(Pieces(text)), Count(es, Answers);
      k <= |all| && Small(all[..k]) && wire == Stream(Messages(all[..k]))
    ensures exited <==> Failed(|Pieces(text)|, EndsOpen(text), es)
  {
    hide Possible, Run, Initial, Stream, Messages, Failed, Pieces, EndsOpen, Payloads, Inv, Small;
    var program := new Program(host, text);
    program.Start();
    program.BegunValid();
    program.UvRun(es);
    exited, wire := program.exited, program.wire;
    Account(text, es);
    WireIn(text, es, Run(Initial(text), es));
  }

  /** From the input file to the receiver's callback: after any run of the client, and any reads of the bytes
      of what it has sent, answered or still in flight, the messages delivered are the first pieces of the
      input. */
  lemma {:induction false} EndToEnd(text: seq<Byte>, es: seq<Event>, chunks: seq<seq<Byte>>)
    requires Possible(Initial(text), es) && Receiver.Schedule(chunks) && Receiver.HeadCondition(chunks)
    requires Small(Run(Initial(text), es).sent) &&
      Receiver.Flat(chunks) <= Stream(Messages(Run(Initial(text), es).sent))
    ensures Small(Payloads(Pieces(text))) && Receiver.Run(chunks).out <= Messages(Payloads(Pieces(text)))
  {
    SentInOrder(text, es);
    PayloadsSmall(text);
    var sent := Run(Initial(text), es).sent;
    hide Run, Initial, Possible, Payloads, Pieces;
    MessagesPrefix(sent, Payloads(Pieces(text)));
    MessagesProper(sent);
    hide Messages, Stream;
    Receiver.DeliveredPrefix(Messages(sent), chunks);
  }

  /** The same for the bytes of the answered messages alone. */
  lemma {:induction false} EndToEndWritten(text: seq<Byte>, es: seq<Event>, chunks: seq<seq<Byte>>)
    requires Possible(Initial(text), es) && Receiver.Schedule(chunks) && Receiver.HeadCondition(chunks)
    requires var s := Run(Initial(text), es); s.acked <= |s.sent| && Small(s.sent) && Receiver.Flat(chunks) <= Wire(s)
    ensures Small(Payloads(Pieces(text))) && Receiver.Run(chunks).out <= Messages(Payloads(Pieces(text)))
  {
    var s := Run(Initial(text), es);
    WirePrefix(s);
    hide Run, Initial, Messages, Stream, Wire;
    EndToEnd(text, es, chunks);
  }

  lemma {:induction false} WirePrefix(s: State)
    requires s.acked <= |s.sent| && Small(s.sent)
    ensures Wire(s) <= Stream(Messages(s.sent))
  {
    var ms, all := Messages(s.sent[..s.acked]), Messages(s.sent);
    MessagesPrefix(s.sent[..s.acked], s.sent);
    assert all == ms + all[|ms|..];
    StreamAppend(ms, all[|ms|..]);
  }

  /** And if the client ends without a signal and without an error, and all it wrote is read, then all of
      the input arrives. */
  lemma {:induction false} AllArrives(text: seq<Byte>, es: seq<Event>, chunks: seq<seq<Byte>>)
    requires Possible(Initial(text), es) && Quiet(es) && Receiver.Schedule(chunks) && Receiver.HeadCondition(chunks)
    requires var s := Run(Initial(text), es);
      !Alive(s.loop) && !s.exited && s.acked <= |s.sent| && Small(s.sent) && Receiver.Flat(chunks) == Wire(s)
    ensures Small(Payloads(Pieces(text))) && Receiver.Run(chunks).out == Messages(Payloads(Pieces(text)))
  {
    DrainedOnce(text, es);
    QuietSendsAll(text, es);
    var s := Run(Initial(text), es);
    hide Run, Initial, Possible, Messages, Payloads, Pieces;
    assert s.sent[..s.acked] == s.sent;
    MessagesProper(s.sent);
    Receiver.DeliveredAll(Messages(s.sent), chunks);
  }
}
