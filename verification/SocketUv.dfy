/** The socket of backend_uv.c with the incremental reader of msg_reader.c and the message buffers of
    msg.c, as the event loop drives them. */
module SocketUv {
  import opened Endian
  import opened Frames
  import opened Receiver

  const UV_EOF := -4095

  /** `(unsigned)x` for an integer or a pointer difference. */
  function Unsigned(x: int): (u: nat)
    ensures u < 0x1_0000_0000
    ensures 0 <= x < 0x1_0000_0000 ==> u == x
  {
    x % 0x1_0000_0000
  }

  /** struct sc_msg: the four bytes of `size_be`, and the data block. */
  class MsgBuf {
    const size_be: array<Byte>
    const data: array<Byte>

    /** sc_msg_alloc: the contents are whatever the allocator left there. */
    constructor (size: nat)
      ensures fresh(size_be) && fresh(data) && size_be.Length == 4 && data.Length == size && size_be != data
    {
      size_be := new Byte[4];
      data := new Byte[size];
    }

    /** sc_msg_init */
    method Init()
      requires size_be.Length == 4 && data.Length >= 1 && size_be != data
      modifies size_be, data
      ensures size_be[..] == [0, 0, 0, 0] && data[..] == old(data[..])[0 := 0]
    {
      size_be[0], size_be[1], size_be[2], size_be[3] := 0, 0, 0, 0;
      data[0] := 0;
    }

    /** sc_msg_set_size */
    method SetSize(host: Host, size: bv32)
      requires size_be.Length == 4
      modifies size_be
      ensures size_be[..] == Header(host, size) && Announced(size_be[..]) == size as nat
    {
      SizeOfHeader(host, BigEndian, size);
      hide Header, GetSize;
      var h := Header(host, size);
      size_be[0], size_be[1], size_be[2], size_be[3] := h[0], h[1], h[2], h[3];
    }

    /** sc_msg_get_size */
    function Size(host: Host): (n: nat)
      requires size_be.Length == 4
      reads size_be
      ensures n == Announced(size_be[..]) < 0x1_0000_0000
    {
      HostSize(host, size_be[..]);
      SizeRange(host, size_be[..]);
      Endian.Size(host, size_be[..])
    }
  }

  /** struct msg_reader; the two cursors are kept as offsets into `size_be` and `data`. */
  class MsgReader {
    var msg: MsgBuf?
    var head_pos: nat
    var body_pos: nat

    constructor ()
      ensures msg == null
    {
      msg, head_pos, body_pos := null, 0, 0;
    }

    /** msg_reader_init */
    method Init(m: MsgBuf)
      modifies this
      ensures msg == m && head_pos == 0 && body_pos == 0
    {
      msg, head_pos, body_pos := m, 0, 0;
    }

    /** msg_reader_avail_head_size, with the unsigned arithmetic of the source. */
    function AvailHeadSize(): nat
      reads this
    {
      Unsigned(4 - Unsigned(head_pos))
    }

    /** msg_reader_avail_body_size */
    function AvailBodySize(host: Host): nat
      requires msg != null && msg.size_be.Length == 4
      reads this, if msg == null then {} else {msg.size_be}
    {
      Unsigned(msg.Size(host) - Unsigned(body_pos))
    }

    /** msg_reader_finished */
    predicate Finished(host: Host)
      requires msg != null && msg.size_be.Length == 4
      reads this, if msg == null then {} else {msg.size_be}
    {
      AvailBodySize(host) == 0
    }

    /** msg_reader_parse_head; the result is what skip_pos did not consume. */
    method ParseHead(size: nat) returns (rest: nat)
      modifies this`head_pos
      ensures var n := old(AvailHeadSize());
        if size <= n then rest == 0 && head_pos == old(head_pos) + size
        else rest == size - n && head_pos == old(head_pos) + n
    {
      var avail := AvailHeadSize();
      head_pos, rest := SkipPos(head_pos, avail, size);
    }

    /** msg_reader_parse_body */
    method ParseBody(host: Host, size: nat) returns (rest: nat)
      requires msg != null && msg.size_be.Length == 4
      modifies this`body_pos
      ensures var n := old(AvailBodySize(host));
        if size <= n then rest == 0 && body_pos == old(body_pos) + size
        else rest == size - n && body_pos == old(body_pos) + n
    {
      var avail := AvailBodySize(host);
      body_pos, rest := SkipPos(body_pos, avail, size);
    }
  }

  /** skip_pos: the cursor moves by the smaller of the two counts. */
  method SkipPos(pos: nat, avail: nat, size: nat) returns (pos': nat, rest: nat)
    ensures pos' - pos == size - rest && pos <= pos' && (rest == 0 || pos' == pos + avail) && pos' <= pos + avail
  {
    var skip := if avail < size then avail else size;
    pos' := pos + skip;
    rest := size - skip;
  }

  /** struct socket_uv, with what its watcher has been told and a ledger of message buffers. */
  class Socket {
    const host: Host
    const reader: MsgReader
    var msg: MsgBuf?
    var writeBuffers: seq<(array<Byte>, nat)>
    var log: seq<Note>
    /** All objects this socket uses or used. */
    ghost var Repr: set<object>
    ghost var allocs: nat
    ghost var frees: nat

    /** buv_init */
    constructor (h: Host)
      ensures Valid() && Abs() == Idle && log == [] && allocs == 0 && fresh(Repr) && host == h
    {
      host := h;
      reader := new MsgReader();
      msg, writeBuffers, log := null, [], [];
      allocs, frees := 0, 0;
      Repr := {this, reader};
    }

    /** The message held, as a value; a message of which nothing has been read is like none. */
    ghost function Abs(): Held
      reads this, reader, if msg == null then {} else {msg.size_be, msg.data}
    {
      if msg == null || reader.head_pos == 0 || msg.size_be.Length < reader.head_pos ||
        msg.data.Length < reader.body_pos then Idle
      else Partial(msg.size_be[..reader.head_pos], msg.data[..reader.body_pos])
    }

    /** Shape of the buffers and cursors while a message is held. */
    ghost predicate Shape()
      reads this, reader, if msg == null then {} else {msg.size_be, msg.data}
    {
      msg != null ==>
        && reader.msg == msg && msg.size_be.Length == 4 && 1 <= msg.data.Length && msg.size_be != msg.data
        && reader.head_pos <= 4 && reader.body_pos <= msg.data.Length
    }

    /** The receiver invariant: cursors inside their regions, unread header bytes still 0, a sound
        partial message, and exactly one live buffer while a message is held, none otherwise. */
    ghost predicate Valid()
      reads this, reader, if msg == null then {} else {msg.size_be, msg.data}
    {
      && Shape() && Sound(Abs()) && this in Repr && reader in Repr
      && (msg != null ==> msg.size_be in Repr && msg.data in Repr)
      && (msg != null ==> forall i :: reader.head_pos <= i < 4 ==> msg.size_be[i] == 0)
      && (msg != null && reader.head_pos == 0 ==> reader.body_pos == 0)
      && allocs == frees + if msg == null then 0 else 1
    }

    /** alloc_wrap: which part of which buffer the event loop may fill next. It is never empty, stays
        inside one region, and asks for no more than the message still lacks. It leaves the block exactly
        if the announced body is larger than the block, and the part asked for reaches that far. */
    method AllocWrap(suggested: nat) returns (buffer: array<Byte>, base: nat, len: nat)
      requires Valid() && Unsigned(suggested) >= 1
      modifies this`msg, this`allocs, this`Repr, reader
      ensures Valid() && Abs() == old(Abs()) && msg != null
      ensures fresh(Repr - old(Repr))
      ensures if old(msg) == null then fresh({msg, msg.size_be, msg.data}) && msg.data.Length == Unsigned(suggested)
        else msg == old(msg)
      ensures buffer == if reader.head_pos < 4 then msg.size_be else msg.data
      ensures base == if reader.head_pos < 4 then reader.head_pos else reader.body_pos
      ensures base <= buffer.Length
      ensures base + len <= buffer.Length <==>
        reader.head_pos < 4 || Announced(msg.size_be[..]) <= msg.data.Length ||
          base + Unsigned(suggested) <= msg.data.Length
      ensures 0 < len == if Wanted(Abs()) < Unsigned(suggested) then Wanted(Abs()) else Unsigned(suggested)
    {
      var sz := Unsigned(suggested);
      if msg == null {
        NewMessage(sz);
      }
      HeadKnown();
      var hsize := reader.AvailHeadSize();
      var avail := 0;
      if hsize > 0 {
        buffer, base := msg.size_be, reader.head_pos;
        avail := hsize;
      } else {
        buffer, base := msg.data, reader.body_pos;
        avail := reader.AvailBodySize(host);
      }
      len := if avail < sz then avail else sz;
    }

    method NewMessage(sz: nat)
      requires Valid() && msg == null && sz >= 1
      modifies this`msg, this`allocs, this`Repr, reader
      ensures Valid() && Abs() == old(Abs()) == Idle && msg != null
      ensures fresh({msg, msg.size_be, msg.data}) && msg.data.Length == sz && reader.head_pos == 0
      ensures fresh(Repr - old(Repr))
    {
      msg := new MsgBuf(sz);
      allocs := allocs + 1;
      Repr := Repr + {msg.size_be, msg.data};
      msg.Init();
      reader.Init(msg);
    }

    /** With the header complete, `size_be` is the header read; before that the body is empty. */
    lemma HeadKnown()
      requires Valid() && msg != null
      ensures reader.head_pos == 4 ==> msg.size_be[..] == Abs().head && Padded(Abs().head) == Abs().head
      ensures reader.head_pos == 4 ==> reader.body_pos < Announced(msg.size_be[..]) < 0x1_0000_0000
      ensures reader.head_pos < 4 ==> reader.body_pos == 0 && HeadOf(Abs()) == msg.size_be[..reader.head_pos]
    {
      SizeRange(BigEndian, msg.size_be[..]);
      if reader.head_pos == 4 {
        assert msg.size_be[..4] == msg.size_be[..];
        FullHeader(msg.size_be[..]);
      }
    }

    /** The bytes `chunk` stand where alloc_wrap told the event loop to put them. */
    ghost predicate Loaded(chunk: seq<Byte>)
      reads this, reader, if msg == null then {} else {msg.size_be, msg.data}
    {
      && msg != null && Shape() && Sound(Abs()) && 0 < |chunk| <= Wanted(Abs()) && allocs == frees + 1
      && this in Repr && reader in Repr && msg.size_be in Repr && msg.data in Repr
      && (reader.head_pos == 0 ==> reader.body_pos == 0)
      && if reader.head_pos < 4
         then msg.size_be[reader.head_pos..reader.head_pos + |chunk|] == chunk &&
              forall i :: reader.head_pos + |chunk| <= i < 4 ==> msg.size_be[i] == 0
         else reader.body_pos + |chunk| <= msg.data.Length &&
              msg.data[reader.body_pos..reader.body_pos + |chunk|] == chunk
    }

    /** The cursor part of read_wrap. No byte of a read is ever left over. */
    method Advance(nread: nat, ghost chunk: seq<Byte>)
      requires Loaded(chunk) && |chunk| == nread
      modifies reader`head_pos, reader`body_pos
      ensures Shape() && msg.size_be[..] == Padded(Advanced(old(Abs()), chunk).0) &&
        reader.head_pos == |Advanced(old(Abs()), chunk).0|
      ensures msg.data[..reader.body_pos] == Advanced(old(Abs()), chunk).1
    {
      LoadedFacts(chunk);
      var rest;
      if reader.AvailHeadSize() > 0 {
        HeadGrows(msg.size_be[..], reader.head_pos, chunk);
        rest := reader.ParseHead(nread);
      } else {
        BodyGrows(msg.data[..], reader.body_pos, chunk);
        FullHeader(msg.size_be[..]);
        rest := reader.ParseBody(host, nread);
      }
      assert rest == 0;
    }

    lemma LoadedFacts(chunk: seq<Byte>)
      requires Loaded(chunk)
      ensures HeadOf(Abs()) == msg.size_be[..reader.head_pos]
      ensures reader.head_pos < 4 ==> BodyOf(Abs()) == [] && reader.body_pos == 0 && |chunk| <= 4 - reader.head_pos
      ensures reader.head_pos == 4 ==> Abs() == Partial(msg.size_be[..], msg.data[..reader.body_pos])
      ensures reader.head_pos == 4 ==> reader.body_pos + |chunk| <= Announced(msg.size_be[..]) < 0x1_0000_0000
    {
      SizeRange(BigEndian, msg.size_be[..]);
      assert reader.head_pos == 4 ==> msg.size_be[..4] == msg.size_be[..];
      if reader.head_pos == 4 {
        FullHeader(msg.size_be[..]);
      }
    }

    /** read_wrap: after a read of |chunk| bytes the socket is where the receiver's step leads, and
        the application has heard exactly what that step delivers; after the end of the stream or
        an error the message held is dropped. */
    method ReadWrap(nread: int, ghost chunk: seq<Byte>)
      requires if nread > 0 then Loaded(chunk) && |chunk| == nread else Valid()
      modifies this`log, this`msg, this`frees, reader
      ensures Valid()
      ensures nread > 0 ==>
        Sock(Abs(), log) == OnData(Sock(old(Abs()), old(log)), chunk) && (msg == null || msg == old(msg))
      ensures nread == 0 ==> Abs() == old(Abs()) && log == old(log) && msg == old(msg)
      ensures nread < 0 ==>
        msg == null && Sock(Abs(), log) == OnEnd(Sock(old(Abs()), old(log)), if nread == -4095 then 0 else nread)
    {
      var errcode := if nread >= 0 || nread == UV_EOF then 0 else nread;
      if nread < 0 {
        log := log + [Closed(errcode)];
        FreeMessage();
      } else if nread > 0 {
        ghost var held := Abs();
        StepSound(Recv(held, []), chunk);
        Advance(nread, chunk);
        hide Step, Sound, Wanted, Notes;
        Conclude(held, chunk);
      }
    }

    /** The rest of read_wrap: deliver the message if it is finished. */
    method Conclude(ghost held: Held, ghost chunk: seq<Byte>)
      requires Sound(held) && 0 < |chunk| <= Wanted(held) && Shape() && msg != null && allocs == frees + 1
      requires this in Repr && reader in Repr && msg.size_be in Repr && msg.data in Repr
      requires msg.size_be[..] == Padded(Advanced(held, chunk).0) && reader.head_pos == |Advanced(held, chunk).0|
      requires msg.data[..reader.body_pos] == Advanced(held, chunk).1
      modifies this`log, this`msg, this`frees
      ensures Valid() && Sock(Abs(), log) == OnData(Sock(held, old(log)), chunk) && (msg == null || msg == old(msg))
    {
      ghost var head, body := Advanced(held, chunk).0, Advanced(held, chunk).1;
      StepIs(held, chunk, msg.size_be[..]);
      hide Step, Wanted, Notes;
      FinishedIs();
      assert |body| == reader.body_pos;
      if reader.Finished(host) {
        log := log + [Received(Msg(msg.size_be[..], msg.data[..msg.Size(host)]))];
        FreeMessage();
      } else {
        assert msg.size_be[..reader.head_pos] == head;
      }
    }

    /** msg_reader_finished compares the body cursor with the announced size; no subtraction wraps. */
    lemma FinishedIs()
      requires msg != null && Shape() && reader.body_pos <= Announced(msg.size_be[..])
      ensures reader.Finished(host) <==> reader.body_pos == Announced(msg.size_be[..])
    {
      SizeRange(BigEndian, msg.size_be[..]);
    }

    /** The event loop fills the offered buffer. */
    static method Fill(buffer: array<Byte>, base: nat, chunk: seq<Byte>)
      requires base + |chunk| <= buffer.Length
      modifies buffer
      ensures buffer[base..base + |chunk|] == chunk
      ensures forall i :: 0 <= i < buffer.Length && !(base <= i < base + |chunk|) ==> buffer[i] == old(buffer[i])
    {
      for i := 0 to |chunk|
        invariant forall j :: 0 <= j < i ==> buffer[base + j] == chunk[j]
        invariant forall j :: 0 <= j < buffer.Length && !(base <= j < base + i) ==> buffer[j] == old(buffer[j])
      {
        buffer[base + i] := chunk[i];
      }
    }

    /** One round of the event loop: alloc_wrap, the bytes, read_wrap. */
    method Round(suggested: nat, chunk: seq<Byte>)
      requires Valid() && 0 < |chunk| <= Wanted(Abs()) && |chunk| <= Unsigned(suggested)
      requires msg != null && |HeadOf(Abs())| == 4 ==> |BodyOf(Abs())| + |chunk| <= msg.data.Length
      modifies Repr
      ensures Valid() && Sock(Abs(), log) == OnData(Sock(old(Abs()), old(log)), chunk)
      ensures fresh(Repr - old(Repr))
      ensures msg != null ==> msg.data.Length == if old(msg) == null then Unsigned(suggested) else old(msg).data.Length
    {
      hide OnData, Wanted, Step;
      var buffer, base, len := AllocWrap(suggested);
      LoadedByFill(buffer, base, chunk);
      ReadWrap(|chunk|, chunk);
    }

    method LoadedByFill(buffer: array<Byte>, base: nat, chunk: seq<Byte>)
      requires Valid() && msg != null && 0 < |chunk| <= Wanted(Abs())
      requires buffer == (if reader.head_pos < 4 then msg.size_be else msg.data) &&
        base == (if reader.head_pos < 4 then reader.head_pos else reader.body_pos)
      requires base + |chunk| <= buffer.Length
      modifies buffer
      ensures Loaded(chunk) && Abs() == old(Abs())
    {
      HeadKnown();
      ghost var head, body := msg.size_be[..reader.head_pos], msg.data[..reader.body_pos];
      Fill(buffer, base, chunk);
      assert msg.size_be[..reader.head_pos] == head && msg.data[..reader.body_pos] == body;
    }

    /** One read of a run that satisfies the hypotheses of the connection. */
    method ReadOne(suggested: nat, chunks: seq<seq<Byte>>, i: nat, ghost before: seq<Note>)
      requires Valid() && Usable(chunks, Unsigned(suggested)) && i < |chunks|
      requires msg != null ==> msg.data.Length == Unsigned(suggested)
      requires Follows(before, chunks, i, Abs(), log)
      modifies Repr
      ensures Valid() && Follows(before, chunks, i + 1, Abs(), log)
      ensures msg != null ==> msg.data.Length == Unsigned(suggested)
      ensures fresh(Repr - old(Repr))
    {
      PrefixRun(chunks, i, Unsigned(suggested));
      assert chunks[i] in chunks;
      assert Sock(Abs(), log) == Sock(Run(chunks[..i]).held, before + Notes(Run(chunks[..i]).out));
      OnDataStep(before, Run(chunks[..i]), chunks[i]);
      hide Socket.Valid, Schedule, InBlock, Notes, OnData, Usable;
      Round(suggested, chunks[i]);
    }

    /** All reads of one connection. */
    method ReadAll(suggested: nat, chunks: seq<seq<Byte>>)
      requires Valid() && msg == null && Usable(chunks, Unsigned(suggested))
      modifies Repr
      ensures Valid() && Follows(old(log), chunks, |chunks|, Abs(), log)
      ensures fresh(Repr - old(Repr))
    {
      AtStart(chunks);
      var i := 0;
      hide Socket.Valid, Socket.Abs, Usable, Follows, Socket.Shape, Unsigned;
      while i < |chunks|
        invariant i <= |chunks| && Valid() && fresh(Repr - old(Repr))
        invariant msg != null ==> msg.data.Length == Unsigned(suggested)
        invariant Follows(old(log), chunks, i, Abs(), log)
      {
        ReadOne(suggested, chunks, i, old(log));
        i := i + 1;
      }
    }

    /** One whole connection from an idle socket: the application hears the messages that the
        receiver's run delivers, then the end; nothing stays allocated. */
    method Connection(suggested: nat, chunks: seq<seq<Byte>>, nread: int, ghost sent: seq<Msg>)
      requires Valid() && msg == null && nread < 0
      requires Usable(chunks, Unsigned(suggested))
      modifies Repr
      ensures Valid() && msg == null && allocs == frees
      ensures log == old(log) + Alone(Conn(chunks, if nread == -4095 then 0 else nread))
      ensures HeadCondition(chunks) && Flat(chunks) <= Stream(sent) && (forall m :: m in sent ==> Proper(m)) ==>
        Run(chunks).out <= sent
    {
      if HeadCondition(chunks) && Flat(chunks) <= Stream(sent) && forall m :: m in sent ==> Proper(m) {
        DeliveredPrefix(sent, chunks);
      }
      ghost var before := log;
      ReadAll(suggested, chunks);
      FollowsAll(before, chunks, Abs(), log, if nread == UV_EOF then 0 else nread);
      hide Socket.Valid, Socket.Abs, Usable, Follows, Alone;
      ReadWrap(nread, []);
      AtEnd();
    }

    lemma AtStart(chunks: seq<seq<Byte>>)
      requires Valid() && msg == null
      ensures Follows(log, chunks, 0, Abs(), log)
    {
      assert chunks[..0] == [] && Notes([]) == [] && log + [] == log;
    }

    lemma AtEnd()
      requires Valid() && msg == null
      ensures allocs == frees
    {
    }

    /** buv_send: the event loop is handed the four size bytes and then the body. */
    method Send(m: MsgBuf) returns (wire: seq<Byte>)
      requires m.size_be.Length == 4 && m.Size(host) <= m.data.Length
      modifies this`writeBuffers
      ensures var body := m.data[..m.Size(host)];
        Proper(Msg(m.size_be[..], body)) && wire == Frame(Msg(m.size_be[..], body))
      ensures writeBuffers == [(m.size_be, 4), (m.data, m.Size(host))]
    {
      writeBuffers := [(m.size_be, 4), (m.data, m.Size(host))];
      wire := writeBuffers[0].0[..writeBuffers[0].1] + writeBuffers[1].0[..writeBuffers[1].1];
    }

    /** sc_msg_free and the reset of the pointer; freeing no message is no event. */
    method FreeMessage()
      modifies this`msg, this`frees
      ensures msg == null && frees == old(frees) + if old(msg) == null then 0 else 1
    {
      frees := frees + if msg == null then 0 else 1;
      msg := null;
    }
  }

  lemma {:induction false} NotesOf(out: seq<Msg>)
    ensures out == [] ==> Notes(out) == []
    ensures |out| == 1 ==> Notes(out) == [Received(out[0])]
  {
  }

  /** A step in terms of the advanced cursors. */
  lemma {:induction false} StepIs(held: Held, chunk: seq<Byte>, padded: seq<Byte>)
    requires Sound(held) && 0 < |chunk| <= Wanted(held) && padded == Padded(Advanced(held, chunk).0)
    ensures var (head, body) := Advanced(held, chunk);
      && head != [] && |body| <= Announced(padded) < 0x1_0000_0000
      && (forall i :: |head| <= i < 4 ==> padded[i] == 0) && padded[..|head|] == head
      && if |body| == Announced(padded)
         then Step(Recv(held, []), chunk) == Recv(Idle, [Msg(padded, body)]) &&
              Notes([Msg(padded, body)]) == [Received(Msg(padded, body))]
         else Step(Recv(held, []), chunk) == Recv(Partial(head, body), []) &&
              Sound(Partial(head, body)) && Notes([]) == []
  {
    SizeRange(BigEndian, padded);
    StepSound(Recv(held, []), chunk);
    NotesOf([Msg(padded, Advanced(held, chunk).1)]);
    NotesOf([]);
    if |HeadOf(held)| == 4 {
      FullHeader(held.head);
    }
  }

  /** What the event loop and the block demand of the reads of one connection: each brings at least one byte
      and no more than was offered, and body bytes stay within the block. */
  predicate Usable(chunks: seq<seq<Byte>>, capacity: nat) {
    capacity >= 1 && Schedule(chunks) && InBlock(chunks, capacity) && forall c :: c in chunks ==> |c| <= capacity
  }

  /** After i reads the socket is where the receiver's run is. */
  ghost predicate Follows(before: seq<Note>, chunks: seq<seq<Byte>>, i: nat, held: Held, log: seq<Note>) {
    i <= |chunks| && Schedule(chunks[..i]) && held == Run(chunks[..i]).held &&
      log == before + Notes(Run(chunks[..i]).out)
  }

  lemma {:induction false} FollowsAll(before: seq<Note>, chunks: seq<seq<Byte>>, held: Held, log: seq<Note>,
    errcode: int)
    requires Schedule(chunks) && Follows(before, chunks, |chunks|, held, log)
    ensures OnEnd(Sock(held, log), errcode) == Sock(Idle, before + Alone(Conn(chunks, errcode)))
  {
    assert chunks[..|chunks|] == chunks;
    assert before + Notes(Run(chunks).out) + [Closed(errcode)] == before + (Notes(Run(chunks).out) + [Closed(errcode)]);
  }

  /** A prefix of a good run is a good run, and its next read stays within the block. */
  lemma {:induction false} PrefixRun(chunks: seq<seq<Byte>>, i: nat, capacity: nat)
    requires i < |chunks| && Schedule(chunks) && InBlock(chunks, capacity)
    ensures Schedule(chunks[..i]) && Schedule(chunks[..i + 1])
    ensures Sound(Run(chunks[..i]).held) && 0 < |chunks[i]| <= Wanted(Run(chunks[..i]).held)
    ensures Run(chunks[..i + 1]) == Step(Run(chunks[..i]), chunks[i])
    ensures var h := Run(chunks[..i]).held; |HeadOf(h)| == 4 ==> |BodyOf(h)| + |chunks[i]| <= capacity
  {
    ShorterRun(chunks, i + 1, capacity);
    assert Init(chunks[..i + 1]) == chunks[..i];
    RunSound(chunks[..i]);
  }

  lemma {:induction false} ShorterRun(chunks: seq<seq<Byte>>, i: nat, capacity: nat)
    requires i <= |chunks| && Schedule(chunks) && InBlock(chunks, capacity)
    ensures Schedule(chunks[..i]) && InBlock(chunks[..i], capacity)
  {
    if i == |chunks| {
      assert chunks[..i] == chunks;
    } else {
      ShorterRun(Init(chunks), i, capacity);
      assert Init(chunks)[..i] == chunks[..i];
    }
  }

  lemma {:induction false} HeadGrows(head: seq<Byte>, h: nat, chunk: seq<Byte>)
    requires |head| == 4 && h + |chunk| <= 4 && head[h..h + |chunk|] == chunk
    requires forall i :: h + |chunk| <= i < 4 ==> head[i] == 0
    ensures head == Padded(head[..h] + chunk)
  {
    assert head[..h] + chunk == head[..h + |chunk|];
  }

  lemma {:induction false} BodyGrows(data: seq<Byte>, b: nat, chunk: seq<Byte>)
    requires b + |chunk| <= |data| && data[b..b + |chunk|] == chunk
    ensures data[..b + |chunk|] == data[..b] + chunk
  {
  }
}
