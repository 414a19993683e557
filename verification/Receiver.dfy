/** The receiving side as values: what one socket holds between two callbacks, what a read does to
    it, and what whole runs of reads deliver. */
module Receiver {
  import opened Endian
  import opened Frames

  /** The message under construction: none, or the header and body bytes read so far. */
  datatype Held = Idle | Partial(head: seq<Byte>, body: seq<Byte>)

  datatype Recv = Recv(held: Held, out: seq<Msg>)

  /** The header as the code sees it: bytes not read yet are still 0. */
  function Padded(head: seq<Byte>): (h: seq<Byte>)
    requires |head| <= 4
    ensures |h| == 4
  {
    head + seq(4 - |head|, _ => 0)
  }

  function HeadOf(h: Held): seq<Byte> {
    if h.Idle? then [] else h.head
  }

  function BodyOf(h: Held): seq<Byte> {
    if h.Idle? then [] else h.body
  }

  /** The bytes a socket holds that have not been delivered. */
  function HeldBytes(h: Held): seq<Byte> {
    HeadOf(h) + BodyOf(h)
  }

  /** Between callbacks: body bytes only below a complete header, never a finished message. */
  predicate Sound(h: Held) {
    h.Partial? ==>
      && |h.head| <= 4 && (h.body != [] ==> |h.head| == 4)
      && (h.head != [] ==> |h.body| < Announced(Padded(h.head)))
  }

  /** How many bytes the next read may bring at most, apart from the caller's own limit. */
  function Wanted(h: Held): nat
    requires Sound(h)
  {
    if |HeadOf(h)| < 4 then 4 - |HeadOf(h)| else Announced(h.head) - |h.body|
  }

  /** One read: the bytes go to the header or to the body, and a message whose body is as long as
      the header bytes read so far say is delivered. */
  function Step(r: Recv, chunk: seq<Byte>): Recv
    requires Sound(r.held) && 0 < |chunk| <= Wanted(r.held)
  {
    var h, b := HeadOf(r.held), BodyOf(r.held);
    var head := if |h| < 4 then h + chunk else h;
    var body := if |h| < 4 then b else b + chunk;
    if Announced(Padded(head)) == |body| then Recv(Idle, r.out + [Msg(Padded(head), body)])
    else Recv(Partial(head, body), r.out)
  }

  lemma {:induction false} FullHeader(head: seq<Byte>)
    requires |head| == 4
    ensures Padded(head) == head
  {
  }

  lemma {:induction false} StepSound(r: Recv, chunk: seq<Byte>)
    requires Sound(r.held) && 0 < |chunk| <= Wanted(r.held)
    ensures Sound(Step(r, chunk).held)
    ensures forall m :: m in Step(r, chunk).out ==> m in r.out || Proper(m)
  {
    var h, b := HeadOf(r.held), BodyOf(r.held);
    if |h| == 4 {
      FullHeader(h);
    } else {
      var head := h + chunk;
      assert b == [];
      if |head| == 4 { FullHeader(head); }
    }
  }

  /** The case in which a header is taken for complete too early: it ends inside its four bytes
      and those read so far are all 0. */
  predicate SplitZeroHead(r: Recv, chunk: seq<Byte>)
    requires Sound(r.held)
  {
    var head := HeadOf(r.held) + chunk;
    |HeadOf(r.held)| < 4 && |head| < 4 && forall i :: 0 <= i < |head| ==> head[i] == 0
  }

  /** The two cursors after a read, before it is decided whether the message is finished. */
  function Advanced(h: Held, chunk: seq<Byte>): (seq<Byte>, seq<Byte>) {
    if |HeadOf(h)| < 4 then (HeadOf(h) + chunk, BodyOf(h)) else (HeadOf(h), BodyOf(h) + chunk)
  }

  lemma {:induction false} AdvancedBytes(h: Held, chunk: seq<Byte>)
    requires Sound(h)
    ensures Advanced(h, chunk).0 + Advanced(h, chunk).1 == HeldBytes(h) + chunk
    ensures |HeadOf(h)| < 4 ==> Advanced(h, chunk).1 == []
  {
  }

  /** A message can only be finished too early inside a header of zero bytes. */
  lemma {:induction false} FinishedEarly(head: seq<Byte>, body: seq<Byte>)
    requires |head| < 4 && body == []
    ensures Announced(Padded(head)) == |body| <==> forall i :: 0 <= i < |head| ==> head[i] == 0
  {
    ZeroSize(BigEndian, Padded(head));
    hide Size;
    if forall i :: 0 <= i < |head| ==> head[i] == 0 {
      assert Padded(head) == [0, 0, 0, 0];
    } else {
      var i :| 0 <= i < |head| && head[i] != 0;
      assert Padded(head)[i] != 0;
    }
  }

  lemma {:induction false} StreamSnoc(ms: seq<Msg>, m: Msg)
    ensures Stream(ms + [m]) == Stream(ms) + (m.head + m.body)
  {
    StreamAppend(ms, [m]);
    assert Stream([m]) == Frame(m) + Stream([]) == Frame(m);
  }

  /** A read conserves bytes unless it is of that kind; then bytes are made up. */
  lemma {:induction false} StepBytes(r: Recv, chunk: seq<Byte>)
    requires Sound(r.held) && 0 < |chunk| <= Wanted(r.held)
    ensures var r' := Step(r, chunk);
      if SplitZeroHead(r, chunk)
      then r' == Recv(Idle, r.out + [Msg([0, 0, 0, 0], [])]) && |HeadOf(r.held) + chunk| < 4 && BodyOf(r.held) == []
      else Stream(r'.out) + HeldBytes(r'.held) == Stream(r.out) + (HeldBytes(r.held) + chunk)
  {
    var (head, body) := Advanced(r.held, chunk);
    AdvancedBytes(r.held, chunk);
    if |head| < 4 {
      FinishedEarly(head, body);
    } else {
      FullHeader(head);
    }
    if SplitZeroHead(r, chunk) {
      assert Padded(head) == [0, 0, 0, 0];
    } else if Announced(Padded(head)) == |body| {
      StreamSnoc(r.out, Msg(head, body));
    }
  }

  // ---- runs ----

  /** Every read brings at least one byte and no more than was asked for. */
  predicate Schedule(chunks: seq<seq<Byte>>)
    decreases |chunks|, 0
  {
    chunks == [] ||
    (Schedule(Init(chunks)) && 0 < |Last(chunks)| && Sound(Run(Init(chunks)).held) &&
     |Last(chunks)| <= Wanted(Run(Init(chunks)).held))
  }

  function Init(chunks: seq<seq<Byte>>): seq<seq<Byte>>
    requires chunks != []
  {
    chunks[..|chunks| - 1]
  }

  function Last(chunks: seq<seq<Byte>>): seq<Byte>
    requires chunks != []
  {
    chunks[|chunks| - 1]
  }

  /** The state after all reads of a fresh connection. */
  function Run(chunks: seq<seq<Byte>>): Recv
    requires Schedule(chunks)
    decreases |chunks|, 1
  {
    if chunks == [] then Recv(Idle, []) else Step(Run(Init(chunks)), Last(chunks))
  }

  /** No read ends inside a header of which only zero bytes have been read. */
  predicate HeadCondition(chunks: seq<seq<Byte>>)
    requires Schedule(chunks)
  {
    chunks == [] || (HeadCondition(Init(chunks)) && !SplitZeroHead(Run(Init(chunks)), Last(chunks)))
  }

  /** The bytes of the connection so far. */
  function Flat(chunks: seq<seq<Byte>>): seq<Byte> {
    if chunks == [] then [] else Flat(Init(chunks)) + Last(chunks)
  }

  /** What every run keeps: the cursors stay in their regions, and only proper messages go out. */
  lemma {:induction false} RunSound(chunks: seq<seq<Byte>>)
    requires Schedule(chunks)
    ensures Sound(Run(chunks).held)
    ensures forall m :: m in Run(chunks).out ==> Proper(m)
  {
    if chunks != [] {
      RunSound(Init(chunks));
      StepSound(Run(Init(chunks)), Last(chunks));
    }
  }

  /** Every read makes progress within the message: the header grows, or the header stays and less
      of the body is missing. */
  lemma {:induction false} StepProgress(r: Recv, chunk: seq<Byte>)
    requires Sound(r.held) && 0 < |chunk| <= Wanted(r.held) && Step(r, chunk).held.Partial?
    ensures var h, h' := r.held, Step(r, chunk).held;
      Sound(h') && if |HeadOf(h)| < 4 then |h'.head| == |HeadOf(h)| + |chunk|
      else h'.head == h.head && Wanted(h') == Wanted(h) - |chunk|
  {
    StepSound(r, chunk);
    if |HeadOf(r.held)| == 4 {
      FullHeader(r.held.head);
    }
  }

  /** Under the head condition no byte is lost or made up; without it bytes are made up. */
  lemma {:induction false} RunBytes(chunks: seq<seq<Byte>>)
    requires Schedule(chunks)
    ensures var r := Run(chunks);
      if HeadCondition(chunks) then Stream(r.out) + HeldBytes(r.held) == Flat(chunks)
      else |Stream(r.out) + HeldBytes(r.held)| > |Flat(chunks)|
  {
    if chunks == [] {
      assert Stream([]) == [];
    } else {
      RunSound(Init(chunks));
      RunBytes(Init(chunks));
      StepCount(Run(Init(chunks)), Last(chunks));
    }
  }

  lemma {:induction false} StepCount(r: Recv, c: seq<Byte>)
    requires Sound(r.held) && 0 < |c| <= Wanted(r.held)
    ensures var r' := Step(r, c);
      var s, s' := Stream(r.out) + HeldBytes(r.held), Stream(r'.out) + HeldBytes(r'.held);
      && (SplitZeroHead(r, c) ==> |s'| > |s + c|)
      && (!SplitZeroHead(r, c) ==> s' == s + c)
  {
    hide Step, Sound, Wanted, SplitZeroHead, Stream;
    StepBytes(r, c);
    if SplitZeroHead(r, c) {
      var m := Msg([0, 0, 0, 0], []);
      StreamSnoc(r.out, m);
      assert |Stream(r.out + [m])| == |Stream(r.out)| + 4;
      assert |HeldBytes(r.held)| + |c| < 4;
    } else {
      Assoc(Stream(r.out), HeldBytes(r.held), c);
    }
  }

  /** The head condition is exactly what conservation needs: delivered frames and the partial frame
      together are the bytes that were read, if and only if it holds. */
  lemma {:induction false} Conservation(chunks: seq<seq<Byte>>)
    requires Schedule(chunks)
    ensures HeadCondition(chunks) <==> Stream(Run(chunks).out) + HeldBytes(Run(chunks).held) == Flat(chunks)
  {
    RunBytes(chunks);
  }

  lemma {:induction false} HeldIncomplete(h: Held)
    requires Sound(h)
    ensures Incomplete(HeldBytes(h))
  {
    if |HeadOf(h)| == 4 {
      FullHeader(h.head);
      assert HeldBytes(h)[..4] == h.head;
    }
  }

  /** A run computes what the reference decoder computes on all its bytes at once, messages and rest,
      if and only if the head condition holds. */
  lemma {:induction false} RunDecodes(chunks: seq<seq<Byte>>)
    requires Schedule(chunks)
    ensures HeadCondition(chunks) <==> (Run(chunks).out, HeldBytes(Run(chunks).held)) == Decode(Flat(chunks))
  {
    RunSound(chunks);
    Conservation(chunks);
    DecodeKeeps(Flat(chunks));
    HeldIncomplete(Run(chunks).held);
    hide Run, Flat, HeadCondition, Schedule, Decode, Stream, HeldBytes, Sound, Incomplete;
    if HeadCondition(chunks) {
      DecodeStream(Run(chunks).out, HeldBytes(Run(chunks).held));
    }
  }

  /** However the same bytes are cut, the same messages come out. */
  lemma {:induction false} ChunkingIndependent(chunks: seq<seq<Byte>>, others: seq<seq<Byte>>)
    requires Schedule(chunks) && HeadCondition(chunks) && Schedule(others) && HeadCondition(others)
    requires Flat(chunks) == Flat(others)
    ensures Run(chunks).out == Run(others).out && HeldBytes(Run(chunks).held) == HeldBytes(Run(others).held)
  {
    RunDecodes(chunks);
    RunDecodes(others);
  }

  /** At every moment the delivered messages are a prefix of those sent. */
  lemma {:induction false} DeliveredPrefix(ms: seq<Msg>, chunks: seq<seq<Byte>>)
    requires (forall m :: m in ms ==> Proper(m)) && Schedule(chunks) && HeadCondition(chunks)
    requires Flat(chunks) <= Stream(ms)
    ensures Run(chunks).out <= ms
  {
    RunDecodes(chunks);
    DecodePrefix(ms, Flat(chunks));
  }

  /** Once everything sent has been read, everything sent has been delivered and nothing is held,
      if and only if the head condition held throughout. */
  lemma {:induction false} DeliveredAll(ms: seq<Msg>, chunks: seq<seq<Byte>>)
    requires (forall m :: m in ms ==> Proper(m)) && Schedule(chunks) && Flat(chunks) == Stream(ms)
    ensures HeadCondition(chunks) <==> Run(chunks).out == ms && HeldBytes(Run(chunks).held) == []
  {
    Conservation(chunks);
    assert Stream(ms) + [] == Stream(ms);
    if HeadCondition(chunks) {
      RunDecodes(chunks);
      assert Incomplete([]);
      DecodeStream(ms, []);
    }
  }

  /** After the first i reads, the next one completes the header it is in, if it is in one. */
  predicate HeadWhole(chunks: seq<seq<Byte>>, i: nat)
    requires i < |chunks|
  {
    Schedule(chunks[..i]) && var h := HeadOf(Run(chunks[..i]).held); |h| < 4 ==> |h| + |chunks[i]| == 4
  }

  /** A header read at once always meets the condition. */
  lemma {:induction false} WholeHeads(chunks: seq<seq<Byte>>)
    requires Schedule(chunks)
    requires forall i :: 0 <= i < |chunks| ==> HeadWhole(chunks, i)
    ensures HeadCondition(chunks)
  {
    hide HeadWhole, Run, SplitZeroHead;
    if chunks != [] {
      var c := Init(chunks);
      LastWhole(chunks);
      forall i | 0 <= i < |c| ensures HeadWhole(c, i) {
        assert HeadWhole(chunks, i);
        SameWhole(chunks, i);
      }
      WholeHeads(c);
    }
  }

  lemma {:induction false} SameWhole(chunks: seq<seq<Byte>>, i: nat)
    requires i < |chunks| - 1 && HeadWhole(chunks, i)
    ensures HeadWhole(Init(chunks), i)
  {
    assert Init(chunks)[..i] == chunks[..i] && Init(chunks)[i] == chunks[i];
  }

  lemma {:induction false} LastWhole(chunks: seq<seq<Byte>>)
    requires chunks != [] && Schedule(chunks) && HeadWhole(chunks, |chunks| - 1)
    ensures !SplitZeroHead(Run(Init(chunks)), Last(chunks))
  {
    assert chunks[..|chunks| - 1] == Init(chunks);
  }

  /** The condition can fail: one zero byte of a header, read alone, is delivered as an empty
      message, although the sender wrote no such message. */
  lemma {:induction false} SplitHeadWitness()
    ensures Schedule([[0]]) && !HeadCondition([[0]]) && Run([[0]]).out == [Msg([0, 0, 0, 0], [])]
    ensures var m := Msg([0, 0, 0, 1], [7]); Proper(m) && Flat([[0]]) <= Stream([m]) && !(Run([[0]]).out <= [m])
  {
    var c: seq<seq<Byte>> := [[0]];
    assert Init(c) == [] && Last(c) == [0];
    assert Schedule([]) && Run([]) == Recv(Idle, []);
    StepBytes(Recv(Idle, []), [0]);
    GetSizeIsBigEndian(BigEndian, [0, 0, 0, 1]);
    assert Flat(c) == Flat([]) + [0] == [0];
    var m := Msg([0, 0, 0, 1], [7]);
    assert Word(0, 0, 0, 1) == 1;
    assert Stream([m]) == Frame(m) + Stream([]);
    assert [m][0] != Run(c).out[0];
  }

  lemma {:induction false} StreamRest(ms: seq<Msg>, out: seq<Msg>, b: seq<Byte>)
    requires out <= ms && Stream(out) + b <= Stream(ms)
    ensures b <= Stream(ms[|out|..])
  {
    assert ms == out + ms[|out|..];
    StreamAppend(out, ms[|out|..]);
    assert (Stream(out) + b)[|Stream(out)|..] == b;
    assert Stream(ms)[|Stream(out)|..] == Stream(ms[|out|..]);
  }

  /** If every message sent fits the capacity, so does every header the receiver completes. */
  lemma {:induction false} CapacityKept(ms: seq<Msg>, chunks: seq<seq<Byte>>, capacity: nat)
    requires (forall m :: m in ms ==> Proper(m) && |m.body| <= capacity) && Schedule(chunks) && HeadCondition(chunks)
    requires Flat(chunks) <= Stream(ms) && |HeadOf(Run(chunks).held)| == 4
    ensures Announced(HeadOf(Run(chunks).held)) <= capacity
  {
    var r := Run(chunks);
    RunBytes(chunks);
    DeliveredPrefix(ms, chunks);
    StreamRest(ms, r.out, HeldBytes(r.held));
    var rest := ms[|r.out|..];
    assert rest != [] by {
      assert |HeldBytes(r.held)| >= 4;
      assert Stream([]) == [];
    }
    var m := rest[0];
    assert m in ms;
    assert HeldBytes(r.held)[..4] == HeadOf(r.held);
    assert Stream(rest)[..4] == m.head;
  }

  /** Every read of body bytes stays within a block of `capacity` bytes. */
  predicate InBlock(chunks: seq<seq<Byte>>, capacity: nat)
    requires Schedule(chunks)
  {
    chunks == [] ||
    (InBlock(Init(chunks), capacity) &&
     var h := Run(Init(chunks)).held; |HeadOf(h)| == 4 ==> |BodyOf(h)| + |Last(chunks)| <= capacity)
  }

  /** So it is when every message sent fits, and the head condition holds. */
  lemma {:induction false} CapacityInBlock(ms: seq<Msg>, chunks: seq<seq<Byte>>, capacity: nat)
    requires (forall m :: m in ms ==> Proper(m) && |m.body| <= capacity) && Schedule(chunks) && HeadCondition(chunks)
    requires Flat(chunks) <= Stream(ms)
    ensures InBlock(chunks, capacity)
  {
    if chunks != [] {
      var front := Init(chunks);
      assert Flat(front) <= Flat(chunks);
      CapacityInBlock(ms, front, capacity);
      if |HeadOf(Run(front).held)| == 4 {
        CapacityKept(ms, front, capacity);
      }
    }
  }

  // ---- several connections through one socket ----

  /** What the application hears: a message, or the end of a connection. */
  datatype Note = Received(m: Msg) | Closed(errcode: int)

  function Notes(out: seq<Msg>): seq<Note> {
    seq(|out|, i requires 0 <= i < |out| => Received(out[i]))
  }

  datatype Sock = Sock(held: Held, log: seq<Note>)

  /** A read on a socket, and the end of its connection. */
  function OnData(s: Sock, chunk: seq<Byte>): Sock
    requires Sound(s.held) && 0 < |chunk| <= Wanted(s.held)
  {
    var r := Step(Recv(s.held, []), chunk);
    Sock(r.held, s.log + Notes(r.out))
  }

  function OnEnd(s: Sock, errcode: int): Sock {
    Sock(Idle, s.log + [Closed(errcode)])
  }

  datatype Conn = Conn(chunks: seq<seq<Byte>>, errcode: int)

  /** All reads of one connection, from any state of the socket. */
  predicate CanFeed(s: Sock, chunks: seq<seq<Byte>>)
    decreases |chunks|, 0
  {
    chunks == [] ||
    (CanFeed(s, Init(chunks)) && Sound(Feed(s, Init(chunks)).held) &&
      0 < |Last(chunks)| <= Wanted(Feed(s, Init(chunks)).held))
  }

  function Feed(s: Sock, chunks: seq<seq<Byte>>): Sock
    requires CanFeed(s, chunks)
    decreases |chunks|, 1
  {
    if chunks == [] then s else OnData(Feed(s, Init(chunks)), Last(chunks))
  }

  lemma {:induction false} StepOut(r: Recv, chunk: seq<Byte>)
    requires Sound(r.held) && 0 < |chunk| <= Wanted(r.held)
    ensures Step(r, chunk).held == Step(Recv(r.held, []), chunk).held
    ensures Step(r, chunk).out == r.out + Step(Recv(r.held, []), chunk).out
  {
  }

  lemma {:induction false} NotesAppend(a: seq<Msg>, b: seq<Msg>)
    ensures Notes(a + b) == Notes(a) + Notes(b)
  {
  }

  /** One read seen from the socket's log. */
  lemma {:induction false} OnDataStep(log: seq<Note>, r: Recv, chunk: seq<Byte>)
    requires Sound(r.held) && 0 < |chunk| <= Wanted(r.held)
    ensures OnData(Sock(r.held, log + Notes(r.out)), chunk) ==
      Sock(Step(r, chunk).held, log + Notes(Step(r, chunk).out))
  {
    StepOut(r, chunk);
    hide Step, Sound, Wanted, Notes;
    var more := Step(Recv(r.held, []), chunk).out;
    NotesAppend(r.out, more);
    assert log + Notes(r.out) + Notes(more) == log + (Notes(r.out) + Notes(more));
  }

  /** A connection on an idle socket is the run of its own bytes, whatever was logged before. */
  lemma {:induction false} FeedIdle(log: seq<Note>, chunks: seq<seq<Byte>>)
    requires Schedule(chunks)
    ensures CanFeed(Sock(Idle, log), chunks)
    ensures Feed(Sock(Idle, log), chunks) == Sock(Run(chunks).held, log + Notes(Run(chunks).out))
  {
    hide Step, Sound, Wanted, OnData;
    if chunks == [] {
      assert Notes([]) == [];
      assert log + [] == log;
    } else {
      FeedIdle(log, Init(chunks));
      OnDataStep(log, Run(Init(chunks)), Last(chunks));
    }
  }

  /** Connections one after another; each is ended by EOF (0) or an error. */
  predicate CanServe(s: Sock, conns: seq<Conn>)
    decreases |conns|, 0
  {
    conns == [] || (CanServe(s, conns[..|conns| - 1]) &&
      CanFeed(Serve(s, conns[..|conns| - 1]), conns[|conns| - 1].chunks))
  }

  function Serve(s: Sock, conns: seq<Conn>): Sock
    requires CanServe(s, conns)
    decreases |conns|, 1
  {
    if conns == [] then s
    else OnEnd(Feed(Serve(s, conns[..|conns| - 1]), conns[|conns| - 1].chunks), conns[|conns| - 1].errcode)
  }

  /** What connection k alone makes the application hear. */
  function Alone(c: Conn): seq<Note>
    requires Schedule(c.chunks)
  {
    Notes(Run(c.chunks).out) + [Closed(c.errcode)]
  }

  function AllAlone(conns: seq<Conn>): seq<Note>
    requires forall c :: c in conns ==> Schedule(c.chunks)
  {
    if conns == [] then [] else AllAlone(conns[..|conns| - 1]) + Alone(conns[|conns| - 1])
  }

  /** A connection never affects a later one, even when it ends in the middle of a message: the log
      is that of the separate connections, and each of them delivers only its own bytes. */
  lemma {:induction false} ConnectionsIndependent(conns: seq<Conn>)
    requires forall c :: c in conns ==> Schedule(c.chunks)
    ensures CanServe(Sock(Idle, []), conns)
    ensures Serve(Sock(Idle, []), conns) == Sock(Idle, AllAlone(conns))
  {
    if conns != [] {
      var init, c := conns[..|conns| - 1], conns[|conns| - 1];
      ConnectionsIndependent(init);
      assert c in conns;
      FeedIdle(AllAlone(init), c.chunks);
      hide Feed, CanFeed, Run, Notes;
      assert AllAlone(init) + Notes(Run(c.chunks).out) + [Closed(c.errcode)] == AllAlone(init) + Alone(c);
    }
  }
}
