/** The one-shot decoder of disrec.c: a recorded stream is read front to back. */
module Disrec {
  import opened Endian
  import opened Frames
  import opened Receiver
  import opened Stdio

  const MAXSIZE := 1024

  /** Every size that a decoder meets is at most `capacity`. */
  predicate Within(b: seq<Byte>, capacity: nat) {
    |b| < 4 || (Announced(b[..4]) <= capacity &&
      (|b| < 4 + Announced(b[..4]) || Within(b[4 + Announced(b[..4])..], capacity)))
  }

  /** After the records printed so far, `rest` is what remains to be decoded. */
  ghost predicate Progress(bytes: seq<Byte>, printed: seq<Msg>, rest: seq<Byte>) {
    Within(rest, MAXSIZE) && Decode(bytes) == (printed + Decode(rest).0, Decode(rest).1)
  }

  lemma {:induction false} ProgressStart(bytes: seq<Byte>)
    requires Within(bytes, MAXSIZE)
    ensures Progress(bytes, [], bytes)
  {
    assert [] + Decode(bytes).0 == Decode(bytes).0;
  }

  lemma {:induction false} ProgressStep(bytes: seq<Byte>, printed: seq<Msg>, rest: seq<Byte>, m: Msg, after: seq<Byte>)
    requires Progress(bytes, printed, rest) && Proper(m) && rest == m.head + m.body + after
    ensures Progress(bytes, printed + [m], after)
  {
    Cut(rest, m.head, m.body, after);
    assert printed + ([m] + Decode(after).0) == printed + [m] + Decode(after).0;
  }

  /** The next size fits the buffer. */
  lemma {:induction false} ProgressSize(bytes: seq<Byte>, printed: seq<Msg>, rest: seq<Byte>, head: seq<Byte>,
    after: seq<Byte>)
    requires Progress(bytes, printed, rest) && |head| == 4 && rest == head + after
    ensures Announced(head) <= MAXSIZE
    ensures |after| < Announced(head) ==> Incomplete(rest)
  {
    assert rest[..4] == head;
  }

  lemma {:induction false} ProgressEnd(bytes: seq<Byte>, printed: seq<Msg>, rest: seq<Byte>)
    requires Progress(bytes, printed, rest) && Incomplete(rest)
    ensures printed == Decode(bytes).0 && Decode(bytes).1 == rest
  {
    assert printed + [] == printed;
  }

  datatype Outcome = Record(m: Msg) | EndOfFile | Truncated

  /** One turn of the loop: a size, then that many bytes. */
  method ReadRecord(host: Host, fp: File, size: array<Byte>, msg: array<Byte>, ghost printed: seq<Msg>)
    returns (r: Outcome)
    requires fp.Valid() && !fp.eof && size != msg && size.Length == 4 && msg.Length == MAXSIZE
    requires Progress(fp.bytes, printed, fp.Rest())
    modifies fp, size, msg
    ensures fp.Valid()
    ensures r.Record? ==> !fp.eof && |fp.Rest()| < |old(fp.Rest())| && Progress(fp.bytes, printed + [r.m], fp.Rest())
    ensures !r.Record? ==> fp.eof && printed == Decode(fp.bytes).0 && (r.Truncated? <==> |Decode(fp.bytes).1| >= 4)
  {
    ghost var rest := fp.Rest();
    hide Progress, Decode;
    var got := fp.Fread(size, 4);
    if got != 4 {
      ProgressEnd(fp.bytes, printed, rest);
      return EndOfFile;
    }
    assert rest == size[..] + fp.Rest();
    r := ReadBody(host, fp, size, msg, printed, rest);
  }

  /** The second half of a turn: the announced number of bytes. */
  method ReadBody(host: Host, fp: File, size: array<Byte>, msg: array<Byte>, ghost printed: seq<Msg>,
    ghost rest: seq<Byte>) returns (r: Outcome)
    requires fp.Valid() && !fp.eof && size != msg && size.Length == 4 && msg.Length == MAXSIZE
    requires Progress(fp.bytes, printed, rest) && rest == size[..] + fp.Rest()
    modifies fp, msg
    ensures fp.Valid()
    ensures r.Record? ==> !fp.eof && |fp.Rest()| < |rest| && Progress(fp.bytes, printed + [r.m], fp.Rest())
    ensures r.Truncated? ==> fp.eof && printed == Decode(fp.bytes).0 && |Decode(fp.bytes).1| >= 4
    ensures !r.EndOfFile?
  {
    var head := size[..];
    ghost var after := fp.Rest();
    ProgressSize(fp.bytes, printed, rest, head, after);
    HostSize(host, head);
    hide Progress, Decode, Announced, Within, Size;
    var n := Size(host, head);
    var got := fp.Fread(msg, n);
    if got != n {
      ProgressEnd(fp.bytes, printed, rest);
      return Truncated;
    }
    r := Record(Msg(head, msg[..n]));
    assert rest == head + msg[..n] + fp.Rest();
    ProgressStep(fp.bytes, printed, rest, r.m, fp.Rest());
  }

  /** What disrec makes of a file: the records it prints, and whether it ends in a call of fatal. A
      truncated body is fatal, while one to three left-over header bytes are passed over in silence. */
  datatype Output = Output(printed: seq<Msg>, fatal: bool)

  function Disrec(bytes: seq<Byte>): Output {
    Output(Decode(bytes).0, |Decode(bytes).1| >= 4)
  }

  /** main: what is printed is what the reference decoder finds. */
  method DecodeFile(host: Host, bytes: seq<Byte>) returns (printed: seq<Msg>, fatal: bool)
    requires Within(bytes, 1024)
    ensures Output(printed, fatal) == Disrec(bytes)
  {
    var fp := new File(bytes);
    var size := new Byte[4];
    var msg := new Byte[MAXSIZE];
    printed := [];
    ProgressStart(bytes);
    hide Progress, Decode, Within;
    while true
      invariant fp.Valid() && fp.bytes == bytes && !fp.eof && fresh(fp) && fresh(size) && fresh(msg) && size != msg
      invariant Progress(bytes, printed, fp.Rest())
      decreases |fp.Rest()|
    {
      var r := ReadRecord(host, fp, size, msg, printed);
      match r {
        case Record(m) => printed := printed + [m];
        case EndOfFile => break;
        case Truncated => return printed, true;
      }
    }
    fatal := !fp.eof;
  }

  /** The incremental receiver and the one-shot decoder agree on the same bytes, in what comes out and in
      what is left over, if and only if the head condition holds; what is left over shows as fatal. */
  lemma {:induction false} ReceiverRefinesDisrec(chunks: seq<seq<Byte>>)
    requires Schedule(chunks)
    ensures var r, d := Run(chunks), Disrec(Flat(chunks));
      && (HeadCondition(chunks) <==> r.out == d.printed && Stream(d.printed) + HeldBytes(r.held) == Flat(chunks))
      && (HeadCondition(chunks) ==> (d.fatal <==> |HeadOf(r.held)| == 4))
  {
    RunDecodes(chunks);
    RunSound(chunks);
    Conservation(chunks);
  }

  lemma {:induction false} SmallSizes()
    ensures Announced([0, 0, 0, 0]) == 0 && Announced([0, 0, 0, 4]) == 4 && Announced([0, 0, 4, 0]) == 1024
  {
    GetSizeIsBigEndian(BigEndian, [0, 0, 0, 0]);
    GetSizeIsBigEndian(BigEndian, [0, 0, 0, 4]);
    GetSizeIsBigEndian(BigEndian, [0, 0, 4, 0]);
    assert Word(0, 0, 0, 0) == 0 && Word(0, 0, 0, 4) == 4 && Word(0, 0, 4, 0) == 1024;
  }

  /** One more read on a schedule. */
  lemma {:induction false} OneMore(front: seq<seq<Byte>>, c: seq<Byte>)
    requires Schedule(front) && Sound(Run(front).held) && 0 < |c| <= Wanted(Run(front).held)
    ensures Schedule(front + [c]) && Run(front + [c]) == Step(Run(front), c) && Flat(front + [c]) == Flat(front) + c
    ensures HeadCondition(front + [c]) <==> HeadCondition(front) && !SplitZeroHead(Run(front), c)
  {
    assert Init(front + [c]) == front && Last(front + [c]) == c;
  }

  lemma {:induction false} FirstRead(r: Recv, a: seq<Byte>, e: Msg)
    requires r == Recv(Idle, []) && a == [0, 0, 0] && e == Msg([0, 0, 0, 0], [])
    ensures Sound(r.held) && Wanted(r.held) == 4 && Step(r, a) == Recv(Idle, [e]) && SplitZeroHead(r, a)
  {
    assert [] + a == a;
    StepBytes(r, a);
  }

  lemma {:induction false} SecondRead(r: Recv, b: seq<Byte>)
    requires r.held == Idle && b == [0, 0, 0, 4]
    ensures Wanted(r.held) == 4 && Step(r, b) == Recv(Partial(b, []), r.out)
  {
    SmallSizes();
    FullHeader(b);
    hide Announced;
    assert [] + b == b;
  }

  lemma {:induction false} ThirdRead(r: Recv, b: seq<Byte>, c: seq<Byte>)
    requires r.held == Partial(b, []) && b == [0, 0, 0, 4] && c == [0]
    ensures Sound(r.held) && Wanted(r.held) == 4 && Step(r, c) == Recv(Partial(b, c), r.out)
  {
    SmallSizes();
    FullHeader(b);
    hide Announced;
    assert [] + c == c;
  }

  /** Three reads: an empty message is made up early, and the bytes that it should have used shift the next
      header. */
  lemma {:induction false} ShiftedRun()
    ensures var chunks: seq<seq<Byte>> := [[0, 0, 0], [0, 0, 0, 4], [0]];
      && Schedule(chunks) && !HeadCondition(chunks) && Flat(chunks) == [0, 0, 0, 0, 0, 0, 4, 0]
      && Run(chunks) == Recv(Partial([0, 0, 0, 4], [0]), [Msg([0, 0, 0, 0], [])])
  {
    var a: seq<Byte>, b: seq<Byte>, c: seq<Byte> := [0, 0, 0], [0, 0, 0, 4], [0];
    var e := Msg([0, 0, 0, 0], []);
    assert Schedule([]) && Run([]) == Recv(Idle, []) && Flat([]) == [];
    hide Announced, Step, Sound, Wanted, SplitZeroHead, Schedule, Run, Flat, HeadCondition;
    FirstRead(Recv(Idle, []), a, e);
    OneMore([], a);
    assert [] + [a] == [a];
    IdleSound();
    SecondRead(Recv(Idle, [e]), b);
    OneMore([a], b);
    assert [a] + [b] == [a, b];
    ThirdRead(Recv(Partial(b, []), [e]), b, c);
    OneMore([a, b], c);
    assert [a, b] + [c] == [a, b, c];
    assert [] + a + b + c == [0, 0, 0, 0, 0, 0, 4, 0];
  }

  lemma {:induction false} IdleSound()
    ensures Sound(Idle)
  {
  }

  lemma {:induction false} ShiftedFile()
    ensures var bytes: seq<Byte> := [0, 0, 0, 0, 0, 0, 4, 0];
      Within(bytes, MAXSIZE) && Disrec(bytes) == Output([Msg([0, 0, 0, 0], [])], true)
  {
    var bytes: seq<Byte> := [0, 0, 0, 0, 0, 0, 4, 0];
    SmallSizes();
    hide Announced;
    assert bytes[..4] == [0, 0, 0, 0] && bytes[4..] == [0, 0, 4, 0] && bytes[4..4] == [];
    assert bytes[4..][..4] == [0, 0, 4, 0];
    assert Decode(bytes[4..]) == ([], bytes[4..]);
  }

  /** Without the left-over bytes the two may agree by accident. */
  lemma {:induction false} AccidentalAgreement()
    ensures var chunks: seq<seq<Byte>> := [[0, 0, 0], [0, 0, 0, 4], [0]];
      && Schedule(chunks) && !HeadCondition(chunks) && Within(Flat(chunks), MAXSIZE)
      && Disrec(Flat(chunks)) == Output(Run(chunks).out, |HeadOf(Run(chunks).held)| == 4)
  {
    ShiftedRun();
    ShiftedFile();
    hide Schedule, Run, Flat, HeadCondition, Within, Disrec;
  }
}
