/** The wire format: a message is a four-byte big-endian size followed by that many bytes. */
module Frames {
  import opened Endian

  datatype Msg = Msg(head: seq<Byte>, body: seq<Byte>)

  /** The size that four header bytes announce. */
  function Announced(head: seq<Byte>): nat
    requires |head| == 4
  {
    Size(BigEndian, head)
  }

  /** Hosts of either byte order read the same size out of a header. */
  lemma {:induction false} HostSize(host: Host, head: seq<Byte>)
    requires |head| == 4
    ensures Size(host, head) == Announced(head)
  {
    GetSizeIsBigEndian(host, head);
    GetSizeIsBigEndian(BigEndian, head);
  }

  predicate Proper(m: Msg) {
    |m.head| == 4 && |m.body| == Announced(m.head)
  }

  function Frame(m: Msg): seq<Byte> {
    m.head + m.body
  }

  function Stream(ms: seq<Msg>): seq<Byte> {
    if ms == [] then [] else Frame(ms[0]) + Stream(ms[1..])
  }

  /** The reference decoder: all complete messages at the front, and what is left. */
  function Decode(b: seq<Byte>): (r: (seq<Msg>, seq<Byte>))
  {
    if |b| < 4 || |b| < 4 + Announced(b[..4]) then ([], b)
    else
      var n := 4 + Announced(b[..4]);
      var rest := Decode(b[n..]);
      ([Msg(b[..4], b[4..n])] + rest.0, rest.1)
  }

  /** Not one complete message. */
  predicate Incomplete(b: seq<Byte>) {
    |b| < 4 || |b| < 4 + Announced(b[..4])
  }

  /** A sequence cut into header, body and rest. */
  lemma {:induction false} Cut(b: seq<Byte>, h: seq<Byte>, d: seq<Byte>, r: seq<Byte>)
    requires |h| == 4
    ensures b == h + d + r <==> |b| >= 4 + |d| && b[..4] == h && b[4..4 + |d|] == d && b[4 + |d|..] == r
  {
    if |b| >= 4 + |d| {
      assert b == b[..4] + b[4..4 + |d|] + b[4 + |d|..];
    }
  }

  /** One complete message at the front. */
  lemma {:induction false} DecodeOne(b: seq<Byte>) returns (m: Msg, rest: seq<Byte>)
    requires !Incomplete(b)
    ensures Proper(m) && b == Frame(m) + rest && |rest| < |b|
    ensures Decode(b) == ([m] + Decode(rest).0, Decode(rest).1)
  {
    hide Announced;
    var n := 4 + Announced(b[..4]);
    m, rest := Msg(b[..4], b[4..n]), b[n..];
    Cut(b, m.head, m.body, rest);
  }

  /** Decoding loses no byte, and what it leaves is incomplete. */
  lemma {:induction false} DecodeKeeps(b: seq<Byte>)
    ensures Stream(Decode(b).0) + Decode(b).1 == b && Incomplete(Decode(b).1)
    ensures forall m :: m in Decode(b).0 ==> Proper(m)
    decreases b
  {
    if Incomplete(b) {
      assert Stream([]) == [] && [] + b == b;
    } else {
      var m, rest := DecodeOne(b);
      hide Decode, Incomplete, Proper, Frame;
      DecodeKeeps(rest);
      StreamCons(m, Decode(rest).0);
      hide Stream;
      Assoc(Frame(m), Stream(Decode(rest).0), Decode(rest).1);
    }
  }

  lemma {:induction false} Assoc(a: seq<Byte>, b: seq<Byte>, c: seq<Byte>)
    ensures a + (b + c) == a + b + c
  {
  }

  lemma {:induction false} StreamCons(m: Msg, ms: seq<Msg>)
    ensures Stream([m] + ms) == Frame(m) + Stream(ms)
  {
    assert ([m] + ms)[1..] == ms;
  }

  lemma {:induction false} StreamAppend(ms: seq<Msg>, ns: seq<Msg>)
    ensures Stream(ms + ns) == Stream(ms) + Stream(ns)
  {
    if ms == [] {
      assert ms + ns == ns;
    } else {
      assert (ms + ns)[1..] == ms[1..] + ns;
      StreamAppend(ms[1..], ns);
    }
  }

  /** Decoding undoes writing: whatever incomplete bytes follow, exactly the messages come out. */
  lemma {:induction false} DecodeStream(ms: seq<Msg>, p: seq<Byte>)
    requires (forall m :: m in ms ==> Proper(m)) && Incomplete(p)
    ensures Decode(Stream(ms) + p) == (ms, p)
  {
    if ms == [] {
      assert Stream(ms) + p == p;
    } else {
      var m, rest := ms[0], Stream(ms[1..]) + p;
      var b := Stream(ms) + p;
      assert m in ms;
      Assoc(Frame(m), Stream(ms[1..]), p);
      Cut(b, m.head, m.body, rest);
      DecodeStream(ms[1..], p);
      assert [m] + ms[1..] == ms;
    }
  }

  /** A prefix of a stream decodes to a prefix of its messages. */
  lemma {:induction false} DecodePrefix(ms: seq<Msg>, b: seq<Byte>)
    requires (forall m :: m in ms ==> Proper(m)) && b <= Stream(ms)
    ensures Decode(b).0 <= ms
    decreases ms
  {
    if ms != [] && !Incomplete(b) {
      var m, more := ms[0], ms[1..];
      assert m in ms && Proper(m) && Stream(ms) == Frame(m) + Stream(more);
      hide Announced, Stream, Frame, Proper;
      PrefixFront(b, Frame(m), m, Stream(more));
      var rest := b[4 + |m.body|..];
      DecodeFront(b, m, rest);
      hide Decode, Incomplete;
      DecodePrefix(more, rest);
      PrefixCons(m, Decode(rest).0, more);
      assert ms == [m] + more;
    } else {
      assert b == [] ==> Incomplete(b);
    }
  }

  lemma {:induction false} PrefixCons(m: Msg, a: seq<Msg>, b: seq<Msg>)
    requires a <= b
    ensures [m] + a <= [m] + b
  {
  }

  lemma {:induction false} DecodeFront(b: seq<Byte>, m: Msg, rest: seq<Byte>)
    requires Proper(m) && |b| >= 4 + |m.body| && b[..4] == m.head && b[4..4 + |m.body|] == m.body
    requires rest == b[4 + |m.body|..]
    ensures Decode(b).0 == [m] + Decode(rest).0
  {
    hide Announced;
  }

  /** A complete message at the front of a prefix is the first of the stream. */
  lemma {:induction false} PrefixFront(b: seq<Byte>, f: seq<Byte>, m: Msg, rest: seq<Byte>)
    requires Proper(m) && f == Frame(m) && b <= f + rest && !Incomplete(b)
    ensures |b| >= 4 + |m.body| && b[..4] == m.head && b[4..4 + |m.body|] == m.body && b[4 + |m.body|..] <= rest
  {
    var t := f + rest;
    Cut(t, m.head, m.body, rest);
    assert b[..4] == t[..4];
    var n := 4 + |m.body|;
    assert b[4..n] == t[4..n];
    assert b[n..] <= t[n..];
  }
}
