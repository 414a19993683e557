/** Byte order: the shift-and-mask swaps of endian.h, and the four bytes that a size occupies. */
module Endian {

  type Byte = bv8

  /** musl_bswap32 */
  function Bswap32(x: bv32): bv32 {
    (x >> 24) | ((x >> 8) & 0xff00) | ((x << 8) & 0xff0000) | (x << 24)
  }

  datatype Host = LittleEndian | BigEndian

  /** musl_htonl; musl_ntohl is the same function. */
  function Htonl(host: Host, n: bv32): bv32 {
    if host == LittleEndian then Bswap32(n) else n
  }

  lemma {:induction false} SwapTwice(x: bv32)
    ensures Bswap32(Bswap32(x)) == x
  {
  }

  /** Byte k of a word, counted from the least significant one. */
  function B0(w: bv32): Byte { (w & 0xff) as Byte }
  function B1(w: bv32): Byte { ((w >> 8) & 0xff) as Byte }
  function B2(w: bv32): Byte { ((w >> 16) & 0xff) as Byte }
  function B3(w: bv32): Byte { ((w >> 24) & 0xff) as Byte }

  function Word(a: Byte, b: Byte, c: Byte, d: Byte): bv32 {
    ((a as bv32) << 24) | ((b as bv32) << 16) | ((c as bv32) << 8) | (d as bv32)
  }

  lemma {:induction false} WordOfBytes(w: bv32)
    ensures Word(B3(w), B2(w), B1(w), B0(w)) == w
  {
  }

  lemma {:induction false} BytesOfWord(a: Byte, b: Byte, c: Byte, d: Byte)
    ensures var w := Word(a, b, c, d); B3(w) == a && B2(w) == b && B1(w) == c && B0(w) == d
  {
  }

  lemma {:induction false} SwapBytes(w: bv32)
    ensures var x := Bswap32(w); B0(x) == B3(w) && B1(x) == B2(w) && B2(x) == B1(w) && B3(x) == B0(w)
  {
  }

  lemma {:induction false} SwapWord(a: Byte, b: Byte, c: Byte, d: Byte)
    ensures Bswap32(Word(a, b, c, d)) == Word(d, c, b, a)
  {
  }

  /** The bytes of a 32-bit word in memory, lowest address first. */
  function Store(host: Host, w: bv32): (s: seq<Byte>)
    ensures |s| == 4
  {
    if host == LittleEndian then [B0(w), B1(w), B2(w), B3(w)] else [B3(w), B2(w), B1(w), B0(w)]
  }

  function Load(host: Host, s: seq<Byte>): bv32
    requires |s| == 4
  {
    if host == LittleEndian then Word(s[3], s[2], s[1], s[0]) else Word(s[0], s[1], s[2], s[3])
  }

  /** The four bytes that sc_msg_set_size leaves in `size_be`. */
  function Header(host: Host, size: bv32): (head: seq<Byte>)
    ensures |head| == 4
  {
    Store(host, Htonl(host, size))
  }

  /** sc_msg_get_size on the four bytes of `size_be`. */
  function GetSize(host: Host, head: seq<Byte>): bv32
    requires |head| == 4
  {
    Htonl(host, Load(host, head))
  }

  /** On the wire the most significant byte comes first, whatever the host. */
  lemma {:induction false} HeaderIsBigEndian(host: Host, size: bv32)
    ensures Header(host, size) == [B3(size), B2(size), B1(size), B0(size)]
  {
    hide B0, B1, B2, B3, Bswap32;
    SwapBytes(size);
  }

  lemma {:induction false} GetSizeIsBigEndian(host: Host, head: seq<Byte>)
    requires |head| == 4
    ensures GetSize(host, head) == Word(head[0], head[1], head[2], head[3])
  {
    hide Word, Bswap32;
    SwapWord(head[3], head[2], head[1], head[0]);
  }

  /** Setting and getting a size undo each other, also across different hosts. */
  lemma {:induction false} SizeOfHeader(writer: Host, reader: Host, size: bv32)
    ensures GetSize(reader, Header(writer, size)) == size
  {
    HeaderIsBigEndian(writer, size);
    GetSizeIsBigEndian(reader, Header(writer, size));
    hide B0, B1, B2, B3, Word, Header, GetSize;
    WordOfBytes(size);
  }

  lemma {:induction false} HeaderOfSize(writer: Host, reader: Host, head: seq<Byte>)
    requires |head| == 4
    ensures Header(writer, GetSize(reader, head)) == head
  {
    GetSizeIsBigEndian(reader, head);
    HeaderIsBigEndian(writer, GetSize(reader, head));
    hide B0, B1, B2, B3, Word, Header, GetSize;
    BytesOfWord(head[0], head[1], head[2], head[3]);
    assert head == [head[0], head[1], head[2], head[3]];
  }

  /** The announced size as a number. */
  function Size(host: Host, head: seq<Byte>): nat
    requires |head| == 4
  {
    GetSize(host, head) as nat
  }

  lemma {:induction false} SizeRange(host: Host, head: seq<Byte>)
    requires |head| == 4
    ensures Size(host, head) < 0x1_0000_0000
  {
    hide GetSize;
  }

  /** The announced size is 0 exactly when all four bytes are. */
  lemma {:induction false} ZeroSize(host: Host, head: seq<Byte>)
    requires |head| == 4
    ensures Size(host, head) == 0 <==> head == [0, 0, 0, 0]
  {
    ZeroNat(GetSize(host, head));
    HeaderOfSize(host, host, head);
    GetSizeIsBigEndian(host, [0, 0, 0, 0]);
    HeaderIsBigEndian(host, 0);
  }

  lemma {:induction false} ZeroNat(x: bv32)
    ensures x as nat == 0 <==> x == 0
  {
  }

  // Numbers as 32-bit words

  function Nat(x: bv32): nat {
    x as nat
  }

  function WithBit(x: bv32, one: bool): bv32 {
    if one then (x << 1) | 1 else x << 1
  }

  lemma {:induction false} Below(x: bv32)
    requires x as nat < 0x8000_0000
    ensures x < 0x8000_0000
  {
  }

  lemma {:induction false} Doubled(x: bv32)
    requires x < 0x8000_0000
    ensures (x << 1) as nat == 2 * (x as nat)
  {
  }

  lemma {:induction false} DoubledPlus(x: bv32)
    requires x < 0x8000_0000
    ensures ((x << 1) | 1) as nat == 2 * (x as nat) + 1
  {
  }

  lemma {:induction false} WithBitIs(x: bv32, one: bool)
    requires Nat(x) < 0x8000_0000
    ensures Nat(WithBit(x, one)) == 2 * Nat(x) + (if one then 1 else 0)
  {
    Below(x);
    if one {
      DoubledPlus(x);
    } else {
      Doubled(x);
    }
  }

  /** `(unsigned)n` */
  function Unsigned32(n: nat): bv32 {
    if n == 0 then 0 else WithBit(Unsigned32(n / 2), n % 2 == 1)
  }

  lemma {:induction false} Unsigned32Is(n: nat)
    requires n < 0x1_0000_0000
    ensures Nat(Unsigned32(n)) == n
  {
    hide WithBit;
    if n > 0 {
      hide Nat;
      Unsigned32Is(n / 2);
      WithBitIs(Unsigned32(n / 2), n % 2 == 1);
    } else {
      ZeroNat(0);
    }
  }

  /** A size that one host writes into a header is the number that any host reads out of it. */
  lemma {:induction false} SizeRoundTrip(writer: Host, reader: Host, n: nat)
    requires n < 0x1_0000_0000
    ensures Size(reader, Header(writer, Unsigned32(n))) == n
  {
    SizeOfHeader(writer, reader, Unsigned32(n));
    Unsigned32Is(n);
    hide Unsigned32, GetSize, Header;
  }
}
