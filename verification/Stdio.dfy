/** Files open for reading, as far as fread, fgets and feof go. */
module Stdio {
  import opened Endian

  const NEWLINE: Byte := 10

  /** How many of the bytes at the front fgets takes when it may take `limit`: up to the first newline. */
  function Line(t: seq<Byte>, limit: nat): (n: nat)
    ensures n <= |t| && n <= limit && (t != [] && limit > 0 ==> n > 0)
  {
    if t == [] || limit == 0 then 0 else if t[0] == NEWLINE then 1 else 1 + Line(t[1..], limit - 1)
  }

  /** Did fgets run into the end of the file before it found a newline or a full buffer? */
  predicate RanOut(t: seq<Byte>, limit: nat) {
    var n := Line(t, limit);
    n == |t| && n < limit && (n == 0 || t[n - 1] != NEWLINE)
  }

  /** fgets takes n bytes: it stops at a newline, with its buffer full, or where the text ends. */
  predicate IsLine(t: seq<Byte>, limit: nat, n: nat) {
    && n <= |t| && n <= limit
    && (forall i :: 0 <= i < n - 1 ==> t[i] != 10)
    && (n == |t| || n == limit || (n > 0 && t[n - 1] == 10))
  }

  lemma {:induction false} LineExactly(t: seq<Byte>, limit: nat, n: nat)
    ensures IsLine(t, limit, n) <==> n == Line(t, limit)
  {
    LineIs(t, limit);
    var k := Line(t, limit);
    assert n < k ==> n == 0 || t[n - 1] != 10;
  }

  lemma {:induction false} LineIs(t: seq<Byte>, limit: nat)
    ensures IsLine(t, limit, Line(t, limit))
  {
    if t != [] && limit > 0 && t[0] != NEWLINE {
      LineIs(t[1..], limit - 1);
      var n := Line(t, limit);
      assert forall i :: 0 < i < n ==> t[i] == t[1..][i - 1];
    }
  }

  /** Fewer bytes than asked for, and no newline. */
  predicate Unended(t: seq<Byte>, limit: nat) {
    |t| < limit && 10 !in t
  }

  lemma {:induction false} RanOutExactly(t: seq<Byte>, limit: nat)
    ensures RanOut(t, limit) <==> Unended(t, limit)
  {
    LineIs(t, limit);
    hide Line;
  }

  method Put(buffer: array<Byte>, k: nat, c: Byte, ghost front: seq<Byte>)
    requires k < buffer.Length && buffer[..k] == front
    modifies buffer
    ensures buffer[..k + 1] == front + [c]
  {
    buffer[k] := c;
  }

  /** A file open for reading, with its end-of-file indicator. */
  class File {
    const bytes: seq<Byte>
    var pos: nat
    var eof: bool

    ghost predicate Valid()
      reads this
    {
      pos <= |bytes|
    }

    /** What has not been read yet. */
    ghost function Rest(): seq<Byte>
      requires Valid()
      reads this
    {
      bytes[pos..]
    }

    constructor (b: seq<Byte>)
      ensures Valid() && bytes == b && pos == 0 && Rest() == b && !eof
    {
      bytes, pos, eof := b, 0, false;
    }

    /** fread of n bytes into a buffer; fewer come only at the end of the file. */
    method Fread(buffer: array<Byte>, n: nat) returns (got: nat)
      requires Valid() && n <= buffer.Length
      modifies this, buffer
      ensures Valid() && got == (if n <= |old(Rest())| then n else |old(Rest())|)
      ensures old(Rest()) == buffer[..got] + Rest()
      ensures eof == (old(eof) || got < n)
    {
      got := 0;
      while got < n && pos < |bytes|
        invariant got <= n && old(pos) <= pos == old(pos) + got <= |bytes| && eof == old(eof)
        invariant buffer[..got] == bytes[old(pos)..pos]
      {
        buffer[got] := bytes[pos];
        got, pos := got + 1, pos + 1;
      }
      eof := eof || got < n;
      assert bytes[old(pos)..] == bytes[old(pos)..pos] + bytes[pos..];
    }

    method Getc() returns (c: Byte)
      requires Valid() && Rest() != []
      modifies this`pos
      ensures Valid() && old(Rest()) == [c] + Rest()
    {
      c := bytes[pos];
      pos := pos + 1;
      assert bytes[old(pos)..] == [c] + bytes[pos..];
    }

    /** The loop of fgets: `stopped` at a newline, or not. */
    method ReadLine(buffer: array<Byte>, limit: nat) returns (k: nat, stopped: bool)
      requires Valid() && limit <= buffer.Length
      modifies this`pos, buffer
      ensures Valid() && k == Line(old(Rest()), limit) && old(Rest()) == buffer[..k] + Rest()
      ensures stopped <==> k > 0 && buffer[k - 1] == NEWLINE
      ensures !stopped && k < limit ==> Rest() == []
    {
      ghost var t, front: seq<Byte>, rest := Rest(), [], Rest();
      k, stopped := 0, false;
      hide Line;
      while !stopped && k < limit && pos < |bytes|
        invariant Valid() && rest == Rest() && |front| == k <= limit && buffer[..k] == front
        invariant Reads(t, limit, front, rest, stopped)
        invariant stopped <==> k > 0 && front[k - 1] == NEWLINE
        decreases limit - k
      {
        var c := Getc();
        rest := rest[1..];
        Put(buffer, k, c, front);
        ReadsOn(t, limit, front, c, rest);
        front := front + [c];
        stopped := c == NEWLINE;
        k := k + 1;
      }
      ReadsEnd(t, limit, front, rest, stopped);
    }

    /** fgets with a buffer of n bytes, without a read error: null at the end of the file, otherwise a
        piece of text up to byte 10 and a NUL behind it. */
    method Fgets(buffer: array<Byte>, n: nat) returns (read: bool)
      requires Valid() && 2 <= n <= buffer.Length
      modifies this, buffer
      ensures Valid() && (read <==> old(Rest()) != [])
      ensures var k := Line(old(Rest()), n - 1);
        && Rest() == old(Rest())[k..]
        && (read ==> buffer[..k] == old(Rest())[..k] && buffer[k] == 0)
      ensures IsLine(old(Rest()), n - 1, Line(old(Rest()), n - 1))
      ensures eof == (old(eof) || RanOut(old(Rest()), n - 1))
      ensures eof == (old(eof) || Unended(old(Rest()), n - 1))
    {
      hide Line, IsLine, Unended;
      RanOutExactly(Rest(), n - 1);
      LineIs(Rest(), n - 1);
      var k, stopped := ReadLine(buffer, n - 1);
      if k > 0 {
        buffer[k] := 0;
      }
      eof := eof || (!stopped && k < n - 1);
      read := k > 0;
    }
  }

  /** How far fgets has come: `front` is in the buffer, and Line counts the rest as well unless it stopped. */
  ghost predicate Reads(t: seq<Byte>, limit: nat, front: seq<Byte>, rest: seq<Byte>, stopped: bool) {
    t == front + rest && |front| <= limit && Line(t, limit) == |front| + if stopped then 0
      else Line(rest, limit - |front|)
  }

  lemma {:induction false} ReadsOn(t: seq<Byte>, limit: nat, front: seq<Byte>, c: Byte, rest: seq<Byte>)
    requires Reads(t, limit, front, [c] + rest, false) && |front| < limit
    ensures Reads(t, limit, front + [c], rest, c == NEWLINE)
  {
    assert ([c] + rest)[1..] == rest;
    assert front + ([c] + rest) == front + [c] + rest;
  }

  lemma {:induction false} ReadsEnd(t: seq<Byte>, limit: nat, front: seq<Byte>, rest: seq<Byte>, stopped: bool)
    requires Reads(t, limit, front, rest, stopped) && (stopped || |front| == limit || rest == [])
    ensures |front| == Line(t, limit) && t == front + rest
  {
  }
}
