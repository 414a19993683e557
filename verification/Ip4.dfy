/** The dotted-quad recogniser of uri.c. */
module Ip4 {
  import opened CStrings

  /** `unsigned char` */
  newtype uchar = x: int | 0 <= x < 256

  predicate IsDigit(c: char) {
    '0' <= c <= '9'
  }

  function Digit(c: char): (d: nat)
    requires IsDigit(c)
    ensures d <= 9
  {
    c as int - '0' as int
  }

  predicate Digits(s: string) {
    forall k :: 0 <= k < |s| ==> IsDigit(s[k])
  }

  function Value(s: string): nat
    requires Digits(s)
  {
    if s == "" then 0 else Value(s[..|s| - 1]) * 10 + Digit(s[|s| - 1])
  }

  /** One group of digits whose value fits a byte; leading zeros are allowed. */
  predicate Octet(g: string) {
    g != "" && Digits(g) && Value(g) <= 255
  }

  /** One more character after the groups read so far. */
  function Push(gs: seq<string>, c: char): (r: seq<string>)
    requires |gs| >= 1
    ensures |r| >= 1
  {
    if c == '.' then gs + [""] else gs[..|gs| - 1] + [Last(gs) + [c]]
  }

  function Last(gs: seq<string>): string
    requires |gs| >= 1
  {
    gs[|gs| - 1]
  }

  /** The groups between the dots. */
  function Groups(s: string): (gs: seq<string>)
    ensures |gs| >= 1
  {
    if s == "" then [""] else Push(Groups(s[..|s| - 1]), s[|s| - 1])
  }

  predicate IsIp4(s: string) {
    |Groups(s)| == 4 && forall k :: 0 <= k < 4 ==> Octet(Groups(s)[k])
  }

  /** What every prefix of an accepted address looks like: closed groups, and one that may still grow. */
  predicate Viable(gs: seq<string>) {
    1 <= |gs| <= 4 && (forall k :: 0 <= k < |gs| - 1 ==> Octet(gs[k])) && Digits(Last(gs)) && Value(Last(gs)) <= 255
  }

  /** What the variables of the loop hold once these groups have been read. */
  ghost predicate Scanned(gs: seq<string>, tp: nat, current: int, sawDigit: bool, octets: nat) {
    && Viable(gs)
    && tp == |gs| - 1
    && current == Value(Last(gs))
    && (sawDigit <==> Last(gs) != "")
    && octets == if sawDigit then tp + 1 else tp
  }

  lemma {:induction false} ValueSnoc(s: string, c: char)
    requires Digits(s) && IsDigit(c)
    ensures Digits(s + [c]) && Value(s + [c]) == Value(s) * 10 + Digit(c)
  {
    assert (s + [c])[..|s|] == s;
  }

  /** A digit makes the open group grow, unless its value passes a byte. */
  lemma {:induction false} ScanDigit(gs: seq<string>, tp: nat, current: int, sawDigit: bool, octets: nat, c: char)
    requires Scanned(gs, tp, current, sawDigit, octets) && IsDigit(c)
    ensures var v := current * 10 + Digit(c);
      if v <= 255 then Scanned(Push(gs, c), tp, v, true, tp + 1) else !Viable(Push(gs, c))
  {
    ValueSnoc(Last(gs), c);
    var g := Push(gs, c);
    assert Last(g) == Last(gs) + [c];
    assert forall k :: 0 <= k < |g| - 1 ==> g[k] == gs[k];
  }

  /** A dot closes a group that has digits, unless four groups are there. */
  lemma {:induction false} ScanDot(gs: seq<string>, tp: nat, current: int, sawDigit: bool, octets: nat)
    requires Scanned(gs, tp, current, sawDigit, octets)
    ensures if sawDigit && octets < 4 then Scanned(Push(gs, '.'), tp + 1, 0, false, octets) else !Viable(Push(gs, '.'))
  {
    var g := Push(gs, '.');
    assert forall k :: 0 <= k < |gs| ==> g[k] == gs[k];
    assert Last(g) == "";
    if !sawDigit {
      assert !Octet(g[|gs| - 1]);
    }
  }

  lemma {:induction false} ScanOther(gs: seq<string>, c: char)
    requires |gs| >= 1 && !IsDigit(c) && c != '.'
    ensures !Viable(Push(gs, c))
  {
    var g := Last(Push(gs, c));
    assert g[|g| - 1] == c;
  }

  /** Only a viable sequence of groups becomes viable by one more character. */
  lemma {:induction false} ViablePush(gs: seq<string>, c: char)
    requires |gs| >= 1 && Viable(Push(gs, c))
    ensures Viable(gs)
  {
    var g := Push(gs, c);
    assert forall k :: 0 <= k < |gs| - 1 ==> gs[k] == g[k];
    if c == '.' {
      assert Octet(g[|gs| - 1]);
    } else {
      var h := Last(g);
      assert IsDigit(h[|h| - 1]) && h[..|h| - 1] == Last(gs);
      assert forall k :: 0 <= k < |Last(gs)| ==> Last(gs)[k] == h[k];
    }
  }

  /** Every prefix of a viable string is viable. */
  lemma {:induction false} ViableBack(s: string, k: nat)
    requires k <= |s| && Viable(Groups(s))
    ensures Viable(Groups(s[..k]))
    decreases |s|
  {
    if k == |s| {
      assert s[..k] == s;
    } else {
      ViablePush(Groups(s[..|s| - 1]), s[|s| - 1]);
      assert s[..|s| - 1][..k] == s[..k];
      ViableBack(s[..|s| - 1], k);
    }
  }

  lemma {:induction false} Ip4Viable(s: string)
    ensures IsIp4(s) <==> Viable(Groups(s)) && |Groups(s)| == 4 && Last(Groups(s)) != ""
  {
  }

  lemma {:induction false} Refused(s: string, i: nat)
    requires i <= |s| && !Viable(Read(s, i))
    ensures !IsIp4(s)
  {
    Ip4Viable(s);
    if IsIp4(s) {
      ViableBack(s, i);
    }
  }

  lemma {:induction false} GroupsSnoc(s: string, i: nat)
    requires i < |s|
    ensures |Read(s, i)| >= 1 && Read(s, i + 1) == Push(Read(s, i), s[i])
  {
    assert s[..i + 1][..i] == s[..i];
  }

  lemma {:induction false} ScanBounds(gs: seq<string>, tp: nat, current: int, sawDigit: bool, octets: nat)
    requires Scanned(gs, tp, current, sawDigit, octets)
    ensures tp < 4 && 0 <= current <= 255 && octets <= 4 && (!sawDigit ==> octets < 4)
  {
  }

  lemma {:induction false} ScanEnd(s: string, tp: nat, current: int, sawDigit: bool, octets: nat)
    requires Scanned(Read(s, |s|), tp, current, sawDigit, octets)
    ensures octets >= 4 <==> IsIp4(s)
  {
    Ip4Viable(s);
    assert s[..|s|] == s;
  }

  /** The groups of the first k characters. */
  function Read(s: string, k: nat): (gs: seq<string>)
    requires k <= |s|
  {
    Groups(s[..k])
  }

  /** What is read at an offset is the next character of the string, or its end. */
  lemma {:induction false} NextChar(src: array<char>, from: nat, p: nat)
    requires Terminated(src[..]) && from <= p < src.Length && p <= from + |CStr(src[..], from)|
    ensures var s := CStr(src[..], from);
      if src[p] == NUL then p - from == |s| else p - from < |s| && s[p - from] == src[p]
  {
    CStrSpan(src[..], from);
    var s := CStr(src[..], from);
    assert p - from < |s| ==> s[p - from] in s;
  }

  /** The body of the loop, for one character. The cursor never leaves the four bytes; a fifth octet is
      refused at its dot already, so the check on `octets` in the digit branch never fails. */
  method ScanChar(tmp: array<uchar>, tp: nat, sawDigit: bool, octets: nat, ch: char, ghost gs: seq<string>)
    returns (ok: bool, tp': nat, sawDigit': bool, octets': nat)
    requires tmp.Length == 4 && tp < 4 && Scanned(gs, tp, tmp[tp] as int, sawDigit, octets)
    modifies tmp
    ensures ok ==> tp' < 4 && Scanned(Push(gs, ch), tp', tmp[tp'] as int, sawDigit', octets')
    ensures !ok ==> !Viable(Push(gs, ch))
  {
    ok, tp', sawDigit', octets' := true, tp, sawDigit, octets;
    ghost var current := tmp[tp] as int;
    ScanBounds(gs, tp, current, sawDigit, octets);
    if IsDigit(ch) {
      ScanDigit(gs, tp, current, sawDigit, octets, ch);
      hide Scanned, Viable, Push;
      var next := tmp[tp] as int * 10 + Digit(ch);
      if next > 255 {
        return false, tp, sawDigit, octets;
      }
      tmp[tp] := next as uchar;
      if !sawDigit {
        octets' := octets + 1;
        if octets' > 4 {
          assert false;
        }
        sawDigit' := true;
      }
      ScanBoundsDigit(gs, tp, current, sawDigit, octets);
    } else if ch == '.' && sawDigit {
      ScanDot(gs, tp, current, sawDigit, octets);
      ScanBoundsDigit(gs, tp, current, sawDigit, octets);
      hide Scanned, Viable, Push;
      if octets == 4 {
        return false, tp, sawDigit, octets;
      }
      tp' := tp + 1;
      tmp[tp'] := 0;
      sawDigit' := false;
    } else {
      if ch == '.' {
        ScanDot(gs, tp, current, sawDigit, octets);
      } else {
        ScanOther(gs, ch);
      }
      return false, tp, sawDigit, octets;
    }
  }

  lemma {:induction false} ScanBoundsDigit(gs: seq<string>, tp: nat, current: int, sawDigit: bool, octets: nat)
    requires Scanned(gs, tp, current, sawDigit, octets)
    ensures octets == if sawDigit then tp + 1 else tp
  {
  }

  /** check_ip4 */
  method CheckIp4(src: array<char>, from: nat) returns (ok: bool)
    requires Terminated(src[..]) && from < src.Length
    ensures ok <==> IsIp4(CStr(src[..], from))
  {
    ghost var s, k := CStr(src[..], from), 0;
    hide Scanned, Viable, Read, Push, IsIp4, CStr;
    var tmp := new uchar[] [0, 0, 0, 0];
    var tp: nat, sawDigit, octets: nat, p := 0, false, 0, from;
    ScanStart(s);
    NextChar(src, from, from);
    while src[p] != NUL
      invariant p == from + k < src.Length && k <= |s| && tp < 4
      invariant src[p] == NUL ==> k == |s|
      invariant src[p] != NUL ==> k < |s| && s[k] == src[p]
      invariant Scanned(Read(s, k), tp, tmp[tp] as int, sawDigit, octets)
      modifies tmp
      decreases src.Length - p
    {
      var ch := src[p];
      p := p + 1;
      GroupsSnoc(s, k);
      ok, tp, sawDigit, octets := ScanChar(tmp, tp, sawDigit, octets, ch, Read(s, k));
      k := k + 1;
      if !ok {
        Refused(s, k);
        return;
      }
      NextChar(src, from, p);
    }
    ScanEnd(s, tp, tmp[tp] as int, sawDigit, octets);
    if octets < 4 {
      return false;
    }
    return true;
  }

  lemma {:induction false} ScanStart(s: string)
    ensures Scanned(Read(s, 0), 0, 0, false, 0)
  {
    assert Groups("") == [""] && s[..0] == "";
  }

  /** Groups with dots between them. */
  function Join(gs: seq<string>): string
    requires |gs| >= 1
  {
    if |gs| == 1 then gs[0] else Join(gs[..|gs| - 1]) + "." + Last(gs)
  }

  lemma {:induction false} JoinGroups(s: string)
    ensures Join(Groups(s)) == s
  {
    if s == "" {
      assert Groups(s) == [""];
    } else {
      hide Join, Push;
      var t, c := s[..|s| - 1], s[|s| - 1];
      JoinGroups(t);
      JoinPush(Groups(t), c);
      assert Groups(s) == Push(Groups(t), c) && s == t + [c];
    }
  }

  lemma {:induction false} JoinPush(gs: seq<string>, c: char)
    requires |gs| >= 1
    ensures Join(Push(gs, c)) == Join(gs) + [c]
  {
    var g := Push(gs, c);
    if c == '.' {
      assert g[..|g| - 1] == gs;
      assert Join(gs) + "." + "" == Join(gs) + [c];
    } else if |gs| > 1 {
      assert g[..|g| - 1] == gs[..|gs| - 1];
      assert Join(gs[..|gs| - 1]) + "." + (Last(gs) + [c]) == Join(gs[..|gs| - 1]) + "." + Last(gs) + [c];
    }
  }

  lemma {:induction false} PushLast(gs: seq<string>, g: string)
    requires '.' !in g && g != ""
    ensures Push(gs + [g[..|g| - 1]], g[|g| - 1]) == gs + [g]
  {
    assert g[..|g| - 1] + [g[|g| - 1]] == g;
    assert (gs + [g])[..|gs|] == gs;
  }

  /** A group after a dot is a group. */
  lemma {:induction false} GroupsAfterDot(t: string, g: string)
    requires '.' !in g
    ensures Groups(t + "." + g) == Groups(t) + [g]
    decreases g
  {
    var s := t + "." + g;
    if g == "" {
      assert s[..|s| - 1] == t;
    } else {
      var h, c := g[..|g| - 1], g[|g| - 1];
      assert s[..|s| - 1] == t + "." + h && s[|s| - 1] == c;
      GroupsAfterDot(t, h);
      PushLast(Groups(t), g);
      hide Push;
      assert Groups(s) == Push(Groups(t + "." + h), c);
    }
  }

  lemma {:induction false} GroupAlone(g: string)
    requires '.' !in g
    ensures Groups(g) == [g]
  {
    if g != "" {
      GroupAlone(g[..|g| - 1]);
      assert g[..|g| - 1] + [g[|g| - 1]] == g;
    }
  }

  lemma {:induction false} NoDot(g: string)
    requires Octet(g)
    ensures '.' !in g
  {
  }

  function Dotted(a: string, b: string, c: string, d: string): string {
    a + "." + b + "." + c + "." + d
  }

  /** The accepted language: four byte-valued groups of digits with dots between them. */
  lemma {:induction false} Ip4Exactly(s: string)
    ensures IsIp4(s) <==>
      exists a, b, c, d :: s == Dotted(a, b, c, d) && Octet(a) && Octet(b) && Octet(c) && Octet(d)
  {
    if IsIp4(s) {
      Ip4Parts(s);
      var gs := Groups(s);
      assert Octet(gs[0]) && Octet(gs[1]) && Octet(gs[2]) && Octet(gs[3]);
      assert s == Dotted(gs[0], gs[1], gs[2], gs[3]);
    }
    forall a, b, c, d | s == Dotted(a, b, c, d) && Octet(a) && Octet(b) && Octet(c) && Octet(d)
      ensures IsIp4(s)
    {
      Ip4FromParts(a, b, c, d);
    }
  }

  lemma {:induction false} Ip4Parts(s: string)
    requires |Groups(s)| == 4
    ensures var gs := Groups(s); s == Dotted(gs[0], gs[1], gs[2], gs[3])
  {
    var gs := Groups(s);
    JoinGroups(s);
    assert gs[..3][..2] == gs[..2] && gs[..2][..1] == gs[..1];
    assert Join(gs[..2]) == gs[0] + "." + gs[1];
    assert Join(gs[..3]) == Join(gs[..2]) + "." + gs[2];
  }

  lemma {:induction false} Ip4FromParts(a: string, b: string, c: string, d: string)
    requires Octet(a) && Octet(b) && Octet(c) && Octet(d)
    ensures IsIp4(Dotted(a, b, c, d))
  {
    PartsOf(a, b, c, d);
  }

  /** `dec-octet` of section 3.2.2 of RFC 3986. */
  predicate DecOctet(g: string) {
    || (|g| == 1 && '0' <= g[0] <= '9')
    || (|g| == 2 && '1' <= g[0] <= '9' && '0' <= g[1] <= '9')
    || (|g| == 3 && g[0] == '1' && '0' <= g[1] <= '9' && '0' <= g[2] <= '9')
    || (|g| == 3 && g[0] == '2' && '0' <= g[1] <= '4' && '0' <= g[2] <= '9')
    || (|g| == 3 && g[..2] == "25" && '0' <= g[2] <= '5')
  }

  /** `IPv4address` of section 3.2.2 of RFC 3986. */
  ghost predicate Ipv4address(s: string) {
    exists a, b, c, d :: s == Dotted(a, b, c, d) && DecOctet(a) && DecOctet(b) && DecOctet(c) && DecOctet(d)
  }

  /** The groups that the RFC admits are those without a leading zero. */
  lemma {:induction false} DecOctetExactly(g: string)
    ensures DecOctet(g) <==> Octet(g) && (|g| == 1 || g[0] != '0')
  {
    if 1 <= |g| <= 3 && Digits(g) {
      ValueShort(g);
    } else if |g| > 3 && Digits(g) && g[0] != '0' {
      ValueLong(g);
    }
  }

  lemma {:induction false} ValueShort(g: string)
    requires 1 <= |g| <= 3 && Digits(g)
    ensures Value(g) == match |g|
      case 1 => Digit(g[0])
      case 2 => Digit(g[0]) * 10 + Digit(g[1])
      case _ => Digit(g[0]) * 100 + Digit(g[1]) * 10 + Digit(g[2])
  {
    if |g| > 1 {
      ValueShort(g[..|g| - 1]);
    }
  }

  /** Four digits or more after a non-zero one do not fit a byte. */
  lemma {:induction false} ValueLong(g: string)
    requires |g| >= 1 && Digits(g) && g[0] != '0'
    ensures Value(g) >= 1 && (|g| > 3 ==> Value(g) >= 1000)
  {
    if |g| <= 4 {
      var h := if |g| == 4 then g[..3] else g;
      ValueShort(h);
      assert |g| == 4 ==> g[..|g| - 1] == h;
    } else {
      ValueLong(g[..|g| - 1]);
    }
  }

  /** Every address of the RFC is accepted, and some accepted ones are not of the RFC. */
  lemma {:induction false} Ip4Superset(s: string)
    ensures Ipv4address(s) ==> IsIp4(s)
    ensures IsIp4("01.2.3.4") && !Ipv4address("01.2.3.4")
  {
    if Ipv4address(s) {
      var a, b, c, d :| s == Dotted(a, b, c, d) && DecOctet(a) && DecOctet(b) && DecOctet(c) && DecOctet(d);
      DecOctetExactly(a); DecOctetExactly(b); DecOctetExactly(c); DecOctetExactly(d);
      Ip4FromParts(a, b, c, d);
    }
    LeadingZero();
  }

  lemma {:induction false} LeadingZero()
    ensures IsIp4("01.2.3.4") && !Ipv4address("01.2.3.4")
  {
    ValueShort("01"); ValueShort("2"); ValueShort("3"); ValueShort("4");
    Ip4FromParts("01", "2", "3", "4");
    assert Dotted("01", "2", "3", "4") == "01.2.3.4";
    forall a, b, c, d | "01.2.3.4" == Dotted(a, b, c, d) && DecOctet(a) && DecOctet(b) && DecOctet(c) && DecOctet(d)
      ensures false
    {
      DecOctetExactly(a); DecOctetExactly(b); DecOctetExactly(c); DecOctetExactly(d);
      Unique(a, b, c, d, "01", "2", "3", "4");
    }
  }

  /** The four groups of an address are determined by it. */
  lemma {:induction false} Unique(a: string, b: string, c: string, d: string, a': string, b': string, c': string,
    d': string)
    requires Octet(a) && Octet(b) && Octet(c) && Octet(d) && Octet(a') && Octet(b') && Octet(c') && Octet(d')
    requires Dotted(a, b, c, d) == Dotted(a', b', c', d')
    ensures [a, b, c, d] == [a', b', c', d']
  {
    PartsOf(a, b, c, d);
    PartsOf(a', b', c', d');
  }

  lemma {:induction false} PartsOf(a: string, b: string, c: string, d: string)
    requires Octet(a) && Octet(b) && Octet(c) && Octet(d)
    ensures Groups(Dotted(a, b, c, d)) == [a, b, c, d]
  {
    NoDot(a); NoDot(b); NoDot(c); NoDot(d);
    GroupAlone(a);
    GroupsAfterDot(a, b);
    GroupsAfterDot(a + "." + b, c);
    GroupsAfterDot(a + "." + b + "." + c, d);
  }
}
