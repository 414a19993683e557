/** What uri.c makes of a URI, as a function of its text, and the language it accepts. */
module UriText {
  import opened CStrings
  import opened Ip4

  const LONG_MAX := 0x7fff_ffff_ffff_ffff

  /** isspace of the C locale */
  predicate IsSpace(c: char) {
    c == ' ' || 9 <= c as int <= 13
  }

  function DigitRun(s: string): (k: nat)
    ensures k <= |s| && Digits(s[..k])
  {
    if s == "" || !IsDigit(s[0]) then 0 else 1 + DigitRun(s[1..])
  }

  function Clamp(x: int): int {
    if x > LONG_MAX then LONG_MAX else if x < -LONG_MAX - 1 then -LONG_MAX - 1 else x
  }

  /** A number read at the front of a string, and how many characters it takes; no number takes none. */
  datatype Scan = Scan(value: int, length: nat) {
    /** The same after k more characters in front. */
    function After(k: nat): Scan {
      if length == 0 then this else Scan(value, length + k)
    }
  }

  function Signed(sign: string, v: int): int {
    if sign == "-" then -v else v
  }

  function Magnitude(s: string, sign: string): Scan {
    Scan(Clamp(Signed(sign, Value(s[..DigitRun(s)]))), DigitRun(s))
  }

  /** The sign at the front of a string, if there is one. */
  function Sign(s: string): (sign: string)
    ensures |sign| <= |s| && s[..|sign|] == sign
  {
    if s != "" && (s[0] == '+' || s[0] == '-') then s[..1] else ""
  }

  /** strtol in base ten, section 7.22.1.4 of ISO/IEC 9899:2011. */
  function Strtol(s: string): Scan
  {
    if s != "" && IsSpace(s[0]) then Strtol(s[1..]).After(1)
    else Magnitude(s[|Sign(s)|..], Sign(s)).After(|Sign(s)|)
  }

  /** check_port */
  predicate CheckPort(port: string) {
    Strtol(port).length != 0 && 1 <= Strtol(port).value <= 65535
  }

  /** sc_uri_tcp_port, which reads the text a second time: `(unsigned)strtol(...)`. */
  function TcpPort(port: string): int {
    Strtol(port).value % 0x1_0000_0000
  }

  datatype Address = Pipe(filepath: string) | Tcp(ip4: string, port: string)

  datatype Code = SC_ENOMEM | SC_EURIPARSE | SC_EINVPROTO

  /** NullToken: a null token is used as a string, which C leaves undefined. */
  datatype Outcome = Accepted(address: Address) | Refused(code: Code) | NullToken

  /** is_protocol_known */
  predicate Known(proto: string) {
    proto == "pipe" || proto == "tcp"
  }

  /** sc_uri_new on the text of a URI, when memory is there. */
  function Parse(s: string, nullAtEnd: bool): Outcome {
    match Tok(s, ':', nullAtEnd)
    case NoToken => if nullAtEnd then Refused(SC_EURIPARSE) else NullToken
    case Token(proto, None) => Refused(SC_EURIPARSE)
    case Token(proto, Some(path)) =>
      if !Known(proto) then Refused(SC_EINVPROTO) else ParsePath(proto, path, nullAtEnd)
  }

  function ParsePath(proto: string, path: string, nullAtEnd: bool): Outcome {
    if |path| <= 2 || path[0] != '/' || path[1] != '/' then Refused(SC_EURIPARSE)
    else if proto == "pipe" then Accepted(Pipe(path[2..]))
    else ParseTcp(path[2..], nullAtEnd)
  }

  function ParseTcp(s: string, nullAtEnd: bool): Outcome {
    match Tok(s, ':', nullAtEnd)
    case NoToken => NullToken
    case Token(ip, port) =>
      if !IsIp4(ip) || port == None || !CheckPort(port.value) then Refused(SC_EURIPARSE)
        else Accepted(Tcp(ip, port.value))
  }

  // Numbers

  predicate AllSpace(w: string) {
    forall k :: 0 <= k < |w| ==> w[k] in {' ', '\t', '\n', 11 as char, 12 as char, '\r'}
  }

  /** White space, a sign or none, digits, and then no digit. */
  predicate NumberParts(w: string, sign: string, ds: string, tail: string) {
    AllSpace(w) && (sign == "" || sign == "+" || sign == "-") && ds != "" && Digits(ds) &&
      (tail == "" || !IsDigit(tail[0]))
  }

  function NumberText(w: string, sign: string, ds: string, tail: string): string {
    w + (sign + (ds + tail))
  }

  /** A text that begins with a number without a minus sign. */
  ghost predicate Numeral(s: string, n: nat) {
    exists w, sign, ds, tail :: s == NumberText(w, sign, ds, tail) && NumberParts(w, sign, ds, tail) &&
      sign != "-" && Value(ds) == n
  }

  lemma {:induction false} DigitRunOf(ds: string, t: string)
    requires Digits(ds) && (t == "" || !IsDigit(t[0]))
    ensures DigitRun(ds + t) == |ds|
  {
    if ds == "" {
      assert ds + t == t;
    } else {
      assert (ds + t)[1..] == ds[1..] + t;
      DigitRunOf(ds[1..], t);
    }
  }

  lemma {:induction false} DigitRunEnds(s: string)
    ensures DigitRun(s) < |s| ==> !IsDigit(s[DigitRun(s)])
  {
    if s != "" && IsDigit(s[0]) {
      DigitRunEnds(s[1..]);
    }
  }

  lemma {:induction false} MagnitudeOf(ds: string, tail: string, sign: string)
    requires ds != "" && Digits(ds) && (tail == "" || !IsDigit(tail[0]))
    ensures Magnitude(ds + tail, sign) == Scan(Clamp(Signed(sign, Value(ds))), |ds|)
  {
    DigitRunOf(ds, tail);
    assert (ds + tail)[..|ds|] == ds;
  }

  lemma {:induction false} SignOf(sign: string, u: string)
    requires (sign == "" || sign == "+" || sign == "-") && u != "" && IsDigit(u[0])
    ensures Sign(sign + u) == sign && (sign + u)[|sign|..] == u && !IsSpace((sign + u)[0])
  {
  }

  lemma {:induction false} SpacesOf(w: string, t: string)
    requires AllSpace(w) && (t == "" || !IsSpace(t[0]))
    ensures Strtol(w + t) == Strtol(t).After(|w|)
  {
    if w == "" {
      assert w + t == t;
    } else {
      SpacesOf(w[1..], t);
      assert (w + t)[1..] == w[1..] + t;
    }
  }

  lemma {:induction false} SpacesParts(s: string) returns (w: string, t: string)
    ensures s == w + t && AllSpace(w) && (t == "" || !IsSpace(t[0]))
  {
    if s != "" && IsSpace(s[0]) {
      w, t := SpacesParts(s[1..]);
      w := [s[0]] + w;
    } else {
      w, t := "", s;
    }
  }

  /** strtol on a string put together from its parts. */
  lemma {:induction false} StrtolOf(w: string, sign: string, ds: string, tail: string)
    requires NumberParts(w, sign, ds, tail)
    ensures Strtol(NumberText(w, sign, ds, tail)) == Scan(Clamp(Signed(sign, Value(ds))), |w| + |sign| + |ds|)
  {
    var u := ds + tail;
    assert u[0] == ds[0] && IsDigit(ds[0]);
    SignOf(sign, u);
    MagnitudeOf(ds, tail, sign);
    hide Magnitude, Sign;
    SpacesOf(w, sign + u);
  }

  /** And its parts, from the string. */
  lemma {:induction false} StrtolParts(s: string) returns (w: string, sign: string, ds: string, tail: string)
    requires Strtol(s).length != 0
    ensures s == NumberText(w, sign, ds, tail) && NumberParts(w, sign, ds, tail)
  {
    var t;
    w, t := SpacesParts(s);
    SpacesOf(w, t);
    sign, ds, tail := SignParts(t);
  }

  lemma {:induction false} SignParts(t: string) returns (sign: string, ds: string, tail: string)
    requires (t == "" || !IsSpace(t[0])) && Strtol(t).length != 0
    ensures t == sign + (ds + tail) && NumberParts("", sign, ds, tail)
  {
    sign := Sign(t);
    var u := t[|sign|..];
    var n := DigitRun(u);
    ds, tail := u[..n], u[n..];
    DigitRunEnds(u);
    assert u == ds + tail;
  }

  /** check_port accepts exactly the texts that begin with a number from 1 to 65535, and that number is
      what the accessor reads out of them later. */
  lemma {:induction false} PortExactly(port: string)
    ensures CheckPort(port) <==> exists n :: 1 <= n <= 65535 && Numeral(port, n)
    ensures CheckPort(port) ==> 1 <= TcpPort(port) <= 65535 && Numeral(port, TcpPort(port))
  {
    if CheckPort(port) {
      PortNumeral(port);
    }
    forall n: nat | 1 <= n <= 65535 && Numeral(port, n)
      ensures CheckPort(port)
    {
      NumeralPort(port, n);
    }
  }

  lemma {:induction false} NumeralIntro(w: string, sign: string, ds: string, tail: string)
    requires NumberParts(w, sign, ds, tail) && sign != "-"
    ensures Numeral(NumberText(w, sign, ds, tail), Value(ds))
  {
    hide NumberParts, NumberText, Value;
  }

  lemma {:induction false} ClampPort(sign: string, v: nat)
    requires 1 <= Clamp(Signed(sign, v)) <= 65535
    ensures sign != "-" && Clamp(Signed(sign, v)) == v
  {
  }

  lemma {:induction false} PortNumeral(port: string)
    requires CheckPort(port)
    ensures 1 <= TcpPort(port) <= 65535 && Numeral(port, TcpPort(port))
  {
    hide Strtol, NumberParts, NumberText, Value, Numeral, Clamp, Signed;
    var w, sign, ds, tail := StrtolParts(port);
    DigitsOf(w, sign, ds, tail);
    StrtolOf(w, sign, ds, tail);
    ClampPort(sign, Value(ds));
    NumeralIntro(w, sign, ds, tail);
  }

  lemma {:induction false} DigitsOf(w: string, sign: string, ds: string, tail: string)
    requires NumberParts(w, sign, ds, tail)
    ensures Digits(ds)
  {
  }

  lemma {:induction false} NumeralPort(port: string, n: nat)
    requires 1 <= n <= 65535 && Numeral(port, n)
    ensures CheckPort(port) && TcpPort(port) == n
  {
    var w, sign, ds, tail :|
      port == NumberText(w, sign, ds, tail) && NumberParts(w, sign, ds, tail) && sign != "-" && Value(ds) == n;
    hide NumberText, Value;
    StrtolOf(w, sign, ds, tail);
  }

  /** The shortest decimal form of a number. */
  function Decimal(n: nat): (s: string)
    ensures s != ""
  {
    var last := [('0' as int + n % 10) as char];
    if n < 10 then last else Decimal(n / 10) + last
  }

  lemma {:induction false} DecimalValue(n: nat)
    ensures Digits(Decimal(n)) && Value(Decimal(n)) == n
  {
    var c := ('0' as int + n % 10) as char;
    if n < 10 {
      ValueSnoc("", c);
      assert "" + [c] == [c];
    } else {
      DecimalValue(n / 10);
      ValueSnoc(Decimal(n / 10), c);
    }
  }

  lemma {:induction false} DecimalPort(n: nat)
    requires 1 <= n <= 65535
    ensures CheckPort(Decimal(n)) && TcpPort(Decimal(n)) == n
  {
    DecimalValue(n);
    assert Decimal(n) == NumberText("", "", Decimal(n), "");
    assert Numeral(Decimal(n), n);
    NumeralPort(Decimal(n), n);
  }

  // Tokens

  predicate AllColons(s: string) {
    forall k :: 0 <= k < |s| ==> s[k] == ':'
  }

  lemma {:induction false} LeadingOf(a: string, t: string)
    requires AllColons(a) && (t == "" || t[0] != ':')
    ensures Leading(a + t, ':') == |a|
  {
    if a == "" {
      assert a + t == t;
    } else {
      assert (a + t)[1..] == a[1..] + t;
      LeadingOf(a[1..], t);
    }
  }

  lemma {:induction false} LeadingAre(s: string)
    ensures AllColons(s[..Leading(s, ':')])
    ensures Leading(s, ':') < |s| ==> s[Leading(s, ':')] != ':'
  {
    if s != "" && s[0] == ':' {
      LeadingAre(s[1..]);
      var k := Leading(s, ':');
      assert s[..k] == [':'] + s[1..][..k - 1];
    }
  }

  lemma {:induction false} UntilOf(p: string, t: string)
    requires ':' !in p && (t == "" || t[0] == ':')
    ensures Until(p + t, ':') == |p|
  {
    if p == "" {
      assert p + t == t;
    } else {
      assert p[0] in p && (p + t)[1..] == p[1..] + t;
      UntilOf(p[1..], t);
    }
  }

  lemma {:induction false} UntilIs(s: string)
    ensures ':' !in s[..Until(s, ':')]
    ensures Until(s, ':') < |s| ==> s[Until(s, ':')] == ':'
  {
    if s != "" && s[0] != ':' {
      UntilIs(s[1..]);
      var k := Until(s, ':');
      assert s[..k] == [s[0]] + s[1..][..k - 1];
    }
  }

  /** The tokenizer on a string put together from its parts. */
  lemma {:induction false} TokOf(a: string, p: string, rest: Option<string>, nullAtEnd: bool)
    requires AllColons(a) && p != "" && ':' !in p
    ensures rest.Some? ==> Tok(a + p + ":" + rest.value, ':', nullAtEnd) == Token(p, rest)
    ensures rest.None? ==> Tok(a + p, ':', nullAtEnd) == Token(p, if nullAtEnd then None else Some(""))
  {
    assert p[0] in p;
    var t := p + if rest.Some? then ":" + rest.value else "";
    LeadingOf(a, t);
    assert (a + t)[|a|..] == t;
    UntilOf(p, t[|p|..]);
    assert t == p + t[|p|..] && t[..|p|] == p;
    if rest.Some? {
      assert a + p + ":" + rest.value == a + t && t[|p| + 1..] == rest.value;
    } else {
      assert a + p == a + t;
    }
  }

  /** And its parts, from the string. */
  lemma {:induction false} TokParts(s: string, nullAtEnd: bool) returns (a: string)
    ensures AllColons(a)
    ensures match Tok(s, ':', nullAtEnd)
      case NoToken => a == s
      case Token(p, rest) =>
        p != "" && ':' !in p &&
          ((s == a + p && rest == if nullAtEnd then None else Some("")) ||
            (rest.Some? && s == a + p + ":" + rest.value))
  {
    var k := Leading(s, ':');
    LeadingAre(s);
    a := s[..k];
    var t := s[k..];
    UntilIs(t);
    assert s == a + t;
    var n := Until(t, ':');
    hide Until, Leading, AllColons;
    if n < |t| {
      Rejoined(a, t, n);
    } else {
      assert t[..n] == t;
    }
  }

  lemma {:induction false} Rejoined(a: string, t: string, n: nat)
    requires n < |t|
    ensures a + t == a + t[..n] + [t[n]] + t[n + 1..]
  {
  }

  // The accepted language

  /** Colons, then a protocol, a colon, and the rest. */
  function Schemed(a: string, proto: string, path: string): string {
    a + proto + ":" + path
  }

  lemma {:induction false} SchemeOf(a: string, proto: string, path: string, nullAtEnd: bool)
    requires AllColons(a) && proto != "" && ':' !in proto
    ensures Tok(Schemed(a, proto, path), ':', nullAtEnd) == Token(proto, Some(path))
  {
    TokOf(a, proto, Some(path), nullAtEnd);
  }

  lemma {:induction false} SlashesOf(path: string, p: string)
    ensures path == "//" + p <==> |path| >= 2 && path[0] == '/' && path[1] == '/' && path[2..] == p
  {
    if |path| >= 2 && path[0] == '/' && path[1] == '/' && path[2..] == p {
      assert path == path[..2] + path[2..] && path[..2] == "//";
    }
  }

  /** What is behind a known protocol decides. */
  lemma {:induction false} ParseKnown(a: string, proto: string, p: string, nullAtEnd: bool)
    requires AllColons(a) && Known(proto)
    ensures Parse(Schemed(a, proto, "//" + p), nullAtEnd) ==
      if p == "" then Refused(SC_EURIPARSE) else if proto == "pipe" then Accepted(Pipe(p)) else ParseTcp(p, nullAtEnd)
  {
    SchemeOf(a, proto, "//" + p, nullAtEnd);
    SlashesOf("//" + p, p);
  }

  /** Anything but a refusal comes of a known protocol and two slashes, or of colons only. */
  lemma {:induction false} ParseParts(s: string, nullAtEnd: bool) returns (a: string, proto: string, p: string)
    requires !Parse(s, nullAtEnd).Refused?
    ensures (!nullAtEnd && AllColons(s)) ||
      (AllColons(a) && Known(proto) && p != "" && s == Schemed(a, proto, "//" + p)
       && Parse(s, nullAtEnd) == if proto == "pipe" then Accepted(Pipe(p)) else ParseTcp(p, nullAtEnd))
  {
    proto, p := "", "";
    a := TokParts(s, nullAtEnd);
    var t := Tok(s, ':', nullAtEnd);
    if t.Token? {
      proto, p := t.token, t.rest.value[2..];
      hide Tok, AllColons;
      SlashesOf(t.rest.value, p);
    }
  }

  /** The accepted pipe addresses: "pipe://" and any non-empty path, colons in it or not. */
  lemma {:induction false} PipeExactly(s: string, nullAtEnd: bool, p: string)
    ensures Parse(s, nullAtEnd) == Accepted(Pipe(p)) <==>
      p != "" && exists a :: AllColons(a) && s == Schemed(a, "pipe", "//" + p)
  {
    if Parse(s, nullAtEnd) == Accepted(Pipe(p)) {
      var a, proto, q := ParseParts(s, nullAtEnd);
    }
    forall a | p != "" && AllColons(a) && s == Schemed(a, "pipe", "//" + p)
      ensures Parse(s, nullAtEnd) == Accepted(Pipe(p))
    {
      ParseKnown(a, "pipe", p, nullAtEnd);
    }
  }

  lemma {:induction false} Ip4NoColon(ip: string)
    requires IsIp4(ip)
    ensures ip != "" && ':' !in ip
  {
    Ip4Parts(ip);
    var gs := Groups(ip);
    assert forall k :: 0 <= k < 4 ==> Octet(gs[k]);
    assert ip[|gs[0]|] == '.';
  }

  /** The accepted text behind "tcp://". */
  lemma {:induction false} TcpTextExactly(s: string, nullAtEnd: bool, ip: string, port: string)
    ensures ParseTcp(s, nullAtEnd) == Accepted(Tcp(ip, port)) <==>
      IsIp4(ip) && CheckPort(port) && exists b :: AllColons(b) && s == Schemed(b, ip, port)
  {
    hide IsIp4, CheckPort;
    if ParseTcp(s, nullAtEnd) == Accepted(Tcp(ip, port)) {
      var b := TokParts(s, nullAtEnd);
      hide Tok, AllColons;
      if s != b + ip + ":" + port {
        EmptyPort();
        assert false;
      }
      assert s == Schemed(b, ip, port);
    }
    if IsIp4(ip) && CheckPort(port) {
      Ip4NoColon(ip);
      forall b | AllColons(b) && s == Schemed(b, ip, port)
        ensures ParseTcp(s, nullAtEnd) == Accepted(Tcp(ip, port))
      {
        SchemeOf(b, ip, port, nullAtEnd);
      }
    }
  }

  lemma {:induction false} EmptyPort()
    ensures !CheckPort("")
  {
  }

  /** The accepted TCP addresses: "tcp://", four groups of digits, a colon and a port number. */
  lemma {:induction false} TcpExactly(s: string, nullAtEnd: bool, ip: string, port: string)
    ensures Parse(s, nullAtEnd) == Accepted(Tcp(ip, port)) <==>
      IsIp4(ip) && CheckPort(port) &&
      exists a, b :: AllColons(a) && AllColons(b) && s == Schemed(a, "tcp", "//" + Schemed(b, ip, port))
  {
    hide IsIp4, CheckPort;
    if Parse(s, nullAtEnd) == Accepted(Tcp(ip, port)) {
      var a, proto, p := ParseParts(s, nullAtEnd);
      TcpTextExactly(p, nullAtEnd, ip, port);
    }
    forall a, b | IsIp4(ip) && CheckPort(port) && AllColons(a) && AllColons(b) &&
      s == Schemed(a, "tcp", "//" + Schemed(b, ip, port))
      ensures Parse(s, nullAtEnd) == Accepted(Tcp(ip, port))
    {
      var p := Schemed(b, ip, port);
      ParseKnown(a, "tcp", p, nullAtEnd);
      TcpTextExactly(p, nullAtEnd, ip, port);
    }
  }

  /** After colons, a first token that is no known protocol, with a colon or the end behind it. */
  predicate OtherWord(s: string, nullAtEnd: bool, a: string, proto: string) {
    && AllColons(a) && proto != "" && ':' !in proto && !Known(proto)
    && a + proto <= s && if a + proto == s then !nullAtEnd else s[|a + proto|] == ':'
  }

  /** The protocol is refused exactly where the first token is some other word. */
  lemma {:induction false} InvalidProtocolExactly(s: string, nullAtEnd: bool)
    ensures Parse(s, nullAtEnd) == Refused(SC_EINVPROTO) <==> exists a, proto :: OtherWord(s, nullAtEnd, a, proto)
  {
    hide OtherWord;
    if Parse(s, nullAtEnd) == Refused(SC_EINVPROTO) {
      var a, proto := InvalidProtocolParts(s, nullAtEnd);
    }
    hide Parse;
    forall a, proto | OtherWord(s, nullAtEnd, a, proto)
      ensures Parse(s, nullAtEnd) == Refused(SC_EINVPROTO)
    {
      InvalidProtocolOf(s, nullAtEnd, a, proto);
    }
  }

  lemma {:induction false} InvalidProtocolParts(s: string, nullAtEnd: bool) returns (a: string, proto: string)
    requires Parse(s, nullAtEnd) == Refused(SC_EINVPROTO)
    ensures OtherWord(s, nullAtEnd, a, proto)
  {
    a := TokParts(s, nullAtEnd);
    proto := Tok(s, ':', nullAtEnd).token;
    hide Tok, AllColons;
  }

  lemma {:induction false} InvalidProtocolOf(s: string, nullAtEnd: bool, a: string, proto: string)
    requires OtherWord(s, nullAtEnd, a, proto)
    ensures Parse(s, nullAtEnd) == Refused(SC_EINVPROTO)
  {
    hide Tok, AllColons;
    if a + proto == s {
      TokOf(a, proto, None, nullAtEnd);
    } else {
      var n := |a + proto|;
      assert s == s[..n] + ":" + s[n + 1..] && s[..n] == a + proto;
      TokOf(a, proto, Some(s[n + 1..]), nullAtEnd);
    }
  }

  /** A null token is used exactly on colons only, in front or behind "tcp://". */
  lemma {:induction false} NullTokenExactly(s: string, nullAtEnd: bool)
    ensures Parse(s, nullAtEnd) == NullToken <==>
      (!nullAtEnd && AllColons(s))
      || exists a, b :: AllColons(a) && AllColons(b) && b != "" && s == Schemed(a, "tcp", "//" + b)
  {
    if Parse(s, nullAtEnd) == NullToken {
      var a, proto, p := ParseParts(s, nullAtEnd);
      if !(!nullAtEnd && AllColons(s)) {
        var b := TokParts(p, nullAtEnd);
        assert b == p;
      }
    }
    if AllColons(s) {
      ColonsOnly(s, nullAtEnd);
    }
    forall a, b | AllColons(a) && AllColons(b) && b != "" && s == Schemed(a, "tcp", "//" + b)
      ensures Parse(s, nullAtEnd) == NullToken
    {
      ParseKnown(a, "tcp", b, nullAtEnd);
      ColonsOnly(b, nullAtEnd);
    }
  }

  lemma {:induction false} NullTokenWitness(nullAtEnd: bool)
    ensures Parse(":", false) == NullToken && Parse("tcp://:", nullAtEnd) == NullToken
  {
    ColonsOnly(":", false);
    ColonsOnly(":", nullAtEnd);
    ParseKnown("", "tcp", ":", nullAtEnd);
    hide Tok;
    assert "tcp://:" == Schemed("", "tcp", "//" + ":");
  }

  lemma {:induction false} ColonsOnly(s: string, nullAtEnd: bool)
    requires AllColons(s)
    ensures Tok(s, ':', nullAtEnd) == NoToken
  {
    LeadingOf(s, "");
    assert s + "" == s;
  }

  // The refused texts and their codes

  ghost predicate PipeAddress(s: string) {
    exists a, p :: AllColons(a) && p != "" && s == Schemed(a, "pipe", "//" + p)
  }

  ghost predicate TcpAddress(s: string) {
    exists a, b, ip, port :: AllColons(a) && AllColons(b) && IsIp4(ip) && CheckPort(port) &&
      s == Schemed(a, "tcp", "//" + Schemed(b, ip, port))
  }

  ghost predicate NullText(s: string, nullAtEnd: bool) {
    (!nullAtEnd && AllColons(s))
    || exists a, b :: AllColons(a) && AllColons(b) && b != "" && s == Schemed(a, "tcp", "//" + b)
  }

  /** Every text that is no address and leads to no null token is refused, and no other: with
      SC_EINVPROTO where its first token is another word, with SC_EURIPARSE everywhere else. */
  lemma {:induction false} RefusedExactly(s: string, nullAtEnd: bool, code: Code)
    ensures Parse(s, nullAtEnd) == Refused(code) <==>
      !PipeAddress(s) && !TcpAddress(s) && !NullText(s, nullAtEnd) &&
      code == if exists a, proto :: OtherWord(s, nullAtEnd, a, proto) then SC_EINVPROTO else SC_EURIPARSE
  {
    AddressExactly(s, nullAtEnd);
    NullTokenExactly(s, nullAtEnd);
    InvalidProtocolExactly(s, nullAtEnd);
    TwoCodes(s, nullAtEnd);
    hide Parse, PipeAddress, TcpAddress, OtherWord, Schemed;
  }

  lemma {:induction false} TwoCodes(s: string, nullAtEnd: bool)
    ensures Parse(s, nullAtEnd) != Refused(SC_ENOMEM)
  {
    hide Tok, IsIp4, CheckPort;
  }

  lemma {:induction false} AddressExactly(s: string, nullAtEnd: bool)
    ensures Parse(s, nullAtEnd).Accepted? <==> PipeAddress(s) || TcpAddress(s)
  {
    hide Parse, IsIp4, CheckPort, AllColons, Schemed;
    if Parse(s, nullAtEnd).Accepted? {
      match Parse(s, nullAtEnd).address
      case Pipe(p) => PipeExactly(s, nullAtEnd, p);
      case Tcp(ip, port) => TcpExactly(s, nullAtEnd, ip, port);
    }
    if PipeAddress(s) {
      var a, p :| AllColons(a) && p != "" && s == Schemed(a, "pipe", "//" + p);
      PipeExactly(s, nullAtEnd, p);
    }
    if TcpAddress(s) {
      var a, b, ip, port :| AllColons(a) && AllColons(b) && IsIp4(ip) && CheckPort(port) &&
        s == Schemed(a, "tcp", "//" + Schemed(b, ip, port));
      TcpExactly(s, nullAtEnd, ip, port);
    }
  }

  /** Whether an address is accepted, and which, does not depend on what the standard leaves open. */
  lemma {:induction false} AcceptanceSettled(s: string, address: Address)
    ensures Parse(s, true) == Accepted(address) <==> Parse(s, false) == Accepted(address)
  {
    match address
    case Pipe(p) =>
      PipeExactly(s, true, p);
      PipeExactly(s, false, p);
    case Tcp(ip, port) =>
      TcpExactly(s, true, ip, port);
      TcpExactly(s, false, ip, port);
  }

  /** Parsing undoes printing a pipe address. */
  lemma {:induction false} PipeRoundTrip(p: string, nullAtEnd: bool)
    requires p != ""
    ensures Parse("pipe://" + p, nullAtEnd) == Accepted(Pipe(p))
  {
    assert "pipe://" + p == Schemed("", "pipe", "//" + p);
    PipeExactly("pipe://" + p, nullAtEnd, p);
  }

  /** Parsing undoes printing a TCP address; the accessor gives the number back. */
  lemma {:induction false} TcpRoundTrip(ip: string, n: nat, nullAtEnd: bool)
    requires IsIp4(ip) && 1 <= n <= 65535
    ensures Parse("tcp://" + ip + ":" + Decimal(n), nullAtEnd) == Accepted(Tcp(ip, Decimal(n)))
    ensures TcpPort(Decimal(n)) == n
  {
    DecimalPort(n);
    TcpText(ip, Decimal(n));
    hide *;
    TcpAccepted("", "", ip, Decimal(n), nullAtEnd);
  }

  lemma {:induction false} TcpText(ip: string, port: string)
    ensures "tcp://" + ip + ":" + port == Schemed("", "tcp", "//" + Schemed("", ip, port)) && AllColons("")
  {
    var rest := ip + ":" + port;
    assert "tcp://" + ip + ":" + port == "tcp://" + rest;
    assert Schemed("", ip, port) == rest;
  }

  lemma {:induction false} TcpAccepted(a: string, b: string, ip: string, port: string, nullAtEnd: bool)
    requires AllColons(a) && AllColons(b) && IsIp4(ip) && CheckPort(port)
    ensures Parse(Schemed(a, "tcp", "//" + Schemed(b, ip, port)), nullAtEnd) == Accepted(Tcp(ip, port))
  {
    hide AllColons, IsIp4, CheckPort, Schemed, Parse;
    TcpExactly(Schemed(a, "tcp", "//" + Schemed(b, ip, port)), nullAtEnd, ip, port);
  }

  /** Every accepted TCP address has a port number that the accessor can give back. */
  lemma {:induction false} AcceptedPort(s: string, nullAtEnd: bool, ip: string, port: string)
    requires Parse(s, nullAtEnd) == Accepted(Tcp(ip, port))
    ensures IsIp4(ip) && 1 <= TcpPort(port) <= 65535 && Numeral(port, TcpPort(port))
  {
    TcpExactly(s, nullAtEnd, ip, port);
    PortExactly(port);
  }
}
