/** NUL-terminated strings in a buffer, and the tokenizer that cuts them up in place. */
module CStrings {
  datatype Option<T> = None | Some(value: T)

  const NUL := '\0'

  predicate Terminated(b: seq<char>) {
    |b| > 0 && b[|b| - 1] == NUL
  }

  /** The string at offset p: everything up to the first NUL. */
  function CStr(b: seq<char>, p: nat): (s: string)
    requires Terminated(b) && p < |b|
    ensures p + |s| < |b|
    decreases |b| - p
  {
    if b[p] == NUL then "" else [b[p]] + CStr(b, p + 1)
  }

  lemma {:induction false} CStrSpan(b: seq<char>, p: nat)
    requires Terminated(b) && p < |b|
    ensures var s := CStr(b, p); s == b[p..p + |s|] && b[p + |s|] == '\0' && '\0' !in s
    decreases |b| - p
  {
    if b[p] != NUL {
      var t := CStr(b, p + 1);
      CStrSpan(b, p + 1);
      assert CStr(b, p) == [b[p]] + t;
      hide CStr;
      assert b[p..p + 1 + |t|] == [b[p]] + b[p + 1..p + 1 + |t|];
    }
  }

  /** A string is known by where it ends. */
  lemma {:induction false} CStrIs(b: seq<char>, p: nat, s: string)
    requires Terminated(b) && p + |s| < |b| && s == b[p..p + |s|] && '\0' !in s && b[p + |s|] == '\0'
    ensures CStr(b, p) == s
    decreases s
  {
    if s != "" {
      assert s[0] == b[p] && s[0] in s && s[1..] == b[p + 1..p + |s|];
      CStrIs(b, p + 1, s[1..]);
    }
  }

  lemma {:induction false} CStrSuffix(b: seq<char>, p: nat, k: nat)
    requires Terminated(b) && p < |b| && k <= |CStr(b, p)|
    ensures CStr(b, p + k) == CStr(b, p)[k..]
    ensures b[p + k] == NUL <==> k == |CStr(b, p)|
    decreases k
  {
    if k > 0 {
      CStrSuffix(b, p + 1, k - 1);
    }
  }

  /** A string that ends before a place is not touched by changes behind it. */
  lemma {:induction false} CStrFrame(b: seq<char>, b': seq<char>, p: nat, n: nat)
    requires Terminated(b) && Terminated(b') && n <= |b| && n <= |b'| && forall k :: 0 <= k < n ==> b[k] == b'[k]
    requires p < |b| && p + |CStr(b, p)| < n
    ensures CStr(b', p) == CStr(b, p)
    decreases n - p
  {
    if b[p] != NUL {
      CStrFrame(b, b', p + 1, n);
    }
  }

  /** A NUL written into a string splits it in two. */
  lemma {:induction false} CStrCut(b: seq<char>, b': seq<char>, p: nat, n: nat)
    requires Terminated(b) && p < |b| && n < |CStr(b, p)| && b' == b[p + n := NUL]
    ensures Terminated(b') && CStr(b', p) == CStr(b, p)[..n] && CStr(b', p + n + 1) == CStr(b, p)[n + 1..]
  {
    CStrSpan(b, p);
    var s := CStr(b, p);
    hide CStr;
    CStrIs(b', p, s[..n]);
    CStrIs(b', p + n + 1, s[n + 1..]);
  }

  /** How many leading characters are delimiters. */
  function Leading(s: string, d: char): (k: nat)
    ensures k <= |s|
  {
    if s == "" || s[0] != d then 0 else 1 + Leading(s[1..], d)
  }

  /** How many characters come before the first delimiter. */
  function Until(s: string, d: char): (k: nat)
    ensures k <= |s|
  {
    if s == "" || s[0] == d then 0 else 1 + Until(s[1..], d)
  }

  datatype Tokens = NoToken | Token(token: string, rest: Option<string>)

  /** A token at the front of a string without leading delimiters. What the pointer to the rest holds once
      the string is used up is left open by the standard: null, or the address of the NUL. */
  function FrontToken(t: string, d: char, nullAtEnd: bool): Tokens {
    var n := Until(t, d);
    if t == "" then NoToken
    else Token(t[..n], if n < |t| then Some(t[n + 1..]) else if nullAtEnd then None else Some(""))
  }

  /** strtok_s of section K.3.7.3.1 of ISO/IEC 9899:2011 with one delimiter. */
  function Tok(s: string, d: char, nullAtEnd: bool): Tokens {
    FrontToken(s[Leading(s, d)..], d, nullAtEnd)
  }

  /** The string an optional pointer stands for. */
  function At(b: seq<char>, p: Option<nat>): Option<string>
    requires Terminated(b) && (p.Some? ==> p.value < |b|)
  {
    match p
    case None => None
    case Some(q) => Some(CStr(b, q))
  }

  lemma {:induction false} LeadingStep(b: seq<char>, p: nat, d: char)
    requires Terminated(b) && p < |b| && d != NUL
    ensures b[p] == d ==> p + 1 < |b| && Leading(CStr(b, p), d) == 1 + Leading(CStr(b, p + 1), d)
    ensures b[p] != d ==> Leading(CStr(b, p), d) == 0
  {
    if b[p] != NUL {
      assert CStr(b, p)[1..] == CStr(b, p + 1);
    }
  }

  lemma {:induction false} UntilStep(b: seq<char>, p: nat, d: char)
    requires Terminated(b) && p < |b| && d != NUL
    ensures b[p] != d && b[p] != NUL ==> p + 1 < |b| && Until(CStr(b, p), d) == 1 + Until(CStr(b, p + 1), d)
    ensures b[p] == d || b[p] == NUL ==> Until(CStr(b, p), d) == 0
  {
    if b[p] != NUL {
      assert CStr(b, p)[1..] == CStr(b, p + 1);
    }
  }

  method SkipDelimiters(b: array<char>, from: nat, d: char) returns (i: nat)
    requires Terminated(b[..]) && from < b.Length && d != NUL
    ensures i == from + Leading(CStr(b[..], from), d)
  {
    ghost var bs := b[..];
    hide CStr, Leading;
    i := from;
    while b[i] == d
      invariant from <= i < b.Length && i + Leading(CStr(bs, i), d) == from + Leading(CStr(bs, from), d)
      decreases b.Length - i
    {
      LeadingStep(bs, i, d);
      i := i + 1;
    }
    LeadingStep(bs, i, d);
  }

  method FindDelimiter(b: array<char>, from: nat, d: char) returns (i: nat)
    requires Terminated(b[..]) && from < b.Length && d != NUL
    ensures i == from + Until(CStr(b[..], from), d)
  {
    ghost var bs := b[..];
    hide CStr, Until;
    i := from;
    while b[i] != d && b[i] != NUL
      invariant from <= i < b.Length && i + Until(CStr(bs, i), d) == from + Until(CStr(bs, from), d)
      decreases b.Length - i
    {
      UntilStep(bs, i, d);
      i := i + 1;
    }
    UntilStep(bs, i, d);
  }

  /** What the pointers show after a call. */
  ghost predicate Shows(b: seq<char>, t: Tokens, token: Option<nat>, rest: Option<nat>)
    requires Terminated(b) && (token.Some? ==> token.value < |b|) && (rest.Some? ==> rest.value < |b|)
  {
    match t
    case NoToken => token == None
    case Token(text, r) =>
      At(b, token) == Some(text) && At(b, rest) == r && (rest.Some? ==> token.value + |text| <= rest.value)
  }

  /** The second half of strtok_s: the token ends at the next delimiter or with the string. */
  method CutToken(b: array<char>, i: nat, d: char, nullAtEnd: bool) returns (rest: Option<nat>)
    requires Terminated(b[..]) && i < b.Length && d != NUL && b[i] != NUL
    modifies b
    ensures Terminated(b[..]) && (rest.Some? ==> i <= rest.value < b.Length)
    ensures forall k :: 0 <= k < i ==> b[k] == old(b[k])
    ensures Shows(b[..], old(FrontToken(CStr(b[..], i), d, nullAtEnd)), Some(i), rest)
  {
    ghost var was := b[..];
    ghost var t := CStr(was, i);
    hide CStr, Until;
    var j := FindDelimiter(b, i, d);
    CStrSuffix(was, i, 0);
    CStrSuffix(was, i, j - i);
    if b[j] == NUL {
      rest := if nullAtEnd then None else Some(j);
      assert CStr(was, j) == "" && t[..|t|] == t;
    } else {
      CStrCut(was, was[j := NUL], i, j - i);
      b[j] := NUL;
      rest := Some(j + 1);
      assert b[..] == was[j := NUL];
    }
  }

  /** strtok_s in place: the delimiter after the token becomes the end of the token. */
  method StrtokS(b: array<char>, from: nat, d: char, nullAtEnd: bool) returns (token: Option<nat>, rest: Option<nat>)
    requires Terminated(b[..]) && from < b.Length && d != NUL
    modifies b
    ensures Terminated(b[..]) && (token.Some? ==> token.value < b.Length) && (rest.Some? ==> rest.value < b.Length)
    ensures forall k :: 0 <= k < from ==> b[k] == old(b[k])
    ensures Shows(b[..], old(Tok(CStr(b[..], from), d, nullAtEnd)), token, rest)
    ensures token.None? ==> (rest.None? <==> nullAtEnd)
  {
    ghost var was := b[..];
    var i := SkipDelimiters(b, from, d);
    hide CStr, Leading, Until;
    CStrSuffix(was, from, i - from);
    if b[i] == NUL {
      return None, if nullAtEnd then None else Some(i);
    }
    token := Some(i);
    hide Shows, FrontToken;
    rest := CutToken(b, i, d, nullAtEnd);
  }
}
