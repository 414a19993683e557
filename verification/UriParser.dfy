/** struct uri: the parser that cuts the copy of a URI up in place, and who owns the result. */
module UriParser {
  import opened CStrings
  import opened Ip4
  import opened UriText

  /** Which blocks malloc has handed out and free has not taken back. */
  class Allocator {
    ghost var live: set<object>

    constructor ()
      ensures live == {}
    {
      live := {};
    }

    ghost method Take(block: object)
      requires block !in live
      modifies this
      ensures live == old(live) + {block}
    {
      live := live + {block};
    }

    ghost method Free(block: object)
      requires block in live
      modifies this
      ensures live == old(live) - {block}
    {
      live := live - {block};
    }
  }

  /** The union: pointers into the block `str`, as offsets. */
  datatype Fields = Unset | PipeFields(filepath: nat) | TcpFields(ip4: nat, port: nat)

  datatype Proto = PROTO_NOSET | PROTO_PIPE | PROTO_TCP

  class Uri {
    var str: array?<char>
    var proto: nat
    var fields: Fields

    constructor ()
      ensures str == null && fields == Unset
    {
      str, proto, fields := null, 0, Unset;
    }

    /** A finished address: the protocol says which half of the union is set. */
    ghost predicate Valid()
      reads this, str
    {
      && str != null && Terminated(str[..]) && proto < str.Length
      && match fields
         case Unset => false
         case PipeFields(f) => f < str.Length && CStr(str[..], proto) == "pipe"
         case TcpFields(i, p) => i < str.Length && p < str.Length && CStr(str[..], proto) == "tcp"
    }

    ghost function Value(): Address
      requires Valid()
      reads this, str
    {
      match fields
      case PipeFields(f) => Pipe(CStr(str[..], f))
      case TcpFields(i, p) => Tcp(CStr(str[..], i), CStr(str[..], p))
    }

    /** sc_uri_protocol */
    method Protocol() returns (p: Proto)
      requires Valid()
      ensures p == if Value().Pipe? then PROTO_PIPE else PROTO_TCP
    {
      var s := CStr(str[..], proto);
      if s == "pipe" {
        return PROTO_PIPE;
      }
      if s == "tcp" {
        return PROTO_TCP;
      }
      p := PROTO_NOSET;
    }

    /** sc_uri_pipe_filepath */
    method PipeFilepath() returns (f: string)
      requires Valid() && Value().Pipe?
      ensures Value() == Pipe(f)
    {
      f := CStr(str[..], fields.filepath);
    }

    /** sc_uri_tcp_ip4 */
    method TcpIp4() returns (ip: string)
      requires Valid() && Value().Tcp?
      ensures ip == Value().ip4
    {
      ip := CStr(str[..], fields.ip4);
    }

    /** sc_uri_tcp_port */
    method TcpPortNumber() returns (n: int)
      requires Valid() && Value().Tcp?
      ensures n == TcpPort(Value().port)
    {
      n := TcpPort(CStr(str[..], fields.port));
    }

    /** The tokenizing half of sc_uri_new: nothing, or the code of the refusal. */
    method Cut(nullAtEnd: bool, ghost text: string) returns (refused: Option<Code>)
      requires str != null && Terminated(str[..]) && text == CStr(str[..], 0)
      requires Parse(text, nullAtEnd) != NullToken
      modifies this`proto, this`fields, str
      ensures refused.None? ==> Valid() && Parse(text, nullAtEnd) == Accepted(Value())
      ensures refused.Some? ==> Parse(text, nullAtEnd) == Refused(refused.value)
      ensures refused == Some(SC_EINVPROTO) <==> exists a, word :: OtherWord(text, nullAtEnd, a, word)
      ensures refused != Some(SC_ENOMEM)
    {
      hide CStr, Tok, OtherWord;
      InvalidProtocolExactly(text, nullAtEnd);
      var token, rest := StrtokS(str, 0, ':', nullAtEnd);
      if rest == None {
        return Some(SC_EURIPARSE);
      }
      proto := token.value;
      if !Known(CStr(str[..], proto)) {
        return Some(SC_EINVPROTO);
      }
      hide Known;
      refused := CutPath(nullAtEnd, rest.value);
    }

    /** What follows the protocol. */
    method CutPath(nullAtEnd: bool, path: nat) returns (refused: Option<Code>)
      requires str != null && Terminated(str[..]) && proto < str.Length && path < str.Length
      requires Known(CStr(str[..], proto)) && proto + |CStr(str[..], proto)| <= path
      requires ParsePath(CStr(str[..], proto), CStr(str[..], path), nullAtEnd) != NullToken
      modifies this`fields, str
      ensures var r := old(ParsePath(CStr(str[..], proto), CStr(str[..], path), nullAtEnd));
        if refused.None? then Valid() && r == Accepted(Value()) else r == Refused(refused.value)
      ensures refused == None || refused == Some(SC_EURIPARSE)
    {
      hide CStr, ParseTcp;
      if |CStr(str[..], path)| <= 2 {
        return Some(SC_EURIPARSE);
      }
      PathFront(str, path);
      if str[path] != '/' {
        return Some(SC_EURIPARSE);
      }
      if str[path + 1] != '/' {
        return Some(SC_EURIPARSE);
      }
      if CStr(str[..], proto) == "pipe" {
        fields := PipeFields(path + 2);
        refused := None;
      } else {
        refused := CutTcp(nullAtEnd, path + 2);
      }
    }

    /** The branch for tcp. */
    method CutTcp(nullAtEnd: bool, path: nat) returns (refused: Option<Code>)
      requires str != null && Terminated(str[..]) && proto < path < str.Length
      requires CStr(str[..], proto) == "tcp" && proto + 3 < path
      requires ParseTcp(CStr(str[..], path), nullAtEnd) != NullToken
      modifies this`fields, str
      ensures refused.None? ==> Valid() && old(ParseTcp(CStr(str[..], path), nullAtEnd)) == Accepted(Value())
      ensures refused.Some? ==> old(ParseTcp(CStr(str[..], path), nullAtEnd)) == Refused(refused.value)
      ensures refused == None || refused == Some(SC_EURIPARSE)
    {
      ghost var was := str[..];
      var ip4, port := StrtokS(str, path, ':', nullAtEnd);
      CStrFrame(was, str[..], proto, path);
      var ok := CheckIp4(str, ip4.value);
      if !ok {
        return Some(SC_EURIPARSE);
      }
      if port == None || !CheckPort(CStr(str[..], port.value)) {
        return Some(SC_EURIPARSE);
      }
      fields := TcpFields(ip4.value, port.value);
      refused := None;
    }
  }

  lemma {:induction false} PathFront(str: array<char>, path: nat)
    requires Terminated(str[..]) && path < str.Length && |CStr(str[..], path)| > 2
    ensures var s := CStr(str[..], path);
      path + 2 < str.Length && s[0] == str[path] && s[1] == str[path + 1] && s[2..] == CStr(str[..], path + 2)
  {
    CStrSuffix(str[..], path, 2);
  }

  /** ctb_strdup, when there is memory. */
  method Strdup(s: string) returns (copy: array<char>)
    requires '\0' !in s
    ensures fresh(copy) && Terminated(copy[..]) && CStr(copy[..], 0) == s
  {
    copy := new char[|s| + 1](i => if 0 <= i < |s| then s[i] else NUL);
    assert copy[..|s|] == s;
    CStrIs(copy[..], 0, s);
  }

  /** sc_uri_new; the flags say which of the two allocations succeeds. On success the code is still the
      one that was set at first. Two blocks stay allocated exactly
      on success, and none on any refusal. */
  method New(heap: Allocator, instr: string, structOk: bool, copyOk: bool, nullAtEnd: bool)
    returns (uri: Uri?, errcode: Code)
    requires '\0' !in instr && Parse(instr, nullAtEnd) != NullToken
    modifies heap
    ensures uri != null <==> structOk && copyOk && Parse(instr, nullAtEnd).Accepted?
    ensures uri != null ==> fresh(uri) && uri.Valid() && fresh(uri.str)
    ensures uri != null ==> Parse(instr, nullAtEnd) == Accepted(uri.Value())
    ensures heap.live == if uri != null then old(heap.live) + {uri, uri.str} else old(heap.live)
    ensures uri == null ==> errcode == if structOk && copyOk then Parse(instr, nullAtEnd).code else SC_ENOMEM
    ensures uri == null ==> (errcode == SC_ENOMEM <==> !structOk || !copyOk)
    ensures uri == null ==> (errcode == SC_EINVPROTO <==>
      structOk && copyOk && exists a, word :: OtherWord(instr, nullAtEnd, a, word))
    ensures uri != null ==> errcode == SC_EURIPARSE
  {
    errcode := SC_EURIPARSE;
    if !structOk {
      return null, SC_ENOMEM;
    }
    uri := new Uri();
    heap.Take(uri);
    if !copyOk {
      heap.Free(uri);
      return null, SC_ENOMEM;
    }
    var str := Strdup(instr);
    heap.Take(str);
    uri.str := str;
    var refused := uri.Cut(nullAtEnd, instr);
    if refused.Some? {
      heap.Free(str);
      heap.Free(uri);
      return null, refused.value;
    }
  }

  /** sc_uri_del */
  method Del(heap: Allocator, uri: Uri)
    requires uri.str != null && {uri, uri.str} <= heap.live && (uri as object) != uri.str
    modifies heap
    ensures heap.live == old(heap.live) - {uri, uri.str}
  {
    heap.Free(uri.str);
    heap.Free(uri);
  }
}
