/** Who frees a parsed URI: the calls of socket.c that set, release and drop `socket->uri`. */
module UriOwner {
  import opened CStrings
  import opened UriText
  import opened UriParser

  /** A call: connect or bind, with the URI and the two allocations that may fail; or close. The
      results of the backend are passed through to the caller. */
  datatype Call =
    | Open(uri: string, structOk: bool, copyOk: bool, backend: int)
    | Close(backend: int)

  /** C strings that the tokenizer can be run on. */
  predicate Defined(c: Call, nullAtEnd: bool) {
    c.Open? ==> '\0' !in c.uri && Parse(c.uri, nullAtEnd) != NullToken
  }

  predicate Parses(c: Call, nullAtEnd: bool) {
    c.Open? && c.structOk && c.copyOk && Parse(c.uri, nullAtEnd).Accepted?
  }

  /** Does the socket hold a URI, and how many have been dropped without being freed? */
  datatype Ledger = Ledger(held: bool, lost: nat)

  function Step(l: Ledger, c: Call, nullAtEnd: bool): Ledger {
    match c
    case Open(_, _, _, _) => Ledger(Parses(c, nullAtEnd), if l.held then l.lost + 1 else l.lost)
    case Close(_) => Ledger(false, l.lost)
  }

  function Book(calls: seq<Call>, nullAtEnd: bool): Ledger {
    if calls == [] then Ledger(false, 0)
    else Step(Book(calls[..|calls| - 1], nullAtEnd), calls[|calls| - 1], nullAtEnd)
  }

  class Socket {
    var uri: Uri?

    constructor ()
      ensures uri == null
    {
      uri := null;
    }

    ghost function Blocks(): set<object>
      reads this, uri
    {
      if uri == null then {} else if uri.str == null then {uri} else {uri, uri.str}
    }

    /** The socket owns the two blocks of its URI. */
    ghost predicate Owns(heap: Allocator)
      reads this, uri, heap
    {
      Blocks() <= heap.live && (uri != null ==> uri.str != null && |Blocks()| == 2)
    }

    /** sc_socket_connect and sc_socket_bind: whatever was held before is forgotten, not freed. */
    method Open(heap: Allocator, text: string, structOk: bool, copyOk: bool, backend: int, nullAtEnd: bool)
      returns (errcode: Result)
      requires '\0' !in text && Parse(text, nullAtEnd) != NullToken && Owns(heap)
      modifies this, heap
      ensures Owns(heap) && heap.live == old(heap.live) + Blocks() && (uri != null ==> fresh(uri) && fresh(uri.str))
      ensures uri != null <==> structOk && copyOk && Parse(text, nullAtEnd).Accepted?
      ensures uri != null ==>
        uri.Valid() && Parse(text, nullAtEnd) == Accepted(uri.Value()) && errcode == Backend(backend)
      ensures uri == null ==> errcode == Refusal(if structOk && copyOk then Parse(text, nullAtEnd).code else SC_ENOMEM)
    {
      var code;
      uri, code := New(heap, text, structOk, copyOk, nullAtEnd);
      if uri == null {
        return Refusal(code);
      }
      Two(uri, uri.str);
      errcode := Backend(backend);
    }

    /** sc_socket_close */
    method Close(heap: Allocator, backend: int) returns (errcode: int)
      requires Owns(heap)
      modifies this, heap
      ensures uri == null && heap.live == old(heap.live) - old(Blocks()) && errcode == backend
    {
      errcode := backend;
      if uri != null {
        Del(heap, uri);
        uri := null;
      }
    }

    /** sc_socket_del, as far as the URI goes; the socket itself is gone afterwards. */
    method Drop(heap: Allocator)
      requires Owns(heap)
      modifies heap
      ensures heap.live == old(heap.live) - Blocks()
    {
      if uri != null {
        Del(heap, uri);
      }
    }
  }

  datatype Result = Backend(value: int) | Refusal(code: Code)

  lemma {:induction false} Two(a: object, b: object)
    requires a != b
    ensures |{a, b}| == 2
  {
  }

  lemma {:induction false} BookSnoc(calls: seq<Call>, i: nat, nullAtEnd: bool)
    requires i < |calls|
    ensures Book(calls[..i + 1], nullAtEnd) == Step(Book(calls[..i], nullAtEnd), calls[i], nullAtEnd)
  {
    assert calls[..i + 1][..i] == calls[..i];
  }

  /** Any calls on a new socket, and its deletion at the end: two blocks are left for every URI that was
      dropped while held, and no block is freed twice. */
  method Lifetime(heap: Allocator, calls: seq<Call>, nullAtEnd: bool)
    requires forall c :: c in calls ==> Defined(c, nullAtEnd)
    modifies heap
    ensures |heap.live| == |old(heap.live)| + 2 * Book(calls, nullAtEnd).lost
    ensures old(heap.live) <= heap.live
  {
    var socket := new Socket();
    ghost var before := heap.live;
    assert calls[..0] == [];
    assert Book([], nullAtEnd) == Ledger(false, 0);
    hide Book, Defined, Parses;
    for i := 0 to |calls|
      invariant fresh(socket) && before <= heap.live && socket.Owns(heap) && before !! socket.Blocks()
      invariant socket.uri != null <==> Book(calls[..i], nullAtEnd).held
      invariant |heap.live| == |before| + 2 * Book(calls[..i], nullAtEnd).lost + |socket.Blocks()|
      invariant socket.uri != null ==> fresh(socket.uri) && fresh(socket.uri.str)
    {
      BookSnoc(calls, i, nullAtEnd);
      One(heap, socket, calls[i], nullAtEnd, before);
    }
    assert calls[..|calls|] == calls;
    ghost var all, mine := heap.live, socket.Blocks();
    socket.Drop(heap);
    Taken(all, mine, before);
  }

  lemma {:induction false} Taken(all: set<object>, mine: set<object>, before: set<object>)
    requires mine <= all && before <= all && before !! mine
    ensures |all - mine| == |all| - |mine| && before <= all - mine
  {
    assert all - mine + mine == all;
  }

  lemma {:induction false} Added(all: set<object>, mine: set<object>)
    requires all !! mine
    ensures |all + mine| == |all| + |mine|
  {
    assert all + mine - mine == all;
  }

  /** One call on the socket, with what it does to the number of blocks. */
  method One(heap: Allocator, socket: Socket, c: Call, nullAtEnd: bool, ghost before: set<object>)
    requires Defined(c, nullAtEnd) && socket.Owns(heap) && before <= heap.live && before !! socket.Blocks()
    modifies heap, socket
    ensures socket.Owns(heap) && before <= heap.live && before !! socket.Blocks()
    ensures socket.uri != null ==> fresh(socket.uri) && fresh(socket.uri.str)
    ensures var l := Step(Ledger(old(socket.uri) != null, 0), c, nullAtEnd);
      && (socket.uri != null <==> l.held)
      && |heap.live| - |socket.Blocks()| == |old(heap.live)| - |old(socket.Blocks())| + 2 * l.lost
  {
    hide Parse;
    ghost var all, mine := heap.live, socket.Blocks();
    match c {
      case Open(text, structOk, copyOk, backend) =>
        var r := socket.Open(heap, text, structOk, copyOk, backend, nullAtEnd);
        Added(all, socket.Blocks());
      case Close(backend) =>
        var r := socket.Close(heap, backend);
        Taken(all, mine, before);
    }
  }

  /** The call before call i has left no URI, or call i is a close. */
  predicate Released(calls: seq<Call>, i: nat, nullAtEnd: bool)
    requires 0 < i < |calls|
  {
    Parses(calls[i - 1], nullAtEnd) ==> calls[i].Close?
  }

  /** Among the first n calls, no connect or bind comes right after one that has left a URI. */
  predicate Serial(calls: seq<Call>, n: nat, nullAtEnd: bool)
    requires n <= |calls|
  {
    forall i :: 0 < i < n ==> Released(calls, i, nullAtEnd)
  }

  lemma {:induction false} SerialSnoc(calls: seq<Call>, n: nat, nullAtEnd: bool)
    requires 0 < n <= |calls|
    ensures Serial(calls, n, nullAtEnd) <==>
      Serial(calls, n - 1, nullAtEnd) && (n > 1 ==> Released(calls, n - 1, nullAtEnd))
  {
    hide Released;
  }

  lemma {:induction false} NothingYet(calls: seq<Call>, nullAtEnd: bool)
    ensures Book(calls[..0], nullAtEnd) == Ledger(false, 0) && Serial(calls, 0, nullAtEnd)
  {
    assert calls[..0] == [];
  }

  /** The exact condition: no parsed URI is lost if and only if after every connect or bind that parses,
      the next call is a close. */
  lemma {:induction false} FreedOnceExactly(calls: seq<Call>, n: nat, nullAtEnd: bool)
    requires n <= |calls|
    ensures Book(calls[..n], nullAtEnd).lost == 0 <==> Serial(calls, n, nullAtEnd)
    ensures Book(calls[..n], nullAtEnd).held <==> n > 0 && Parses(calls[n - 1], nullAtEnd)
  {
    hide Book, Serial, Parse;
    if n > 0 {
      FreedOnceExactly(calls, n - 1, nullAtEnd);
      BookSnoc(calls, n - 1, nullAtEnd);
      SerialSnoc(calls, n, nullAtEnd);
    } else {
      NothingYet(calls, nullAtEnd);
    }
  }

  lemma {:induction false} BookOne(front: seq<Call>, c: Call, nullAtEnd: bool)
    ensures Book(front + [c], nullAtEnd) == Step(Book(front, nullAtEnd), c, nullAtEnd)
  {
    assert (front + [c])[..|front|] == front;
  }

  /** Two connects in a row lose the first URI. */
  lemma {:induction false} LostWitness(nullAtEnd: bool)
    ensures var c := Open("pipe://a", true, true, 0);
      Defined(c, nullAtEnd) && Book([c, c], nullAtEnd) == Ledger(true, 1)
  {
    var c := Open("pipe://a", true, true, 0);
    hide Parse;
    PipeRoundTrip("a", nullAtEnd);
    assert "pipe://" + "a" == "pipe://a";
    BookOne([], c, nullAtEnd);
    BookOne([c], c, nullAtEnd);
    assert [] + [c] == [c] && [c] + [c] == [c, c];
  }
}
