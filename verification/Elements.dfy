/** Elements of the intrusive trees of tree.h, ordered sequences of them, and the finite map that
    serves as the reference for whole runs. */
module Elements {

  datatype Color = Black | Red

  /** One element. `key` stands for whatever `cmp` compares. A red-black tree uses all four other
      fields (RB_ENTRY); a splay tree uses `left` and `right` (SPLAY_ENTRY). */
  class Node {
    const key: int
    var left: Node?
    var right: Node?
    var parent: Node?
    var color: Color

    constructor (k: int)
      ensures key == k && left == null && right == null && parent == null && color == Black
    {
      key := k;
      left, right, parent, color := null, null, null, Black;
    }
  }

  /** The sign of `cmp(elm, other)`. */
  function Cmp(elm: Node, other: Node): int {
    if elm.key < other.key then -1 else if elm.key > other.key then 1 else 0
  }

  ghost function Members(s: seq<Node>): set<Node> {
    set n | n in s
  }

  ghost predicate Sorted(s: seq<Node>) {
    forall i, j :: 0 <= i < j < |s| ==> s[i].key < s[j].key
  }

  /** A strictly ordered sequence around a pivot. */
  lemma {:induction false} SortedAround(a: seq<Node>, x: Node, b: seq<Node>)
    ensures Sorted(a + [x] + b) <==>
            Sorted(a) && Sorted(b) && (forall n :: n in a ==> n.key < x.key) && (forall n :: n in b ==> x.key < n.key)
  {
    var s := a + [x] + b;
    if Sorted(s) {
      assert forall i :: 0 <= i < |a| ==> s[i] == a[i];
      assert s[|a|] == x;
      assert forall i :: 0 <= i < |b| ==> s[|a| + 1 + i] == b[i];
    }
  }

  /** `after` is `before` without one occurrence of `n`. */
  ghost predicate Without(before: seq<Node>, n: Node, after: seq<Node>) {
    exists i :: 0 <= i < |before| && before[i] == n && after == before[..i] + before[i + 1..]
  }

  lemma {:induction false} Regroup<T>(p: seq<T>, a: seq<T>, b: seq<T>, c: seq<T>, q: seq<T>)
    ensures p + (a + b + c) + q == p + a + (b + c + q)
    ensures p + (a + b + c) + q == (p + a + b) + c + q
  {
  }

  /** `r` comes right after `n`, or `n` is the last and `r` null. */
  ghost predicate IsNext(s: seq<Node>, n: Node, r: Node?) {
    exists i :: 0 <= i < |s| && s[i] == n && r == if i + 1 < |s| then s[i + 1] else null
  }

  ghost predicate IsPrev(s: seq<Node>, n: Node, r: Node?) {
    exists i :: 0 <= i < |s| && s[i] == n && r == if i > 0 then s[i - 1] else null
  }

  /** In a strictly ordered sequence both are functions, and each undoes the other. */
  lemma {:induction false} NextPrevInverse(s: seq<Node>, n: Node, r: Node)
    requires Sorted(s)
    ensures IsNext(s, n, r) <==> IsPrev(s, r, n)
  {
  }

  lemma {:induction false} NextUnique(s: seq<Node>, n: Node, r: Node?, q: Node?)
    requires Sorted(s) && IsNext(s, n, r) && IsNext(s, n, q)
    ensures r == q
  {
  }

  lemma {:induction false} AfterEnd(p: seq<Node>, n: Node, q: seq<Node>)
    ensures IsNext(p + [n] + q, n, if q == [] then null else q[0])
  {
    var s := p + [n] + q;
    var r: Node? := if q == [] then null else q[0];
    assert s[|p|] == n && r == if |p| + 1 < |s| then s[|p| + 1] else null;
    assert IsNext(s, n, r);
  }

  lemma {:induction false} BeforeEnd(p: seq<Node>, n: Node, q: seq<Node>)
    ensures IsPrev(p + [n] + q, n, if p == [] then null else p[|p| - 1])
  {
    var s := p + [n] + q;
    var r: Node? := if p == [] then null else p[|p| - 1];
    assert s[|p|] == n && r == if |p| > 0 then s[|p| - 1] else null;
    assert IsPrev(s, n, r);
  }

  /** The successor of `x` is the head of what follows it. */
  lemma {:induction false} NextIsHead(a: seq<Node>, x: Node, r: seq<Node>, y: Node?)
    requires Sorted(a + [x] + r) && IsNext(a + [x] + r, x, y)
    ensures y == if r == [] then null else r[0]
  {
    AfterEnd(a, x, r);
    NextUnique(a + [x] + r, x, y, if r == [] then null else r[0]);
  }

  lemma {:induction false} SameIndex(s: seq<Node>, i: nat, j: nat)
    requires Sorted(s) && i < |s| && j < |s| && s[i] == s[j]
    ensures i == j
  {
  }

  /** One step of a walk along the sequence. */
  lemma {:induction false} NextAt(s: seq<Node>, i: nat, y: Node?)
    requires Sorted(s) && i < |s| && IsNext(s, s[i], y)
    ensures y == if i + 1 < |s| then s[i + 1] else null
    ensures s[..i + 1] == s[..i] + [s[i]]
  {
    var j: nat :| j < |s| && s[j] == s[i] && y == if j + 1 < |s| then s[j + 1] else null;
    SameIndex(s, i, j);
  }

  // ---- runs ----

  datatype Op = Add(n: Node) | Delete(n: Node) | Lookup(n: Node) | First | Last

  /** The reference: an element joins unless its key is taken; removal is by key. */
  function Apply(m: map<int, Node>, op: Op): map<int, Node> {
    match op
    case Add(n) => if n.key in m then m else m[n.key := n]
    case Delete(n) => m - {n.key}
    case _ => m
  }

  /** What a removal answers: the element that left (red-black tree), or its own argument (splay tree). */
  datatype Removal = TheElement | TheArgument

  /** The answer of an operation: the element that already holds the key, if any; for First and Last, the
      element at that end, if any. */
  ghost predicate Answer(rule: Removal, m: map<int, Node>, op: Op, r: Node?) {
    match op
    case Delete(n) => r == if n.key !in m then null else if rule.TheElement? then m[n.key] else n
    case First => if m == map[] then r == null else r != null && Holds(m, r) && forall k :: k in m ==> r.key <= k
    case Last => if m == map[] then r == null else r != null && Holds(m, r) && forall k :: k in m ==> k <= r.key
    case _ => r == if op.n.key in m then m[op.n.key] else null
  }

  predicate Holds(m: map<int, Node>, r: Node) {
    r.key in m && m[r.key] == r
  }

  /** The elements an operation names. */
  function Named(op: Op): set<Node> {
    if op.First? || op.Last? then {} else {op.n}
  }

  function ApplyAll(m: map<int, Node>, ops: seq<Op>): map<int, Node> {
    if ops == [] then m else Apply(ApplyAll(m, ops[..|ops| - 1]), ops[|ops| - 1])
  }

  /** The sequence lists exactly the elements of the map. */
  ghost predicate Lists(s: seq<Node>, m: map<int, Node>) {
    && (forall n :: n in s ==> n.key in m && m[n.key] == n)
    && (forall k :: k in m ==> m[k] in s && m[k].key == k)
  }

  lemma {:induction false} ListsTail(s: seq<Node>, m: map<int, Node>)
    requires Lists(s, m) && Sorted(s) && s != []
    ensures s[0].key in m && Lists(s[1..], m - {s[0].key}) && Sorted(s[1..])
  {
    var n, t := s[0], s[1..];
    assert n in s;
    forall x | x in t ensures x in s && x.key != n.key {
      var i :| 0 <= i < |t| && t[i] == x;
      assert s[i + 1] == x && s[0].key < s[i + 1].key;
    }
    forall k | k in m && k != n.key ensures m[k] in t {
      var i :| 0 <= i < |s| && s[i] == m[k];
      assert i > 0 ==> t[i - 1] == m[k];
    }
  }

  lemma {:induction false} SizeWithout(m: map<int, Node>, k: int)
    requires k in m
    ensures |m| == |m - {k}| + 1
  {
    assert m.Keys == (m - {k}).Keys + {k};
    assert |m.Keys| == |m| && |(m - {k}).Keys| == |m - {k}|;
  }

  lemma {:induction false} ListsSize(s: seq<Node>, m: map<int, Node>)
    requires Lists(s, m) && Sorted(s)
    ensures |s| == |m|
  {
    if s == [] {
      assert forall k :: k !in m;
      assert m == map[];
    } else {
      ListsTail(s, m);
      hide Lists, Sorted;
      ListsSize(s[1..], m - {s[0].key});
      SizeWithout(m, s[0].key);
    }
  }

  /** The ends of an ordered sequence answer First and Last. */
  lemma {:induction false} ListsEnds(rule: Removal, s: seq<Node>, m: map<int, Node>)
    requires Lists(s, m) && Sorted(s)
    ensures s == [] <==> m == map[]
    ensures Answer(rule, m, First, if s == [] then null else s[0])
    ensures Answer(rule, m, Last, if s == [] then null else s[|s| - 1])
  {
    ListsSize(s, m);
    if s != [] {
      assert s[0] in s && s[|s| - 1] in s;
      forall k | k in m ensures s[0].key <= k <= s[|s| - 1].key {
        var i :| 0 <= i < |s| && s[i] == m[k];
        assert i > 0 ==> s[0].key < s[i].key;
        assert i < |s| - 1 ==> s[i].key < s[|s| - 1].key;
      }
    }
  }

  lemma {:induction false} WithoutMembers(s: seq<Node>, n: Node, s': seq<Node>)
    requires Without(s, n, s')
    ensures forall x :: x in s <==> x in s' || x == n
    ensures Sorted(s) ==> n !in s'
  {
    var i :| 0 <= i < |s| && s[i] == n && s' == s[..i] + s[i + 1..];
    var a, b := s[..i], s[i + 1..];
    assert s == a + [n] + b;
    assert forall x :: x in a + [n] + b <==> x in a + b || x == n;
    SortedAround(a, n, b);
  }

  lemma {:induction false} ListsWith(s: seq<Node>, m: map<int, Node>, n: Node, s': seq<Node>)
    requires Lists(s, m) && Without(s', n, s) && n.key !in m
    ensures Lists(s', m[n.key := n])
  {
    WithoutMembers(s', n, s);
  }

  lemma {:induction false} ListsWithout(s: seq<Node>, m: map<int, Node>, n: Node, s': seq<Node>)
    requires Lists(s, m) && Sorted(s) && Without(s, n, s')
    ensures Lists(s', m - {n.key})
  {
    WithoutMembers(s, n, s');
    assert n in s;
  }

  lemma {:induction false} OneMore(ops: seq<Op>, i: nat)
    requires i < |ops|
    ensures ApplyAll(map[], ops[..i + 1]) == Apply(ApplyAll(map[], ops[..i]), ops[i])
  {
    assert ops[..i + 1][..i] == ops[..i];
  }

  /** The answers of a run, by the reference. */
  ghost predicate Agrees(rule: Removal, ops: seq<Op>, answers: seq<Node?>) {
    |answers| <= |ops| && forall i :: 0 <= i < |answers| ==> Answer(rule, ApplyAll(map[], ops[..i]), ops[i], answers[i])
  }

  lemma {:induction false} Started(rule: Removal, ops: seq<Op>)
    ensures Agrees(rule, ops, []) && ApplyAll(map[], ops[..0]) == map[]
  {
  }

  lemma {:induction false} Answered(rule: Removal, ops: seq<Op>, answers: seq<Node?>, r: Node?)
    requires Agrees(rule, ops, answers) && |answers| < |ops| &&
      Answer(rule, ApplyAll(map[], ops[..|answers|]), ops[|answers|], r)
    ensures Agrees(rule, ops, answers + [r])
  {
  }
}
