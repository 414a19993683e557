/** Lookup and traversal of tree.h: RB_FIND, RB_NFIND, RB_MINMAX, RB_NEXT, RB_PREV and the loops
    built from them. */
module RbQuery {
  import opened Elements
  import opened RbShape
  import opened RbMemory
  import opened RbHeap
  import opened RbRemove

  /** RB_FIND: the element with an equal key, if there is one. */
  method Find(head: RbHead, elm: Node) returns (r: Node?)
    requires head.Valid()
    ensures r != null ==> r in InOrder(head.tree) && r.key == elm.key
    ensures r == null ==> forall n :: n in InOrder(head.tree) ==> n.key != elm.key
  {
    hide RbHead.At, InOrder;
    var tmp := head.root;
    ghost var k, s := Top(head.lo, head.hi), head.tree;
    head.Facts(k, s);
    while tmp != null
      invariant head.At(k, s) && tmp == Root(s) && Plug(k, s) == head.tree && OutsideHole(k, elm.key)
      decreases s
    {
      head.Facts(k, s);
      head.OrderedAt(k, s);
      var comp := Cmp(elm, tmp);
      FocusMember(k, s);
      StepOutside(k, s, elm.key);
      if comp < 0 {
        tmp := tmp.left;
        k, s := InL(s.c, s.x, s.r, k), s.l;
      } else if comp > 0 {
        tmp := tmp.right;
        k, s := InR(s.c, s.l, s.x, k), s.r;
      } else {
        return tmp;
      }
      head.RefocusAt(k, s);
    }
    NoneOutside(k, elm.key);
    r := null;
  }

  /** Nodes before the hole have smaller keys and nodes after it larger ones. */
  ghost predicate OutsideHole(k: Ctx, key: int) {
    (forall n :: n in Before(k) ==> n.key < key) && (forall n :: n in After(k) ==> key < n.key)
  }

  lemma {:induction false} FocusMember(k: Ctx, s: Tree)
    requires s.Bin?
    ensures s.x in InOrder(Plug(k, s))
  {
    PlugInOrder(k, s);
    assert InOrder(s)[|InOrder(s.l)|] == s.x;
    assert s.x in InOrder(s);
  }

  lemma {:induction false} StepOutside(k: Ctx, s: Tree, key: int)
    requires s.Bin? && OutsideHole(k, key) && Sorted(InOrder(s))
    ensures key < s.x.key ==> OutsideHole(InL(s.c, s.x, s.r, k), key)
    ensures s.x.key < key ==> OutsideHole(InR(s.c, s.l, s.x, k), key)
  {
    SortedAround(InOrder(s.l), s.x, InOrder(s.r));
  }

  lemma {:induction false} NoneOutside(k: Ctx, key: int)
    requires OutsideHole(k, key)
    ensures forall n :: n in InOrder(Plug(k, Leaf)) ==> n.key != key
  {
    PlugInOrder(k, Leaf);
    assert InOrder(Leaf) == [];
  }

  /** RB_NFIND: the first element whose key is not below the search key. */
  method NFind(head: RbHead, elm: Node) returns (res: Node?)
    requires head.Valid()
    ensures res == null ==> forall n :: n in InOrder(head.tree) ==> n.key < elm.key
    ensures res != null ==> res in InOrder(head.tree) && elm.key <= res.key
    ensures res != null ==> forall n :: n in InOrder(head.tree) && elm.key <= n.key ==> res.key <= n.key
  {
    hide RbHead.At, InOrder;
    var tmp := head.root;
    res := null;
    ghost var k, s := Top(head.lo, head.hi), head.tree;
    head.Facts(k, s);
    while tmp != null
      invariant head.At(k, s) && tmp == Root(s) && Plug(k, s) == head.tree && OutsideHole(k, elm.key)
      invariant res == if After(k) == [] then null else After(k)[0]
      decreases s
    {
      head.Facts(k, s);
      head.OrderedAt(k, s);
      var comp := Cmp(elm, tmp);
      StepOutside(k, s, elm.key);
      if comp < 0 {
        res := tmp;
        tmp := tmp.left;
        k, s := InL(s.c, s.x, s.r, k), s.l;
      } else if comp > 0 {
        tmp := tmp.right;
        k, s := InR(s.c, s.l, s.x, k), s.r;
      } else {
        FocusMember(k, s);
        head.Ordered(head.tree);
        return tmp;
      }
      head.RefocusAt(k, s);
    }
    head.Ordered(head.tree);
    Nearest(k, elm.key);
  }

  lemma {:induction false} Nearest(k: Ctx, key: int)
    requires OutsideHole(k, key) && Sorted(InOrder(Plug(k, Leaf)))
    ensures var s, res := InOrder(Plug(k, Leaf)), if After(k) == [] then null else After(k)[0];
      if res == null then forall n :: n in s ==> n.key < key
      else res in s && key <= res.key && forall n :: n in s && key <= n.key ==> res.key <= n.key
  {
    PlugInOrder(k, Leaf);
    assert InOrder(Leaf) == [];
    var a, b := Before(k), After(k);
    var s := a + [] + b;
    assert s == InOrder(Plug(k, Leaf));
    if b != [] {
      assert s[|a|] == b[0];
      forall n | n in s && key <= n.key ensures b[0].key <= n.key {
        assert n in a || n in b;
      }
    }
  }

  /** RB_MINMAX: the first element for a negative `val`, else the last. */
  method MinMax(head: RbHead, val: int) returns (parent: Node?)
    requires head.Valid()
    ensures InOrder(head.tree) == [] ==> parent == null
    ensures InOrder(head.tree) != [] ==> parent == if val < 0 then InOrder(head.tree)[0]
      else InOrder(head.tree)[|InOrder(head.tree)| - 1]
  {
    hide RbHead.At, InOrder;
    var tmp := head.root;
    parent := null;
    ghost var k, s := Top(head.lo, head.hi), head.tree;
    head.Facts(k, s);
    while tmp != null
      invariant head.At(k, s) && tmp == Root(s) && Plug(k, s) == head.tree
      invariant parent == Par(k) && (if val < 0 then Spine(k) else RightSpine(k))
      decreases s
    {
      head.Facts(k, s);
      parent := tmp;
      if val < 0 {
        tmp := tmp.left;
        k, s := InL(s.c, s.x, s.r, k), s.l;
      } else {
        tmp := tmp.right;
        k, s := InR(s.c, s.l, s.x, k), s.r;
      }
      head.RefocusAt(k, s);
    }
    if val < 0 {
      SpineEnd(k);
    } else {
      RightSpineEnd(k);
    }
  }

  /** A context of right turns only. */
  predicate RightSpine(k: Ctx) {
    k.Top? || (k.InR? && RightSpine(k.up))
  }

  lemma {:induction false} SpineEnd(k: Ctx)
    requires Spine(k)
    ensures var s := InOrder(Plug(k, Leaf));
      if k.Top? then s == [] else s != [] && s[0] == k.x
  {
    PlugInOrder(k, Leaf);
    SpineOrder(k, k);
    assert InOrder(Leaf) == [];
  }

  lemma {:induction false} RightSpineEnd(k: Ctx)
    requires RightSpine(k)
    ensures After(k) == []
    ensures var s := InOrder(Plug(k, Leaf));
      if k.Top? then s == [] else s != [] && s[|s| - 1] == k.x
  {
    PlugInOrder(k, Leaf);
    assert InOrder(Leaf) == [];
    if !k.Top? {
      RightSpineEnd(k.up);
    }
  }

  // ---- successor and predecessor ----

  /** RB_NEXT. The head is only named for the specification. */
  method Next(ghost head: RbHead, n: Node) returns (r: Node?)
    requires head.Valid() && n in Nodes(head.tree)
    ensures IsNext(InOrder(head.tree), n, r)
  {
    hide RbHead.At, InOrder;
    ghost var z := Locate(Top(head.lo, head.hi), head.tree, n);
    ghost var k, s := z.0, z.1;
    head.ZippedAt(k, s);
    head.Facts(k, s);
    PlugInOrder(k, s);
    var elm: Node? := n;
    if elm.right != null {
      ghost var frame := InR(s.c, s.l, s.x, k);
      RefocusOrder(frame, s.r);
      k, s := frame, s.r;
      head.RefocusAt(k, s);
      head.Facts(k, s);
      elm := elm.right;
      while elm.left != null
        invariant head.At(k, s) && s.Bin? && s.x == elm && elm.left == Root(s.l)
        invariant Before(k) == Before(frame) && Order(k, s) == InOrder(head.tree)
        decreases s
      {
        elm := elm.left;
        RefocusOrder(InL(s.c, s.x, s.r, k), s.l);
        k, s := InL(s.c, s.x, s.r, k), s.l;
        head.RefocusAt(k, s);
        head.Facts(k, s);
      }
      LeftEnd(frame, k, s, InOrder(head.tree));
    } else {
      ghost var p := Before(k) + InOrder(s.l);
      RightEnd(k, s);
      elm := Climb(head, n, k, s);
      AfterEnd(p, n, After(k));
    }
    r := elm;
  }

  /** The upward part of RB_NEXT. */
  method Climb(ghost head: RbHead, n: Node, ghost k0: Ctx, ghost s0: Tree) returns (elm: Node?)
    requires head.At(k0, s0) && s0.Bin? && s0.x == n
    ensures elm == if After(k0) == [] then null else After(k0)[0]
  {
    hide RbHead.At, InOrder;
    elm := n;
    ghost var k, s := k0, s0;
    head.Facts(k, s);
    head.ParentFacts(k, s);
    if elm.parent != null && elm == elm.parent.left {
      elm := elm.parent;
    } else {
      while elm.parent != null && elm == elm.parent.right
        invariant head.At(k, s) && s.Bin? && s.x == elm && elm.parent == Par(k) && After(k) == After(k0)
        invariant !k.Top? ==> (k.InL? <==> elm == elm.parent.left) && (k.InR? <==> elm == elm.parent.right)
        decreases Depth(k)
      {
        elm := elm.parent;
        head.RefocusAt(k, s);
        k, s := k.up, Fill(k, s);
        head.Facts(k, s);
        head.ParentFacts(k, s);
      }
      elm := elm.parent;
    }
  }

  lemma {:induction false} LeftEnd(frame: Ctx, k: Ctx, s: Tree, order: seq<Node>)
    requires frame.InR? && Before(k) == Before(frame) && Order(k, s) == order && s.Bin? && s.l.Leaf?
    ensures IsNext(order, frame.x, s.x)
  {
    var b, i := Before(k), |Before(k)|;
    assert b[i - 1] == frame.x;
    assert InOrder(s) == [s.x] + InOrder(s.r) by {
      assert InOrder(s.l) == [];
    }
    assert order[i - 1] == frame.x && order[i] == s.x;
  }

  lemma {:induction false} RightEnd(k: Ctx, s: Tree)
    requires s.Bin? && s.r.Leaf?
    ensures Order(k, s) == Before(k) + InOrder(s.l) + [s.x] + After(k)
  {
    assert InOrder(s.r) == [];
    assert InOrder(s) == InOrder(s.l) + [s.x];
  }

  /** RB_PREV. */
  method Prev(ghost head: RbHead, n: Node) returns (r: Node?)
    requires head.Valid() && n in Nodes(head.tree)
    ensures IsPrev(InOrder(head.tree), n, r)
  {
    hide RbHead.At, InOrder;
    ghost var z := Locate(Top(head.lo, head.hi), head.tree, n);
    ghost var k, s := z.0, z.1;
    head.ZippedAt(k, s);
    head.Facts(k, s);
    PlugInOrder(k, s);
    var elm: Node? := n;
    if elm.left != null {
      ghost var frame := InL(s.c, s.x, s.r, k);
      RefocusOrder(frame, s.l);
      k, s := frame, s.l;
      head.RefocusAt(k, s);
      head.Facts(k, s);
      elm := elm.left;
      while elm.right != null
        invariant head.At(k, s) && s.Bin? && s.x == elm && elm.right == Root(s.r)
        invariant After(k) == After(frame) && Order(k, s) == InOrder(head.tree)
        decreases s
      {
        elm := elm.right;
        RefocusOrder(InR(s.c, s.l, s.x, k), s.r);
        k, s := InR(s.c, s.l, s.x, k), s.r;
        head.RefocusAt(k, s);
        head.Facts(k, s);
      }
      RightmostEnd(frame, k, s, InOrder(head.tree));
    } else {
      ghost var q := InOrder(s.r) + After(k);
      LeftmostEnd(k, s);
      elm := ClimbLeft(head, n, k, s);
      BeforeEnd(Before(k), n, q);
    }
    r := elm;
  }

  /** The upward part of RB_PREV. */
  method ClimbLeft(ghost head: RbHead, n: Node, ghost k0: Ctx, ghost s0: Tree) returns (elm: Node?)
    requires head.At(k0, s0) && s0.Bin? && s0.x == n
    ensures elm == if Before(k0) == [] then null else Before(k0)[|Before(k0)| - 1]
  {
    hide RbHead.At, InOrder;
    elm := n;
    ghost var k, s := k0, s0;
    head.Facts(k, s);
    head.ParentFacts(k, s);
    if elm.parent != null && elm == elm.parent.right {
      elm := elm.parent;
    } else {
      while elm.parent != null && elm == elm.parent.left
        invariant head.At(k, s) && s.Bin? && s.x == elm && elm.parent == Par(k) && Before(k) == Before(k0)
        invariant !k.Top? ==> (k.InL? <==> elm == elm.parent.left) && (k.InR? <==> elm == elm.parent.right)
        decreases Depth(k)
      {
        elm := elm.parent;
        head.RefocusAt(k, s);
        k, s := k.up, Fill(k, s);
        head.Facts(k, s);
        head.ParentFacts(k, s);
      }
      elm := elm.parent;
    }
  }

  lemma {:induction false} RightmostEnd(frame: Ctx, k: Ctx, s: Tree, order: seq<Node>)
    requires frame.InL? && After(k) == After(frame) && Order(k, s) == order && s.Bin? && s.r.Leaf?
    ensures IsPrev(order, frame.x, s.x)
  {
    var i := |Before(k)| + |InOrder(s.l)|;
    assert InOrder(s) == InOrder(s.l) + [s.x] by {
      assert InOrder(s.r) == [];
    }
    assert order[i] == s.x && order[i + 1] == frame.x;
  }

  lemma {:induction false} LeftmostEnd(k: Ctx, s: Tree)
    requires s.Bin? && s.l.Leaf?
    ensures Order(k, s) == Before(k) + [s.x] + (InOrder(s.r) + After(k))
  {
    assert InOrder(s.l) == [];
    assert InOrder(s) == [s.x] + InOrder(s.r);
  }

  // ---- loops ----

  /** The elements that `drop` does not select, in order. */
  ghost function Kept(s: seq<Node>, drop: Node -> bool): seq<Node> {
    if s == [] then [] else (if drop(s[0]) then [] else [s[0]]) + Kept(s[1..], drop)
  }

  lemma {:induction false} KeptAppend(s: seq<Node>, x: Node, drop: Node -> bool)
    ensures Kept(s + [x], drop) == Kept(s, drop) + (if drop(x) then [] else [x])
  {
    if s != [] {
      assert (s + [x])[1..] == s[1..] + [x];
      KeptAppend(s[1..], x, drop);
    } else {
      assert (s + [x])[1..] == [];
    }
  }

  lemma {:induction false} WithoutSplit(a: seq<Node>, x: Node, r: seq<Node>, after: seq<Node>)
    requires Sorted(a + [x] + r) && Without(a + [x] + r, x, after)
    ensures after == a + r
  {
    var s := a + [x] + r;
    var i: nat :| i < |s| && s[i] == x && after == s[..i] + s[i + 1..];
    assert s[|a|] == x;
    SameIndex(s, i, |a|);
    hide Sorted, Without;
    assert s[..|a|] == a && s[|a| + 1..] == r;
  }

  /** RB_FOREACH: every element once, in increasing order. */
  method Foreach(head: RbHead) returns (visited: seq<Node>)
    requires head.Valid()
    ensures visited == InOrder(head.tree)
  {
    hide RbHead.At, InOrder, Nodes;
    InOrderNodes(head.tree);
    head.Ordered(head.tree);
    ghost var s := InOrder(head.tree);
    var x := MinMax(head, -1);
    visited := [];
    hide Sorted, IsNext;
    while x != null
      invariant |visited| <= |s| && visited == s[..|visited|]
      invariant x == if |visited| < |s| then s[|visited|] else null
      decreases |s| - |visited|
    {
      ghost var i := |visited|;
      InOrderNodes(head.tree);
      assert s[i] in s;
      var y := Next(head, x);
      NextAt(s, i, y);
      visited := visited + [x];
      x := y;
    }
  }

  /** RB_FOREACH_SAFE with a body that removes the elements chosen by `drop`: every original
      element is visited once, in order, although the tree shrinks and turns meanwhile. */
  method ForeachSafe(head: RbHead, drop: Node -> bool) returns (visited: seq<Node>)
    requires head.Valid()
    modifies head, head.mem.Keys
    ensures head.Valid()
    ensures visited == old(InOrder(head.tree))
    ensures InOrder(head.tree) == Kept(old(InOrder(head.tree)), drop)
  {
    hide RbHead.At, InOrder, Nodes;
    ghost var s := InOrder(head.tree);
    ghost var rest := s;
    var x := MinMax(head, -1);
    visited := [];
    assert Kept([], drop) == [] && [] + s == s;
    hide Kept;
    while x != null
      invariant head.Valid() && head.mem.Keys <= old(head.mem.Keys)
      invariant visited + rest == s && x == if rest == [] then null else rest[0]
      invariant InOrder(head.tree) == Kept(visited, drop) + rest
      decreases |rest|
    {
      ghost var a, r := Kept(visited, drop), rest[1..];
      MoveOne(visited, rest);
      MoveOne(a, rest);
      KeptAppend(visited, x, drop);
      visited := visited + [x];
      x := SafeBody(head, x, drop, a, r);
      rest := r;
    }
    assert visited + [] == visited && Kept(visited, drop) + [] == Kept(visited, drop);
  }

  lemma {:induction false} MoveOne(a: seq<Node>, rest: seq<Node>)
    requires rest != []
    ensures a + rest == a + [rest[0]] + rest[1..]
  {
  }

  /** One turn of RB_FOREACH_SAFE: the successor is fetched first, then the body may remove `x`. */
  method SafeBody(head: RbHead, x: Node, drop: Node -> bool, ghost a: seq<Node>, ghost r: seq<Node>) returns (y: Node?)
    requires head.Valid() && InOrder(head.tree) == a + [x] + r
    modifies head, head.mem.Keys
    ensures head.Valid() && head.mem.Keys <= old(head.mem.Keys)
    ensures y == if r == [] then null else r[0]
    ensures InOrder(head.tree) == a + (if drop(x) then [] else [x]) + r
  {
    hide RbHead.At, InOrder, Nodes;
    InOrderNodes(head.tree);
    head.Ordered(head.tree);
    assert x in InOrder(head.tree);
    y := Next(head, x);
    NextIsHead(a, x, r, y);
    if drop(x) {
      var _ := Remove(head, x);
      WithoutSplit(a, x, r, InOrder(head.tree));
      assert a + [] + r == a + r;
    }
  }
}
