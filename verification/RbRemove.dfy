/** RB_REMOVE and RB_REMOVE_COLOR of tree.h. */
module RbRemove {
  import opened Elements
  import opened RbShape
  import opened RbMemory
  import opened RbHeap

  /** Red sibling on the right: it moves above the parent. */
  method RedSiblingOnRight(head: RbHead, parent: Node, sib: Node, ghost k: Ctx, ghost s: Tree)
    returns (tmp: Node, ghost k': Ctx)
    requires head.At(k, s) && Short(k, s) && k.InL? && k.x == parent && k.c == Black
    requires k.r.Bin? && k.r.x == sib && k.r.c == Red && k.r.l.Bin?
    modifies head`root, head`mem, head.mem.Keys
    ensures head.mem.Keys == old(head.mem.Keys)
    ensures head.At(k', s) && Short(k', s) && Order(k', s) == Order(k, s) && Outer(k') == Outer(k)
    ensures k' == InL(Red, parent, k.r.l, InL(Black, sib, k.r.r, k.up)) && tmp == k.r.l.x
  {
    hide RbHead.At, Order, Short;
    ghost var up, a, b := k.up, k.r.l, k.r.r;
    RedSiblingLeft(up, parent, a, sib, b, s);
    head.Facts(k, s);
    head.SetColorSib(sib, Black, k, s);
    ghost var k1 := InL(Black, parent, Bin(Black, a, sib, b), up);
    head.Facts(k1, s);
    head.SetColorUp(parent, Red, k1, s);
    ghost var k2 := InL(Red, parent, Bin(Black, a, sib, b), up);
    head.RefocusAt(k2, s);
    tmp := head.RotateLeftAt(parent, up, Fill(k2, s));
    k' := InL(Red, parent, a, InL(Black, sib, b, up));
    head.RefocusAt(k'.up, Bin(Red, s, parent, a));
    head.RefocusAt(k', s);
    head.Facts(k', s);
    tmp := parent.right;
  }

  /** The inner nephew is red and the outer one is not. */
  method InnerNephewOnRight(head: RbHead, parent: Node, sib: Node, ghost k: Ctx, ghost s: Tree)
    returns (tmp: Node, ghost k': Ctx)
    requires head.At(k, s) && Short(k, s) && k.InL? && k.x == parent
    requires k.r.Bin? && k.r.x == sib && k.r.c == Black && Col(k.r.l) == Red && Col(k.r.r) == Black
    modifies head`root, head`mem, head.mem.Keys
    ensures head.mem.Keys == old(head.mem.Keys)
    ensures k'.InL? && k'.c == k.c && k'.x == parent && k'.up == k.up
    ensures k'.r.Bin? && k'.r.x == tmp && k'.r.c == Black && Col(k'.r.r) == Red
    ensures head.At(k', s) && Short(k', s) && Order(k', s) == Order(k, s)
  {
    hide RbHead.At, Order;
    ghost var a, z, b, d := k.r.l.l, k.r.l.x, k.r.l.r, k.r.r;
    ghost var q := InR(k.c, s, parent, k.up);
    head.AcrossAt(k, s);
    ghost var ql := InL(Black, sib, d, q);
    head.RefocusAt(ql, k.r.l);
    head.Facts(ql, k.r.l);
    var oleft: Node? := sib.left;
    if oleft != null {
      head.SetColorAt(oleft, Black, ql, k.r.l);
    }
    ghost var n := Bin(Black, a, z, b);
    head.Facts(ql, n);
    head.SetColorUp(sib, Red, ql, n);
    head.RefocusAt(InL(Red, sib, d, q), n);
    oleft := head.RotateRightAt(sib, q, Bin(Red, n, sib, d));
    ghost var c := Bin(Black, a, z, Bin(Red, b, sib, d));
    k' := InL(k.c, parent, c, k.up);
    head.AcrossAt(k', s);
    head.Facts(k', s);
    tmp := parent.right;
    InnerNephewShape(k, s, a, z, b, sib, d);
  }

  /** The outer nephew is red: the last rotation. */
  method OuterNephewOnRight(head: RbHead, parent: Node, sib: Node, ghost k: Ctx, ghost s: Tree) returns (ghost t: Tree)
    requires head.At(k, s) && Short(k, s) && Rb(s) && k.InL? && k.x == parent
    requires k.r.Bin? && k.r.x == sib && k.r.c == Black && Col(k.r.r) == Red
    modifies head`root, head`mem, head.mem.Keys
    ensures head.mem.Keys == old(head.mem.Keys)
    ensures head.At(k.up, t) && Fits(k.up, t) && Order(k.up, t) == Order(k, s)
  {
    hide RbHead.At, Order, Short, Fits;
    ghost var c, up, a, b, w, d := k.c, k.up, k.r.l, k.r.r.l, k.r.r.x, k.r.r.r;
    OuterNephewLeft(c, parent, a, sib, b, w, d, up, s);
    head.Facts(k, s);
    head.SetColorSib(sib, parent.color, k, s);
    ghost var k1 := InL(c, parent, Bin(c, a, sib, Bin(Red, b, w, d)), up);
    head.Facts(k1, s);
    head.SetColorUp(parent, Black, k1, s);
    ghost var k2 := InL(Black, parent, Bin(c, a, sib, Bin(Red, b, w, d)), up);
    ghost var q := InR(c, a, sib, InR(Black, s, parent, up));
    head.AcrossAt(k2, s);
    head.RefocusAt(q, Bin(Red, b, w, d));
    head.Facts(q, Bin(Red, b, w, d));
    if sib.right != null {
      head.SetColorAt(sib.right, Black, q, Bin(Red, b, w, d));
    }
    ghost var r := Bin(Black, b, w, d);
    head.RefocusAt(q, r);
    head.AcrossAt(InL(Black, parent, Bin(c, a, sib, r), up), s);
    head.RefocusAt(InL(Black, parent, Bin(c, a, sib, r), up), s);
    var tmp := head.RotateLeftAt(parent, up, Bin(Black, s, parent, Bin(c, a, sib, r)));
    t := Bin(c, Bin(Black, s, parent, a), sib, r);
  }

  /** The mirrored cases, for a subtree on the right. */
  method RedSiblingOnLeft(head: RbHead, parent: Node, sib: Node, ghost k: Ctx, ghost s: Tree)
    returns (tmp: Node, ghost k': Ctx)
    requires head.At(k, s) && Short(k, s) && k.InR? && k.x == parent && k.c == Black
    requires k.l.Bin? && k.l.x == sib && k.l.c == Red && k.l.r.Bin?
    modifies head`root, head`mem, head.mem.Keys
    ensures head.mem.Keys == old(head.mem.Keys)
    ensures head.At(k', s) && Short(k', s) && Order(k', s) == Order(k, s) && Outer(k') == Outer(k)
    ensures k' == InR(Red, k.l.r, parent, InR(Black, k.l.l, sib, k.up)) && tmp == k.l.r.x
  {
    hide RbHead.At, Order, Short;
    ghost var up, a, b := k.up, k.l.r, k.l.l;
    RedSiblingRight(up, b, sib, a, parent, s);
    head.Facts(k, s);
    head.SetColorSib(sib, Black, k, s);
    ghost var k1 := InR(Black, Bin(Black, b, sib, a), parent, up);
    head.Facts(k1, s);
    head.SetColorUp(parent, Red, k1, s);
    ghost var k2 := InR(Red, Bin(Black, b, sib, a), parent, up);
    head.RefocusAt(k2, s);
    tmp := head.RotateRightAt(parent, up, Fill(k2, s));
    k' := InR(Red, a, parent, InR(Black, b, sib, up));
    head.RefocusAt(k'.up, Bin(Red, a, parent, s));
    head.RefocusAt(k', s);
    head.Facts(k', s);
    tmp := parent.left;
  }

  method InnerNephewOnLeft(head: RbHead, parent: Node, sib: Node, ghost k: Ctx, ghost s: Tree)
    returns (tmp: Node, ghost k': Ctx)
    requires head.At(k, s) && Short(k, s) && k.InR? && k.x == parent
    requires k.l.Bin? && k.l.x == sib && k.l.c == Black && Col(k.l.r) == Red && Col(k.l.l) == Black
    modifies head`root, head`mem, head.mem.Keys
    ensures head.mem.Keys == old(head.mem.Keys)
    ensures k'.InR? && k'.c == k.c && k'.x == parent && k'.up == k.up
    ensures k'.l.Bin? && k'.l.x == tmp && k'.l.c == Black && Col(k'.l.l) == Red
    ensures head.At(k', s) && Short(k', s) && Order(k', s) == Order(k, s)
  {
    hide RbHead.At, Order;
    ghost var a, z, b, d := k.l.r.r, k.l.r.x, k.l.r.l, k.l.l;
    ghost var q := InL(k.c, parent, s, k.up);
    head.AcrossAt(k, s);
    ghost var ql := InR(Black, d, sib, q);
    head.RefocusAt(ql, k.l.r);
    head.Facts(ql, k.l.r);
    var oright: Node? := sib.right;
    if oright != null {
      head.SetColorAt(oright, Black, ql, k.l.r);
    }
    ghost var n := Bin(Black, b, z, a);
    head.Facts(ql, n);
    head.SetColorUp(sib, Red, ql, n);
    head.RefocusAt(InR(Red, d, sib, q), n);
    oright := head.RotateLeftAt(sib, q, Bin(Red, d, sib, n));
    ghost var c := Bin(Black, Bin(Red, d, sib, b), z, a);
    k' := InR(k.c, c, parent, k.up);
    head.AcrossAt(k', s);
    head.Facts(k', s);
    tmp := parent.left;
    InnerNephewShapeLeft(k, s, d, sib, b, z, a);
  }

  method OuterNephewOnLeft(head: RbHead, parent: Node, sib: Node, ghost k: Ctx, ghost s: Tree) returns (ghost t: Tree)
    requires head.At(k, s) && Short(k, s) && Rb(s) && k.InR? && k.x == parent
    requires k.l.Bin? && k.l.x == sib && k.l.c == Black && Col(k.l.l) == Red
    modifies head`root, head`mem, head.mem.Keys
    ensures head.mem.Keys == old(head.mem.Keys)
    ensures head.At(k.up, t) && Fits(k.up, t) && Order(k.up, t) == Order(k, s)
  {
    hide RbHead.At, Order, Short, Fits;
    ghost var c, up, a, b, w, d := k.c, k.up, k.l.r, k.l.l.r, k.l.l.x, k.l.l.l;
    OuterNephewRight(c, d, w, b, sib, a, parent, up, s);
    head.Facts(k, s);
    head.SetColorSib(sib, parent.color, k, s);
    ghost var k1 := InR(c, Bin(c, Bin(Red, d, w, b), sib, a), parent, up);
    head.Facts(k1, s);
    head.SetColorUp(parent, Black, k1, s);
    ghost var k2 := InR(Black, Bin(c, Bin(Red, d, w, b), sib, a), parent, up);
    ghost var q := InL(c, sib, a, InL(Black, parent, s, up));
    head.AcrossAt(k2, s);
    head.RefocusAt(q, Bin(Red, d, w, b));
    head.Facts(q, Bin(Red, d, w, b));
    if sib.left != null {
      head.SetColorAt(sib.left, Black, q, Bin(Red, d, w, b));
    }
    ghost var l := Bin(Black, d, w, b);
    head.RefocusAt(q, l);
    head.AcrossAt(InR(Black, Bin(c, l, sib, a), parent, up), s);
    head.RefocusAt(InR(Black, Bin(c, l, sib, a), parent, up), s);
    var tmp := head.RotateRightAt(parent, up, Bin(Black, Bin(c, l, sib, a), parent, s));
    t := Bin(c, l, sib, Bin(Black, a, parent, s));
  }

  lemma {:induction false} InnerNephewShape(k: Ctx, s: Tree, a: Tree, z: Node, b: Tree, y: Node, d: Tree)
    requires Short(k, s) && k.InL? && k.r == Bin(Black, Bin(Red, a, z, b), y, d) && Col(d) == Black
    ensures var k' := InL(k.c, k.x, Bin(Black, a, z, Bin(Red, b, y, d)), k.up);
      Short(k', s) && Order(k', s) == Order(k, s)
  {
    var c := Bin(Black, a, z, Bin(Red, b, y, d));
    assert Rb(k.r) && Rb(Bin(Red, a, z, b)) && Rb(Bin(Red, b, y, d));
    RotateOrder(Black, a, z, Red, b, y, d);
    assert InOrder(Bin(Black, a, z, b)) == InOrder(Bin(Red, a, z, b));
    InnerNephewRb(k, s, c);
  }

  lemma {:induction false} InnerNephewShapeLeft(k: Ctx, s: Tree, d: Tree, y: Node, b: Tree, z: Node, a: Tree)
    requires Short(k, s) && k.InR? && k.l == Bin(Black, d, y, Bin(Red, b, z, a)) && Col(d) == Black
    ensures var k' := InR(k.c, Bin(Black, Bin(Red, d, y, b), z, a), k.x, k.up);
      Short(k', s) && Order(k', s) == Order(k, s)
  {
    var c := Bin(Black, Bin(Red, d, y, b), z, a);
    assert Rb(k.l) && Rb(Bin(Red, b, z, a)) && Rb(Bin(Red, d, y, b));
    RotateOrder(Red, d, y, Black, b, z, a);
    assert InOrder(Bin(Black, b, z, a)) == InOrder(Bin(Red, b, z, a));
    InnerNephewRb(k, s, c);
  }

  /** One turn of the loop of RB_REMOVE_COLOR; `fixed` tells that the loop was left by `break`. */
  method RemoveColorStep(head: RbHead, parent0: Node, elm0: Node?, ghost k0: Ctx, ghost s0: Tree)
    returns (fixed: bool, parent: Node?, elm: Node?, ghost k: Ctx, ghost s: Tree)
    requires head.At(k0, s0) && Short(k0, s0) && Rb(s0) && elm0 == Root(s0) && !k0.Top? && k0.x == parent0
    modifies head`root, head`mem, head.mem.Keys
    ensures head.mem.Keys == old(head.mem.Keys)
    ensures head.At(k, s) && Order(k, s) == Order(k0, s0) && Outer(k) == Outer(k0)
    ensures if fixed then Fits(k, s) && elm == head.root else Short(k, s) && elm == Root(s) && parent == Par(k)
    ensures !fixed && Col(s) == Black ==> Depth(k) < Depth(k0)
  {
    hide RbHead.At;
    parent, elm, k, s := parent0, elm0, k0, s0;
    fixed := false;
    head.Facts(k, s);
    ShortHasSibling(k, s);
    if parent.left == elm {
      var tmp := parent.right;
      if tmp.color == Red {
        tmp, k := RedSiblingOnRight(head, parent, tmp, k, s);
        ShortHasSibling(k, s);
      }
      parent, elm, k, s, fixed := RepairOnRight(head, parent, tmp, k, s);
    } else {
      var tmp := parent.left;
      if tmp.color == Red {
        tmp, k := RedSiblingOnLeft(head, parent, tmp, k, s);
        ShortHasSibling(k, s);
      }
      parent, elm, k, s, fixed := RepairOnLeft(head, parent, tmp, k, s);
    }
  }

  /** The rest of a turn, once the sibling is black. */
  method RepairOnRight(head: RbHead, parent0: Node, sib: Node, ghost k0: Ctx, ghost s0: Tree)
    returns (parent: Node?, elm: Node?, ghost k: Ctx, ghost s: Tree, fixed: bool)
    requires head.At(k0, s0) && Short(k0, s0) && Rb(s0) && k0.InL? && k0.x == parent0
    requires k0.r.Bin? && k0.r.x == sib && k0.r.c == Black
    modifies head`root, head`mem, head.mem.Keys
    ensures head.mem.Keys == old(head.mem.Keys)
    ensures head.At(k, s) && Order(k, s) == Order(k0, s0) && k == k0.up
    ensures if fixed then Fits(k, s) && elm == head.root
      else Short(k, s) && elm == Root(s) && parent == Par(k) && Col(s) == k0.c
  {
    hide RbHead.At;
    var tmp := sib;
    k, s := k0, s0;
    head.AcrossAt(k, s);
    head.Facts(Across(k, s), k.r);
    head.NephewFacts(Across(k, s), k.r);
    if (tmp.left == null || tmp.left.color == Black) && (tmp.right == null || tmp.right.color == Black) {
      BlackNephewsRb(k, s);
      head.SetColorSib(tmp, Red, k, s);
      s := Fill(SetSib(k, k.r.(c := Red)), s);
      head.RefocusAt(SetSib(k0, k0.r.(c := Red)), s0);
      k := k.up;
      head.Facts(k, s);
      elm := parent0;
      parent := elm.parent;
      fixed := false;
    } else {
      if tmp.right == null || tmp.right.color == Black {
        tmp, k := InnerNephewOnRight(head, parent0, tmp, k, s);
      }
      s := OuterNephewOnRight(head, parent0, tmp, k, s);
      k := k.up;
      elm := head.root;
      parent := null;
      fixed := true;
    }
  }

  method RepairOnLeft(head: RbHead, parent0: Node, sib: Node, ghost k0: Ctx, ghost s0: Tree)
    returns (parent: Node?, elm: Node?, ghost k: Ctx, ghost s: Tree, fixed: bool)
    requires head.At(k0, s0) && Short(k0, s0) && Rb(s0) && k0.InR? && k0.x == parent0
    requires k0.l.Bin? && k0.l.x == sib && k0.l.c == Black
    modifies head`root, head`mem, head.mem.Keys
    ensures head.mem.Keys == old(head.mem.Keys)
    ensures head.At(k, s) && Order(k, s) == Order(k0, s0) && k == k0.up
    ensures if fixed then Fits(k, s) && elm == head.root
      else Short(k, s) && elm == Root(s) && parent == Par(k) && Col(s) == k0.c
  {
    hide RbHead.At;
    var tmp := sib;
    k, s := k0, s0;
    head.AcrossAt(k, s);
    head.Facts(Across(k, s), k.l);
    head.NephewFacts(Across(k, s), k.l);
    if (tmp.left == null || tmp.left.color == Black) && (tmp.right == null || tmp.right.color == Black) {
      BlackNephewsRb(k, s);
      head.SetColorSib(tmp, Red, k, s);
      s := Fill(SetSib(k, k.l.(c := Red)), s);
      head.RefocusAt(SetSib(k0, k0.l.(c := Red)), s0);
      k := k.up;
      head.Facts(k, s);
      elm := parent0;
      parent := elm.parent;
      fixed := false;
    } else {
      if tmp.left == null || tmp.left.color == Black {
        tmp, k := InnerNephewOnLeft(head, parent0, tmp, k, s);
      }
      s := OuterNephewOnLeft(head, parent0, tmp, k, s);
      k := k.up;
      elm := head.root;
      parent := null;
      fixed := true;
    }
  }


  /** RB_REMOVE_COLOR: the focused subtree lacks one black node. */
  method RemoveColor(head: RbHead, parent0: Node?, elm0: Node?, ghost k0: Ctx, ghost s0: Tree) returns (ghost t: Tree)
    requires head.At(k0, s0) && Short(k0, s0) && elm0 == Root(s0) && parent0 == Par(k0)
    modifies head`root, head`mem, head.mem.Keys
    ensures head.mem.Keys == old(head.mem.Keys)
    ensures head.At(Outer(k0), t) && Rb(t) && Col(t) == Black
    ensures InOrder(t) == Order(k0, s0)
  {
    hide RbHead.At, Order, InOrder;
    var parent, elm := parent0, elm0;
    ghost var k, s, fixed := k0, s0, false;
    head.Facts(k, s);
    head.RootAt(k, s);
    while (elm == null || elm.color == Black) && elm != head.root
      invariant head.At(k, s) && Short(k, s) && elm == Root(s) && parent == Par(k)
      invariant (elm != null ==> elm in head.mem && elm.color == s.c) && (k.Top? <==> elm == head.root)
      invariant Outer(k) == Outer(k0) && Order(k, s) == Order(k0, s0)
      invariant head.mem.Keys == old(head.mem.Keys)
      decreases if Col(s) == Red then 0 else Depth(k) + 1
    {
      var done;
      done, parent, elm, k, s := RemoveColorStep(head, parent, elm, k, s);
      head.Facts(k, s);
      head.RootAt(k, s);
      if done {
        fixed := true;
        break;
      }
    }
    if fixed {
      head.ZippedAt(k, s);
      FitsPlug(k, s);
      k, s := Outer(k), Plug(k, s);
    } else {
      Blackened(k, s);
    }
    t := Blacken(head, elm, k, s);
  }

  /** The closing line: `elm`, if any, becomes black. */
  method Blacken(head: RbHead, elm: Node?, ghost k: Ctx, ghost s: Tree) returns (ghost t: Tree)
    requires head.At(k, s) && elm == Root(s) && Fits(k, if s.Bin? then s.(c := Black) else s)
    modifies head`mem, head.mem.Keys
    ensures head.mem.Keys == old(head.mem.Keys)
    ensures head.At(Outer(k), t) && Rb(t) && Col(t) == Black && InOrder(t) == Order(k, s)
  {
    hide RbHead.At;
    ghost var u := s;
    if elm != null {
      head.Facts(k, s);
      head.SetColorAt(elm, Black, k, s);
      u := s.(c := Black);
    }
    head.ZippedAt(k, u);
    PlugRb(k, u);
    PlugInOrder(k, u);
    t := Plug(k, u);
  }

  lemma {:induction false} FitsPlug(k: Ctx, s: Tree)
    requires Fits(k, s)
    ensures var t := Plug(k, s);
      Fits(Outer(k), t) && Col(t) == Black && Order(Outer(k), t) == Order(k, s)
  {
    PlugRb(k, s);
    PlugInOrder(k, s);
  }

  /** `child` takes the place of `n` below `parent`. */
  method Splice(head: RbHead, n: Node, parent: Node?, child: Node?, ghost k: Ctx, ghost t: Tree)
    requires head.At(k, t) && t.Bin? && t.x == n && (t.l.Leaf? || t.r.Leaf?)
    requires parent == Par(k) && child == Root(if t.l.Leaf? then t.r else t.l)
    modifies head`root, head`mem, head.mem.Keys
    ensures head.mem.Keys == old(head.mem.Keys)
    ensures head.At(k, if t.l.Leaf? then t.r else t.l)
    ensures n.parent == old(n.parent)
  {
    head.Facts(k, t);
    head.NephewFacts(k, t);
    SpliceIn(head.mem, k, t);
    hide TreeIn, CtxIn, Ord, CtxOrd;
    head.Adopt(child, parent);
    head.Relink(parent, n, child);
  }

  /** RB_REMOVE of a node with at most one child, up to the label `color`. */
  method UnlinkOne(head: RbHead, elm: Node, child: Node?, ghost k: Ctx, ghost t: Tree)
    returns (parent: Node?, color: Color, ghost u: Tree)
    requires head.At(k, t) && t.Bin? && t.x == elm && Fits(k, t) && (t.l.Leaf? || t.r.Leaf?)
    requires child == Root(if t.l.Leaf? then t.r else t.l)
    modifies head`root, head`mem, head.mem.Keys
    ensures head.mem.Keys == old(head.mem.Keys)
    ensures head.At(k, u) && child == Root(u) && parent == Par(k)
    ensures if color == Black then Short(k, u) else Fits(k, u)
    ensures Order(k, u) == Before(k) + InOrder(t.l) + (InOrder(t.r) + After(k))
  {
    hide RbHead.At, InOrder, Before, After, Fits, Short;
    head.Facts(k, t);
    parent := elm.parent;
    color := elm.color;
    Splice(head, elm, parent, child, k, t);
    SplicedRb(k, t.c, t.l, elm, t.r);
    u := if t.l.Leaf? then t.r else t.l;
    OnlyChild(k, t, u);
  }

  lemma {:induction false} OnlyChild(k: Ctx, t: Tree, u: Tree)
    requires t.Bin? && if t.l.Leaf? then u == t.r else u == t.l && t.r.Leaf?
    ensures Order(k, u) == Before(k) + InOrder(t.l) + (InOrder(t.r) + After(k))
  {
    assert InOrder(Leaf) == [];
    var a, b, c, d := Before(k), InOrder(t.l), InOrder(t.r), After(k);
    hide Before, After, InOrder;
    assert a + b + (c + d) == a + (b + c) + d;
    assert b == [] ==> b + c == c;
    assert c == [] ==> b + c == b;
  }

  /** The walk to the successor of a node with two children. */
  method Leftmost(head: RbHead, top: Node, ghost k: Ctx, ghost t: Tree)
    returns (elm: Node, ghost inner: Ctx, ghost s: Tree)
    requires head.At(k, t) && t.Bin? && t.x == top && t.r.Bin?
    ensures Spine(inner) && Outer(inner).Top? && Plug(inner, s) == t.r && s.Bin? && s.x == elm && s.l.Leaf?
    ensures head.At(Append(inner, InR(t.c, t.l, top, k)), s)
  {
    hide RbHead.At;
    head.Facts(k, t);
    elm := top.right;
    inner, s := Top(0, 0), t.r;
    ghost var frame := InR(t.c, t.l, top, k);
    head.RefocusAt(frame, s);
    head.Facts(frame, s);
    var left := elm.left;
    while left != null
      invariant Spine(inner) && Plug(inner, s) == t.r && s.Bin? && s.x == elm && left == Root(s.l)
      invariant head.At(Append(inner, frame), s)
      decreases s
    {
      elm := left;
      inner, s := InL(s.c, s.x, s.r, inner), s.l;
      head.RefocusAt(Append(inner, frame), s);
      head.Facts(Append(inner, frame), s);
      left := elm.left;
    }
  }

  /** The record assignment `(elm)->field = (old)->field`. */
  method CopyFields(head: RbHead, x: Node, y: Node)
    requires head.Synced() && x in head.mem && y in head.mem
    modifies head`mem, x
    ensures head.Synced() && head.mem.Keys == old(head.mem.Keys) && head.mem == old(head.mem)[x := old(head.mem)[y]]
  {
    x.left, x.right, x.parent, x.color := y.left, y.right, y.parent, y.color;
    head.mem := head.mem[x := head.mem[y]];
  }

  /** `x` takes over the record of `y` and every link that led to `y`. */
  method TakeLinks(head: RbHead, y: Node, x: Node)
    requires head.Synced() && x in head.mem && y in head.mem && x != y && y.left in head.mem
    requires y.parent != null ==> y.parent in head.mem && y.parent != y
    requires y.right != null ==> y.right in head.mem && y.left != y
    modifies head`root, head`mem, head.mem.Keys
    ensures head.Synced() && head.mem == Replaced(old(head.mem), y, x)
    ensures head.root == if old(y.parent) == null then x else old(head.root)
  {
    CopyFields(head, x, y);
    head.Relink(y.parent, y, x);
    head.SetParent(y.left, x);
    head.Adopt(y.right, x);
  }

  method Replace(head: RbHead, y: Node, x: Node, ghost k: Ctx, ghost t: Tree)
    requires head.At(k, t) && t.Bin? && t.x == y && t.l.Bin? && x in head.mem
    requires y.key < x.key < Hi(k) && Ord(t.r, x.key, Hi(k))
    modifies head`root, head`mem, head.mem.Keys
    ensures head.mem.Keys == old(head.mem.Keys)
    ensures head.At(k, t.(x := x))
  {
    head.Facts(k, t);
    head.NephewFacts(k, t);
    ReplaceIn(head.mem, k, t.c, t.l, y, t.r, x);
    assert Ord(t.l, Lo(k), y.key);
    assert Par(k) != y && t.l.x.key < y.key;
    TakeLinks(head, y, x);
  }

  /** RB_REMOVE of a node with two children, up to the label `color`: its successor is taken out
      and put in its place, so that every other node keeps its identity. */
  method UnlinkTwo(head: RbHead, top: Node, ghost k: Ctx, ghost t: Tree)
    returns (parent: Node?, child: Node?, color: Color, ghost q: Ctx, ghost u: Tree)
    requires head.At(k, t) && t.Bin? && t.x == top && Fits(k, t) && t.l.Bin? && t.r.Bin?
    modifies head`root, head`mem, head.mem.Keys
    ensures head.mem.Keys == old(head.mem.Keys)
    ensures head.At(q, u) && child == Root(u) && parent == Par(q) && Outer(q) == Outer(k)
    ensures if color == Black then Short(q, u) else Fits(q, u)
    ensures Order(q, u) == Before(k) + InOrder(t.l) + (InOrder(t.r) + After(k))
  {
    hide RbHead.At;
    var elm;
    ghost var inner, s;
    elm, inner, s := Leftmost(head, top, k, t);
    ghost var frame := InR(t.c, t.l, top, k);
    ghost var p := Append(inner, frame);
    head.Facts(p, s);
    u := s.r;
    child := elm.right;
    parent := elm.parent;
    color := elm.color;
    SuccessorBounds(head, k, t, inner, s);
    Splice(head, elm, parent, child, p, s);
    if elm.parent == top {
      parent := elm;
    }
    head.AppendAt(inner, frame, u);
    head.RefocusAt(frame, Plug(inner, u));
    ghost var t1 := Bin(t.c, t.l, top, Plug(inner, u));
    Replace(head, top, elm, k, t1);
    ghost var frame1 := InR(t.c, t.l, elm, k);
    head.RefocusAt(frame1, Plug(inner, u));
    head.AppendAt(inner, frame1, u);
    q := Append(inner, frame1);
    SuccessorRb(k, t, inner, s, elm);
    SuccessorOrder(k, t, inner, s, elm);
  }

  /** Once the leftmost node is taken out, everything left of the old place is above its key. */
  lemma {:induction false} SuccessorBounds(head: RbHead, k: Ctx, t: Tree, inner: Ctx, s: Tree)
    requires head.At(k, t) && t.Bin? && Spine(inner) && Plug(inner, s) == t.r && s.Bin? && s.l.Leaf?
    ensures t.x.key < s.x.key < Hi(k) && Ord(Plug(inner, s.r), s.x.key, Hi(k))
    ensures Par(Append(inner, InR(t.c, t.l, t.x, k))) == t.x <==> inner.Top?
    ensures Par(Append(inner, InR(t.c, t.l, s.x, k))) == if inner.Top? then s.x
      else Par(Append(inner, InR(t.c, t.l, t.x, k)))
  {
    SpineOrd(inner, s, s.r, t.x.key, s.x.key, Hi(k));
    PlugNodes(inner, s);
    OrdNodes(t.r, t.x.key, Hi(k));
    assert s.x in Nodes(t.r);
    assert !inner.Top? ==> inner.x in CtxNodes(inner);
  }

  lemma {:induction false} SuccessorRb(k: Ctx, t: Tree, inner: Ctx, s: Tree, x: Node)
    requires t.Bin? && Fits(k, t) && Plug(inner, s) == t.r && s.Bin? && s.l.Leaf?
    ensures var q := Append(inner, InR(t.c, t.l, x, k));
      Outer(q) == Outer(k) && if s.c == Black then Short(q, s.r) else Fits(q, s.r)
  {
    var frame := InR(t.c, t.l, t.x, k);
    var p := Append(inner, frame);
    AppendPlug(inner, frame, s);
    AppendPlug(inner, InR(t.c, t.l, x, k), s);
    PlugRb(k, t);
    PlugRb(p, s);
    SplicedRb(p, s.c, s.l, s.x, s.r);
    AppendRb(inner, t.c, t.l, t.x, x, k, Bh(s.r));
    AppendRb(inner, t.c, t.l, t.x, x, k, Bh(s.r) + 1);
  }

  lemma {:induction false} SuccessorOrder(k: Ctx, t: Tree, inner: Ctx, s: Tree, x: Node)
    requires t.Bin? && Spine(inner) && Plug(inner, s) == t.r && s.Bin? && s.l.Leaf? && s.x == x
    ensures Order(Append(inner, InR(t.c, t.l, x, k)), s.r) == Before(k) + InOrder(t.l) + (InOrder(t.r) + After(k))
  {
    PlugInOrder(inner, s);
    SpineOrder(inner, InR(t.c, t.l, x, k));
    assert InOrder(s) == [x] + InOrder(s.r) by {
      assert InOrder(s.l) == [];
    }
    hide *;
    Chain(Before(k), InOrder(t.l), [x], InOrder(s.r), After(inner), After(k));
  }

  lemma {:induction false} Chain(a: seq<Node>, b: seq<Node>, c: seq<Node>, d: seq<Node>, e: seq<Node>, f: seq<Node>)
    ensures a + b + c + d + (e + f) == a + b + (([] + (c + d) + e) + f)
  {
  }

  /** RB_REMOVE of a member: exactly that node leaves; every other node stays the same object. */
  method Remove(head: RbHead, elm: Node) returns (removed: Node)
    requires head.Valid() && elm in Nodes(head.tree)
    modifies head, head.mem.Keys
    ensures head.Valid() && removed == elm
    ensures Without(old(InOrder(head.tree)), elm, InOrder(head.tree))
    ensures Nodes(head.tree) == old(Nodes(head.tree)) - {elm}
    ensures head.lo == old(head.lo) && head.hi == old(head.hi)
  {
    hide RbHead.At, InOrder, Nodes, Order, Before, After;
    ghost var before := head.tree;
    head.Ordered(before);
    ghost var z := Locate(Top(head.lo, head.hi), before, elm);
    ghost var k, t := z.0, z.1;
    head.ZippedAt(k, t);
    PlugRb(k, t);
    var parent, child, color;
    ghost var q, u;
    parent, child, color, q, u := Unlink(head, elm, k, t);
    ghost var after := Settle(head, parent, child, color, q, u);
    Removed(k, t, after);
    head.Forget(elm, after);
    removed := elm;
  }

  /** RB_REMOVE up to the label `color`. */
  method Unlink(head: RbHead, elm: Node, ghost k: Ctx, ghost t: Tree)
    returns (parent: Node?, child: Node?, color: Color, ghost q: Ctx, ghost u: Tree)
    requires head.At(k, t) && t.Bin? && t.x == elm && Fits(k, t)
    modifies head`root, head`mem, head.mem.Keys
    ensures head.mem.Keys == old(head.mem.Keys)
    ensures head.At(q, u) && child == Root(u) && parent == Par(q) && Outer(q) == Outer(k)
    ensures if color == Black then Short(q, u) else Fits(q, u)
    ensures Order(q, u) == Before(k) + InOrder(t.l) + (InOrder(t.r) + After(k))
  {
    hide RbHead.At;
    head.Facts(k, t);
    q := k;
    if elm.left == null {
      child := elm.right;
      parent, color, u := UnlinkOne(head, elm, child, k, t);
    } else if elm.right == null {
      child := elm.left;
      parent, color, u := UnlinkOne(head, elm, child, k, t);
    } else {
      parent, child, color, q, u := UnlinkTwo(head, elm, k, t);
    }
  }

  /** RB_REMOVE from the label `color` on. */
  method Settle(head: RbHead, parent: Node?, child: Node?, color: Color, ghost q: Ctx, ghost u: Tree)
    returns (ghost t: Tree)
    requires head.At(q, u) && child == Root(u) && parent == Par(q)
    requires if color == Black then Short(q, u) else Fits(q, u)
    modifies head`root, head`mem, head.mem.Keys
    ensures head.mem.Keys == old(head.mem.Keys)
    ensures head.At(Outer(q), t) && Rb(t) && Col(t) == Black && InOrder(t) == Order(q, u)
  {
    hide RbHead.At;
    if color == Black {
      t := RemoveColor(head, parent, child, q, u);
    } else {
      head.ZippedAt(q, u);
      PlugRb(q, u);
      PlugInOrder(q, u);
      t := Plug(q, u);
    }
  }

  /** The new sequence is the old one without `t.x`, which does not occur twice. */
  lemma {:induction false} Removed(k: Ctx, t: Tree, after: Tree)
    requires t.Bin? && Sorted(InOrder(Plug(k, t)))
    requires InOrder(after) == Before(k) + InOrder(t.l) + (InOrder(t.r) + After(k))
    ensures Without(InOrder(Plug(k, t)), t.x, InOrder(after))
    ensures t.x !in Nodes(after) && Nodes(Plug(k, t)) == Nodes(after) + {t.x}
  {
    PlugInOrder(k, t);
    InOrderNodes(after);
    InOrderNodes(Plug(k, t));
    var s, a, b, c, d := InOrder(Plug(k, t)), Before(k), InOrder(t.l), InOrder(t.r), After(k);
    assert s == a + (b + [t.x] + c) + d;
    hide InOrder, Nodes, Before, After, Plug;
    TakenOut(a, b, t.x, c, d);
    assert s == (a + b) + [t.x] + (c + d);
    SortedAround(a + b, t.x, c + d);
    SetWithout(a + b, t.x, c + d, Nodes(Plug(k, t)), Nodes(after));
  }

  lemma {:induction false} TakenOut(a: seq<Node>, b: seq<Node>, n: Node, c: seq<Node>, d: seq<Node>)
    ensures var s, i := a + (b + [n] + c) + d, |a + b|;
      s == (a + b) + [n] + (c + d) && s[i] == n && a + b + (c + d) == s[..i] + s[i + 1..]
  {
  }

  lemma {:induction false} SetWithout(a: seq<Node>, n: Node, b: seq<Node>, m: set<Node>, m': set<Node>)
    requires forall x :: x in a + [n] + b <==> x in m
    requires forall x :: x in a + b <==> x in m'
    requires forall x :: x in a ==> x.key < n.key
    requires forall x :: x in b ==> n.key < x.key
    ensures n !in m' && m == m' + {n}
  {
    assert n in a + [n] + b;
    assert forall x :: x in a + [n] + b <==> x in a + b || x == n;
  }
}
