/** RB_INSERT and RB_INSERT_COLOR of tree.h. */
module RbInsert {
  import opened Elements
  import opened RbShape
  import opened RbMemory
  import opened RbHeap

  /** The uncle is red: recolour and go on at the grandparent. */
  method Recolor(head: RbHead, parent: Node, gparent: Node, tmp: Node, ghost k: Ctx, ghost s: Tree)
    returns (ghost t: Tree)
    requires head.At(k, s) && RedAt(k, s) && !k.Top? && k.c == Red && !k.up.Top? && k.x == parent && k.up.x == gparent
    requires Sib(k.up).Bin? && Sib(k.up).x == tmp && Sib(k.up).c == Red
    modifies head`mem, head.mem.Keys
    ensures head.mem.Keys == old(head.mem.Keys)
    ensures head.At(k.up.up, t) && RedAt(k.up.up, t) && t.x == gparent
    ensures Order(k.up.up, t) == Order(k, s)
  {
    hide RbHead.At;
    RecolorRb(k, s);
    head.RefocusAt(k, s);
    head.Facts(k, s);
    head.Facts(k.up, Fill(k, s));
    head.RefocusAt(k, s);
    head.SetColorSib(tmp, Black, k.up, Fill(k, s));
    ghost var k1 := SetSib(k.up, Sib(k.up).(c := Black));
    ghost var k2 := k.(up := k1);
    head.RefocusAt(k2, s);
    head.SetColorUp(parent, Black, k2, s);
    ghost var p := Fill(k.(c := Black), s);
    head.RefocusAt(k2.(c := Black), s);
    head.SetColorUp(gparent, Red, k1, p);
    head.RefocusAt(k1.(c := Red), p);
    t := Fill(k1.(c := Red), p);
  }

  /** An inner grandchild is first rotated outwards, below its grandparent. */
  method LiftInnerRight(head: RbHead, elm: Node, parent: Node, ghost k: Ctx, ghost s: Tree)
    returns (ghost k': Ctx, ghost s': Tree)
    requires head.At(k, s) && RedAt(k, s) && !k.Top? && k.c == Red && k.x == parent && k.InR? && s.x == elm
    modifies head`root, head`mem, head.mem.Keys
    ensures head.mem.Keys == old(head.mem.Keys)
    ensures k' == InL(Red, elm, s.r, k.up) && s' == Bin(Red, k.l, parent, s.l) && head.At(k', s')
    ensures Order(k', s') == Order(k, s)
  {
    head.RefocusAt(k, s);
    var tmp := head.RotateLeftAt(parent, k.up, Fill(k, s));
    k', s' := InL(Red, elm, s.r, k.up), Bin(Red, k.l, parent, s.l);
    head.RefocusAt(k', s');
    RefocusOrder(k, s);
    RefocusOrder(k', s');
    RotateOrder(Red, k.l, parent, Red, s.l, elm, s.r);
  }

  method TurnLeft(head: RbHead, first: Node, gparent: Node, ghost k: Ctx, ghost s: Tree)
    returns (elm: Node, ghost k': Ctx, ghost s': Tree)
    requires head.At(k, s) && RedAt(k, s) && !k.Top? && k.c == Red && k.up.InL? && k.up.x == gparent &&
      s.x == first && Col(k.up.r) == Black
    modifies head`root, head`mem, head.mem.Keys
    ensures head.mem.Keys == old(head.mem.Keys)
    ensures head.At(k', s') && RedAt(k', s') && s'.x == elm
    ensures Outer(k') == Outer(k) && Order(k', s') == Order(k, s)
    ensures Depth(k') < Depth(k)
  {
    hide RbHead.At;
    elm := first;
    head.Facts(k, s);
    var parent := elm.parent;
    ghost var h, up, u := Bh(s), k.up.up, k.up.r;
    assert CtxRb(k.up, h) && CtxRb(up, h + 1);
    k', s' := k, s;
    if parent.right == elm {
      k', s' := LiftInnerRight(head, elm, parent, k, s);
      elm, parent := parent, elm;
    }
    ghost var r := k'.r;
    assert Rb(s') && Rb(r) && Bh(s') == Bh(r) == h && Col(r) == Black;
    head.Facts(k', s');
    head.RefocusAt(k', s');
    head.Facts(k.up, Fill(k', s'));
    head.SetColorUp(parent, Black, k', s');
    ghost var p := Bin(Black, s', parent, r);
    head.RefocusAt(InL(Black, parent, r, k.up), s');
    head.SetColorUp(gparent, Red, k.up, p);
    head.RefocusAt(InL(Red, gparent, u, up), p);
    RefocusOrder(k', s');
    RefocusOrder(k.up, Fill(k', s'));
    var tmp := head.RotateRightAt(gparent, up, Bin(Red, p, gparent, u));
    k' := InL(Black, parent, Bin(Red, r, gparent, u), up);
    head.RefocusAt(k', s');
    TurnedRb(up, h, s', parent, r, gparent, u);
    assert InOrder(Bin(Red, Bin(Red, s', parent, r), gparent, u)) ==
      InOrder(Bin(Black, Bin(Red, s', parent, r), gparent, u));
  }

  method TurnRight(head: RbHead, first: Node, gparent: Node, ghost k: Ctx, ghost s: Tree)
    returns (elm: Node, ghost k': Ctx, ghost s': Tree)
    requires head.At(k, s) && RedAt(k, s) && !k.Top? && k.c == Red && k.up.InR? && k.up.x == gparent &&
      s.x == first && Col(k.up.l) == Black
    modifies head`root, head`mem, head.mem.Keys
    ensures head.mem.Keys == old(head.mem.Keys)
    ensures head.At(k', s') && RedAt(k', s') && s'.x == elm
    ensures Outer(k') == Outer(k) && Order(k', s') == Order(k, s)
    ensures Depth(k') < Depth(k)
  {
    hide RbHead.At;
    elm := first;
    head.Facts(k, s);
    var parent := elm.parent;
    ghost var h, up, u := Bh(s), k.up.up, k.up.l;
    assert CtxRb(k.up, h) && CtxRb(up, h + 1);
    k', s' := k, s;
    if parent.left == elm {
      k', s' := LiftInnerLeft(head, elm, parent, k, s);
      elm, parent := parent, elm;
    }
    ghost var r := k'.l;
    assert Rb(s') && Rb(r) && Bh(s') == Bh(r) == h && Col(r) == Black;
    head.Facts(k', s');
    head.RefocusAt(k', s');
    head.Facts(k.up, Fill(k', s'));
    head.SetColorUp(parent, Black, k', s');
    ghost var p := Bin(Black, r, parent, s');
    head.RefocusAt(InR(Black, r, parent, k.up), s');
    head.SetColorUp(gparent, Red, k.up, p);
    head.RefocusAt(InR(Red, u, gparent, up), p);
    RefocusOrder(k', s');
    RefocusOrder(k.up, Fill(k', s'));
    var tmp := head.RotateLeftAt(gparent, up, Bin(Red, u, gparent, p));
    k' := InR(Black, Bin(Red, u, gparent, r), parent, up);
    head.RefocusAt(k', s');
    TurnedRb(up, h, s', parent, r, gparent, u);
    assert InOrder(Bin(Red, u, gparent, Bin(Red, r, parent, s'))) ==
      InOrder(Bin(Black, u, gparent, Bin(Red, r, parent, s')));
  }

  /** An inner grandchild is first rotated outwards, below its grandparent. */
  method LiftInnerLeft(head: RbHead, elm: Node, parent: Node, ghost k: Ctx, ghost s: Tree)
    returns (ghost k': Ctx, ghost s': Tree)
    requires head.At(k, s) && RedAt(k, s) && !k.Top? && k.c == Red && k.x == parent && k.InL? && s.x == elm
    modifies head`root, head`mem, head.mem.Keys
    ensures head.mem.Keys == old(head.mem.Keys)
    ensures k' == InR(Red, s.l, elm, k.up) && s' == Bin(Red, s.r, parent, k.r) && head.At(k', s')
    ensures Order(k', s') == Order(k, s)
  {
    head.RefocusAt(k, s);
    var tmp := head.RotateRightAt(parent, k.up, Fill(k, s));
    k', s' := InR(Red, s.l, elm, k.up), Bin(Red, s.r, parent, k.r);
    head.RefocusAt(k', s');
    RefocusOrder(k, s);
    RefocusOrder(k', s');
    RotateOrder(Red, s.l, elm, Red, s.r, parent, k.r);
  }

  /** One turn of the loop of RB_INSERT_COLOR. */
  method InsertColorStep(head: RbHead, first: Node, ghost k: Ctx, ghost s: Tree)
    returns (elm: Node, ghost k': Ctx, ghost s': Tree)
    requires head.At(k, s) && RedAt(k, s) && s.x == first && !k.Top? && k.c == Red
    modifies head`root, head`mem, head.mem.Keys
    ensures head.mem.Keys == old(head.mem.Keys)
    ensures head.At(k', s') && RedAt(k', s') && s'.x == elm
    ensures Outer(k') == Outer(k) && Order(k', s') == Order(k, s)
    ensures Depth(k') < Depth(k)
  {
    hide RbHead.At;
    elm := first;
    head.Facts(k, s);
    RedHasGrandparent(k, s);
    head.RefocusAt(k, s);
    head.Facts(k.up, Fill(k, s));
    var parent := elm.parent;
    var gparent := parent.parent;
    if parent == gparent.left {
      var tmp := gparent.right;
      if tmp != null && tmp.color == Red {
        s' := Recolor(head, parent, gparent, tmp, k, s);
        return gparent, k.up.up, s';
      }
      elm, k', s' := TurnLeft(head, elm, gparent, k, s);
    } else {
      var tmp := gparent.left;
      if tmp != null && tmp.color == Red {
        s' := Recolor(head, parent, gparent, tmp, k, s);
        return gparent, k.up.up, s';
      }
      elm, k', s' := TurnRight(head, elm, gparent, k, s);
    }
  }

  /** RB_INSERT_COLOR: `first` is red, and all that may be wrong is that its parent is red too. */
  method InsertColor(head: RbHead, first: Node, ghost k0: Ctx, ghost t0: Tree) returns (ghost t: Tree)
    requires head.At(k0, t0) && RedAt(k0, t0) && t0.x == first
    modifies head`root, head`mem, head.mem.Keys
    ensures head.mem.Keys == old(head.mem.Keys)
    ensures head.At(Outer(k0), t) && Rb(t) && Col(t) == Black
    ensures InOrder(t) == Order(k0, t0)
  {
    hide RbHead.At;
    var elm := first;
    ghost var k, s := k0, t0;
    head.Facts(k, s);
    while elm.parent != null && elm.parent.color == Red
      invariant head.At(k, s) && RedAt(k, s) && s.x == elm
      invariant elm in head.mem && elm.parent == Par(k) && (!k.Top? ==> k.x.color == k.c)
      invariant Outer(k) == Outer(k0) && Order(k, s) == Order(k0, t0)
      invariant head.mem.Keys == old(head.mem.Keys)
      decreases Depth(k)
    {
      elm, k, s := InsertColorStep(head, elm, k, s);
      head.Facts(k, s);
    }
    t := BlackenRoot(head, k, s);
  }

  /** The last line of RB_INSERT_COLOR. */
  method BlackenRoot(head: RbHead, ghost k: Ctx, ghost s: Tree) returns (ghost t: Tree)
    requires head.At(k, s) && RedAt(k, s) && (!k.Top? ==> k.c == Black)
    modifies head`mem, head.mem.Keys
    ensures head.mem.Keys == old(head.mem.Keys)
    ensures head.At(Outer(k), t) && Rb(t) && Col(t) == Black
    ensures InOrder(t) == Order(k, s)
  {
    hide RbHead.At;
    head.ZippedAt(k, s);
    PlugRb(k, s);
    PlugInOrder(k, s);
    PlugBin(k, s);
    t := Plug(k, s);
    head.Facts(Outer(k), t);
    head.SetColorAt(head.root, Black, Outer(k), t);
    t := t.(c := Black);
  }

  /** The search loop of RB_INSERT: the equal element, or the empty place where `elm` belongs. */
  method FindPlace(head: RbHead, elm: Node) returns (found: Node?, parent: Node?, comp: int, ghost k: Ctx)
    requires head.Valid() && head.lo < elm.key < head.hi
    ensures found != null ==> found in Nodes(head.tree) && found.key == elm.key
    ensures found == null ==> head.At(k, Leaf) && Plug(k, Leaf) == head.tree && Outer(k) == Top(head.lo, head.hi)
    ensures found == null ==> Lo(k) < elm.key < Hi(k) && parent == Par(k) && (!k.Top? ==> (comp < 0 <==> k.InL?))
  {
    hide RbHead.At;
    var tmp := head.root;
    parent := null;
    comp := 0;
    k := Top(head.lo, head.hi);
    ghost var s := head.tree;
    head.Facts(k, s);
    while tmp != null
      invariant head.At(k, s) && tmp == Root(s) && parent == Par(k) && Plug(k, s) == head.tree
      invariant Outer(k) == Top(head.lo, head.hi) && Lo(k) < elm.key < Hi(k)
      invariant !k.Top? ==> comp != 0 && (comp < 0 <==> k.InL?)
      decreases s
    {
      head.Facts(k, s);
      parent := tmp;
      comp := Cmp(elm, parent);
      if comp < 0 {
        tmp := tmp.left;
        k, s := InL(s.c, s.x, s.r, k), s.l;
      } else if comp > 0 {
        tmp := tmp.right;
        k, s := InR(s.c, s.l, s.x, k), s.r;
      } else {
        PlugNodes(k, s);
        return tmp, parent, comp, k;
      }
      head.RefocusAt(k, s);
    }
    found := null;
  }

  /** RB_INSERT: an equal element is returned and nothing changes; otherwise `elm` joins. */
  method Insert(head: RbHead, elm: Node) returns (r: Node?)
    requires head.Valid()
    modifies head, elm, head.mem.Keys
    ensures head.Valid()
    ensures r != null ==> r in Nodes(head.tree) && r.key == elm.key
    ensures r != null ==> head.tree == old(head.tree) && head.mem == old(head.mem)
    ensures r == null ==> forall n :: n in old(Nodes(head.tree)) ==> n.key != elm.key
    ensures r == null ==> Without(InOrder(head.tree), elm, old(InOrder(head.tree)))
    ensures r == null ==> Nodes(head.tree) == old(Nodes(head.tree)) + {elm}
    ensures r != null ==> unchanged(elm) && head.root == old(head.root)
  {
    hide RbHead.At;
    ghost var lo := if head.lo < elm.key then head.lo else elm.key - 1;
    ghost var hi := if elm.key < head.hi then head.hi else elm.key + 1;
    head.WidenAt(head.tree, head.lo, head.hi, lo, hi);
    head.lo, head.hi := lo, hi;
    ghost var s := InOrder(head.tree);
    var found, parent, comp, k := FindPlace(head, elm);
    if found != null {
      return found;
    }
    InsertAt(head, elm, parent, comp, k);
    r := null;
  }

  /** RB_INSERT from the empty place on. */
  method InsertAt(head: RbHead, elm: Node, parent: Node?, comp: int, ghost k: Ctx)
    requires head.Valid() && head.At(k, Leaf) && Plug(k, Leaf) == head.tree && Outer(k) == Top(head.lo, head.hi)
    requires Lo(k) < elm.key < Hi(k) && parent == Par(k) && (!k.Top? ==> (comp < 0 <==> k.InL?))
    modifies head`root, head`mem, head`tree, elm, head.mem.Keys
    ensures head.Valid()
    ensures Without(InOrder(head.tree), elm, old(InOrder(head.tree)))
    ensures Nodes(head.tree) == old(Nodes(head.tree)) + {elm}
    ensures forall n :: n in old(Nodes(head.tree)) ==> n.key != elm.key
  {
    hide RbHead.At, Plug, InOrder, Nodes, Order, Before, Rb, RedAt;
    NewLeaf(k, elm);
    head.PlaceIsFree(k, elm.key);
    Attach(head, elm, parent, comp, k);
    ghost var before := head.tree;
    head.tree := InsertColor(head, elm, k, Bin(Red, Leaf, elm, Leaf));
    Joined(head.tree, before, k, elm);
  }

  method Attach(head: RbHead, elm: Node, parent: Node?, comp: int, ghost k: Ctx)
    requires head.At(k, Leaf) && Lo(k) < elm.key < Hi(k)
    requires parent == Par(k) && (!k.Top? ==> (comp < 0 <==> k.InL?))
    modifies head`root, head`mem, elm, head.mem.Keys
    ensures head.At(k, Bin(Red, Leaf, elm, Leaf)) && head.mem.Keys == old(head.mem.Keys) + {elm}
  {
    head.Facts(k, Leaf);
    AttachIn(head.mem, k, elm);
    head.SetNew(elm, parent);
    if parent != null {
      if comp < 0 {
        head.SetLeft(parent, elm);
      } else {
        head.SetRight(parent, elm);
      }
    } else {
      head.root := elm;
    }
  }

  /** A red leaf in the hole breaks no balance and adds one element. */
  lemma {:induction false} NewLeaf(k: Ctx, n: Node)
    requires Rb(Plug(k, Leaf)) && Col(Plug(k, Leaf)) == Black
    ensures RedAt(k, Bin(Red, Leaf, n, Leaf))
  {
    PlugRb(k, Leaf);
  }

  lemma {:induction false} Joined(t: Tree, before: Tree, k: Ctx, n: Node)
    requires InOrder(t) == Order(k, Bin(Red, Leaf, n, Leaf)) && before == Plug(k, Leaf)
    ensures Without(InOrder(t), n, InOrder(before))
    ensures Nodes(t) == Nodes(before) + {n}
  {
    PlugInOrder(k, Leaf);
    InOrderNodes(t);
    InOrderNodes(before);
    assert InOrder(Leaf) == [] && InOrder(Bin(Red, Leaf, n, Leaf)) == [n];
    hide *;
    PutIn(InOrder(t), InOrder(before), Before(k), n, After(k), Nodes(t), Nodes(before));
  }

  lemma {:induction false} PutIn(s': seq<Node>, s: seq<Node>, a: seq<Node>, n: Node, b: seq<Node>, m': set<Node>,
    m: set<Node>)
    requires s' == a + [n] + b && s == a + [] + b
    requires forall x :: x in s' <==> x in m'
    requires forall x :: x in s <==> x in m
    ensures Without(s', n, s) && m' == m + {n}
  {
    assert s'[|a|] == n && s == s'[..|a|] + s'[|a| + 1..];
    assert forall x :: x in s' <==> x in s || x == n;
  }
}
