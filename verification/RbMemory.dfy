/** What the fields of the nodes hold, as a value, and what it means that they spell out a tree. */
module RbMemory {
  import opened Elements
  import opened RbShape

  datatype Cell = Cell(color: Color, left: Node?, right: Node?, parent: Node?)
  type Memory = map<Node, Cell>

  function Par(k: Ctx): Node? {
    if k.Top? then null else k.x
  }

  ghost predicate TreeIn(m: Memory, t: Tree, p: Node?) {
    match t
    case Leaf => true
    case Bin(c, l, x, r) =>
      x in m && m[x] == Cell(c, Root(l), Root(r), p) && TreeIn(m, l, x) && TreeIn(m, r, x)
  }

  ghost predicate CtxIn(m: Memory, k: Ctx, h: Node?) {
    match k
    case Top(_, _) => true
    case InL(c, x, r, up) =>
      x in m && m[x] == Cell(c, h, Root(r), Par(up)) && TreeIn(m, r, x) && CtxIn(m, up, x)
    case InR(c, l, x, up) =>
      x in m && m[x] == Cell(c, Root(l), h, Par(up)) && TreeIn(m, l, x) && CtxIn(m, up, x)
  }

  ghost predicate In(m: Memory, k: Ctx, t: Tree) {
    CtxOrd(k) && Ord(t, Lo(k), Hi(k)) && TreeIn(m, t, Par(k)) && CtxIn(m, k, Root(t))
  }

  /** A write to a node is not seen by trees whose key range and contexts whose hole exclude its key. */
  lemma {:induction false} Write(m: Memory, n: Node, v: Cell)
    ensures forall t, p, lo, hi {:trigger TreeIn(m[n := v], t, p), Ord(t, lo, hi)} ::
      TreeIn(m, t, p) && Ord(t, lo, hi) && (n.key <= lo || hi <= n.key) ==> TreeIn(m[n := v], t, p)
    ensures forall k, h {:trigger CtxIn(m[n := v], k, h)} ::
      CtxIn(m, k, h) && CtxOrd(k) && Lo(k) < n.key < Hi(k) ==> CtxIn(m[n := v], k, h)
  {
    forall t, p, lo, hi | TreeIn(m, t, p) && Ord(t, lo, hi) &&
      (n.key <= lo || hi <= n.key) ensures TreeIn(m[n := v], t, p) {
      WriteTree(m, n, v, t, p, lo, hi);
    }
    forall k, h | CtxIn(m, k, h) && CtxOrd(k) && Lo(k) < n.key < Hi(k) ensures CtxIn(m[n := v], k, h) {
      WriteCtx(m, n, v, k, h);
    }
  }

  lemma {:induction false} WriteTree(m: Memory, n: Node, v: Cell, t: Tree, p: Node?, lo: int, hi: int)
    requires TreeIn(m, t, p) && Ord(t, lo, hi) && (n.key <= lo || hi <= n.key)
    ensures TreeIn(m[n := v], t, p)
  {
    if t.Bin? {
      WriteTree(m, n, v, t.l, t.x, lo, t.x.key);
      WriteTree(m, n, v, t.r, t.x, t.x.key, hi);
    }
  }

  lemma {:induction false} WriteCtx(m: Memory, n: Node, v: Cell, k: Ctx, h: Node?)
    requires CtxIn(m, k, h) && CtxOrd(k) && Lo(k) < n.key < Hi(k)
    ensures CtxIn(m[n := v], k, h)
  {
    match k
    case Top(_, _) =>
    case InL(c, x, r, up) => WriteTree(m, n, v, r, x, x.key, Hi(up)); WriteCtx(m, n, v, up, x);
    case InR(c, l, x, up) => WriteTree(m, n, v, l, x, Lo(up), x.key); WriteCtx(m, n, v, up, x);
  }

  function ParentSet(m: Memory, n: Node?, p: Node?): (w: Memory)
    ensures w.Keys == m.Keys
  {
    if n in m then m[n := m[n].(parent := p)] else m
  }

  /** `g` takes the place of `h` below `p`. */
  function ChildSet(m: Memory, p: Node?, h: Node?, g: Node?): (w: Memory)
    ensures w.Keys == m.Keys
  {
    if p in m then m[p := if m[p].left == h then m[p].(left := g) else m[p].(right := g)] else m
  }

  lemma {:induction false} MoveTree(m: Memory, t: Tree, p: Node?, q: Node?, lo: int, hi: int)
    requires TreeIn(m, t, p) && Ord(t, lo, hi)
    ensures TreeIn(ParentSet(m, Root(t), q), t, q)
  {
    if t.Bin? {
      Write(m, t.x, m[t.x].(parent := q));
    }
  }

  lemma {:induction false} RefillCtx(m: Memory, k: Ctx, h: Node, g: Node?)
    requires CtxIn(m, k, h) && CtxOrd(k) && Lo(k) < h.key < Hi(k)
    ensures CtxIn(ChildSet(m, Par(k), h, g), k, g)
  {
    if !k.Top? {
      var p := k.x;
      Write(m, p, if m[p].left == h then m[p].(left := g) else m[p].(right := g));
      assert k.InR? && k.l.Bin? ==> k.l.x.key < p.key;
    }
  }

  function Painted(m: Memory, n: Node, c: Color): Memory
    requires n in m
  {
    m[n := m[n].(color := c)]
  }

  /** Recolouring the node at the focus. */
  lemma {:induction false} PaintIn(m: Memory, k: Ctx, t: Tree, e: Color)
    requires In(m, k, t) && t.Bin?
    ensures t.x in m && In(Painted(m, t.x, e), k, t.(c := e))
  {
    Write(m, t.x, m[t.x].(color := e));
    var w := Painted(m, t.x, e);
    assert Ord(t.l, Lo(k), t.x.key) && Ord(t.r, t.x.key, Hi(k));
    assert TreeIn(w, t.l, t.x) && TreeIn(w, t.r, t.x);
  }

  /** Moving the focus between a subtree and its parent changes nothing. */
  lemma {:induction false} Refocus(m: Memory, k: Ctx, t: Tree)
    requires !k.Top?
    ensures In(m, k, t) <==> In(m, k.up, Fill(k, t))
    ensures TopRoot(k, Root(t)) == TopRoot(k.up, Root(Fill(k, t)))
  {
  }

  lemma {:induction false} Zipped(m: Memory, k: Ctx, t: Tree)
    ensures In(m, k, t) <==> In(m, Outer(k), Plug(k, t))
    ensures TopRoot(k, Root(t)) == TopRoot(Outer(k), Root(Plug(k, t)))
  {
    if !k.Top? {
      Refocus(m, k, t);
      Zipped(m, k.up, Fill(k, t));
    }
  }

  lemma {:induction false} RootOfPlug(k: Ctx, t: Tree)
    ensures Root(Plug(k, t)) == TopRoot(k, Root(t))
  {
    if !k.Top? {
      RootOfPlug(k.up, Fill(k, t));
    }
  }

  /** A new node written and then linked into an empty hole. */
  lemma {:induction false} AttachIn(m: Memory, k: Ctx, n: Node)
    requires In(m, k, Leaf) && Lo(k) < n.key < Hi(k)
    ensures var w := m[n := Cell(Red, null, null, Par(k))];
      && (k.Top? ==> In(w, k, Bin(Red, Leaf, n, Leaf)))
      && (k.InL? ==> k.x in w && In(w[k.x := w[k.x].(left := n)], k, Bin(Red, Leaf, n, Leaf)))
      && (k.InR? ==> k.x in w && In(w[k.x := w[k.x].(right := n)], k, Bin(Red, Leaf, n, Leaf)))
  {
    Write(m, n, Cell(Red, null, null, Par(k)));
    var w := m[n := Cell(Red, null, null, Par(k))];
    assert CtxIn(w, k, null);
    if !k.Top? {
      var v := if k.InL? then w[k.x].(left := n) else w[k.x].(right := n);
      Write(w, k.x, v);
      var w' := w[k.x := v];
      assert TreeIn(w', Sib(k), k.x) && CtxIn(w', k.up, k.x);
    }
  }

  /** What the code reads at the focus and around it. */
  lemma {:induction false} FocusCells(m: Memory, k: Ctx, t: Tree)
    requires In(m, k, t)
    ensures t.Bin? ==> t.x in m && m[t.x] == Cell(t.c, Root(t.l), Root(t.r), Par(k))
    ensures !k.Top? ==> k.x in m && m[k.x].color == k.c && m[k.x].parent == Par(k.up)
    ensures k.InL? ==> m[k.x].left == Root(t) && m[k.x].right == Root(k.r)
    ensures k.InR? ==>
      m[k.x].right == Root(t) && m[k.x].left == Root(k.l) && (t.Bin? || k.l.Bin? ==> Root(k.l) != Root(t))
    ensures !k.Top? && Sib(k).Bin? ==> Sib(k).x in m && m[Sib(k).x].color == Sib(k).c
  {
    if t.Bin? && k.InR? && k.l.Bin? {
      assert k.l.x.key < k.x.key < t.x.key;
    }
  }

  /** Recolouring the parent of the focus. */
  lemma {:induction false} PaintUpIn(m: Memory, k: Ctx, t: Tree, e: Color)
    requires In(m, k, t) && !k.Top?
    ensures k.x in m && In(Painted(m, k.x, e), k.(c := e), t)
  {
    Refocus(m, k, t);
    PaintIn(m, k.up, Fill(k, t), e);
    Refocus(Painted(m, k.x, e), k.(c := e), t);
  }

  /** Recolouring the sibling of the focus. */
  lemma {:induction false} PaintSibIn(m: Memory, k: Ctx, t: Tree, e: Color)
    requires In(m, k, t) && !k.Top? && Sib(k).Bin?
    ensures Sib(k).x in m && In(Painted(m, Sib(k).x, e), SetSib(k, Sib(k).(c := e)), t)
  {
    var s := Sib(k);
    Refocus(m, k, t);
    var q := if k.InL? then InR(k.c, t, k.x, k.up) else InL(k.c, k.x, t, k.up);
    Refocus(m, q, s);
    PaintIn(m, q, s, e);
    Refocus(Painted(m, s.x, e), q, s.(c := e));
    Refocus(Painted(m, s.x, e), SetSib(k, s.(c := e)), t);
  }

  /** The pointer writes of RB_ROTATE_LEFT at x, in order. */
  function RotatedLeft(m: Memory, x: Node): Memory
    requires x in m && m[x].right in m
  {
    var y: Node := m[x].right;
    var m0: Memory := m[x := m[x].(right := m[y].left)];
    var m1 := ParentSet(m0, m0[y].left, x);
    var m2: Memory := m1[y := m1[y].(parent := m1[x].parent)];
    var m3: Memory := ChildSet(m2, m2[x].parent, x, y);
    var m4: Memory := m3[y := m3[y].(left := x)];
    m4[x := m4[x].(parent := y)]
  }

  /** The pointer writes of RB_ROTATE_RIGHT at y, in order. */
  function RotatedRight(m: Memory, y: Node): Memory
    requires y in m && m[y].left in m
  {
    var x: Node := m[y].left;
    var m0: Memory := m[y := m[y].(left := m[x].right)];
    var m1 := ParentSet(m0, m0[x].right, y);
    var m2: Memory := m1[x := m1[x].(parent := m1[y].parent)];
    var m3: Memory := ChildSet(m2, m2[y].parent, y, x);
    var m4: Memory := m3[x := m3[x].(right := y)];
    m4[y := m4[y].(parent := x)]
  }

  /** The pieces around a rotation, as a memory holds them: three subtrees between the keys of
      two nodes, all below the hole of k. */
  ghost predicate Pieces(m: Memory, k: Ctx, h: Node, a: Tree, pa: Node, x: Node, b: Tree, pb: Node, y: Node, d: Tree,
    pd: Node) {
    && CtxIn(m, k, h) && CtxOrd(k) && Lo(k) < x.key < y.key < Hi(k)
    && Ord(a, Lo(k), x.key) && Ord(b, x.key, y.key) && Ord(d, y.key, Hi(k))
    && TreeIn(m, a, pa) && TreeIn(m, b, pb) && TreeIn(m, d, pd)
  }

  lemma {:induction false} RightPieces(m: Memory, k: Ctx, c: Color, a: Tree, x: Node, e: Color, b: Tree, y: Node,
    d: Tree)
    ensures In(m, k, Bin(c, a, x, Bin(e, b, y, d))) <==>
      Pieces(m, k, x, a, x, x, b, y, y, d, y) && x in m && y in m &&
      m[x] == Cell(c, Root(a), y, Par(k)) && m[y] == Cell(e, Root(b), Root(d), x)
  {
    var r := Bin(e, b, y, d);
    assert TreeIn(m, r, x) <==> y in m && m[y] == Cell(e, Root(b), Root(d), x) && TreeIn(m, b, y) && TreeIn(m, d, y);
    assert Ord(r, x.key, Hi(k)) <==> x.key < y.key < Hi(k) && Ord(b, x.key, y.key) && Ord(d, y.key, Hi(k));
  }

  lemma {:induction false} LeftPieces(m: Memory, k: Ctx, c: Color, a: Tree, x: Node, e: Color, b: Tree, y: Node,
    d: Tree)
    ensures In(m, k, Bin(e, Bin(c, a, x, b), y, d)) <==>
      Pieces(m, k, y, a, x, x, b, x, y, d, y) && x in m && y in m &&
      m[x] == Cell(c, Root(a), Root(b), y) && m[y] == Cell(e, x, Root(d), Par(k))
  {
    var l := Bin(c, a, x, b);
    assert TreeIn(m, l, y) <==> x in m && m[x] == Cell(c, Root(a), Root(b), y) && TreeIn(m, a, x) && TreeIn(m, b, x);
    assert Ord(l, Lo(k), y.key) <==> Lo(k) < x.key < y.key && Ord(a, Lo(k), x.key) && Ord(b, x.key, y.key);
  }

  /** The nodes next to a rotation are recorded and different from the two turned nodes. */
  lemma {:induction false} PiecesApart(m: Memory, k: Ctx, h: Node, a: Tree, pa: Node, x: Node, b: Tree, pb: Node,
    y: Node, d: Tree, pd: Node)
    requires Pieces(m, k, h, a, pa, x, b, pb, y, d, pd)
    ensures Root(b) != x && Root(b) != y && (b.Bin? ==> b.x in m)
    ensures Par(k) != x && Par(k) != y && (!k.Top? ==> k.x in m && (k.x.key <= Lo(k) || Hi(k) <= k.x.key))
  {
  }

  /** Hanging `b` below another node and `g` into the hole, then writing the two turned nodes. */
  lemma {:induction false} TurnPieces(m: Memory, k: Ctx, h: Node, g: Node, a: Tree, pa: Node, x: Node, u: Cell,
                                      b: Tree, pb: Node, qb: Node, y: Node, v: Cell, d: Tree, pd: Node)
    requires Pieces(m, k, h, a, pa, x, b, pb, y, d, pd) && Lo(k) < h.key < Hi(k)
    ensures Pieces(ChildSet(ParentSet(m, Root(b), qb), Par(k), h, g)[x := u][y := v], k, g, a, pa, x, b, qb, y, d, pd)
  {
    PiecesApart(m, k, h, a, pa, x, b, pb, y, d, pd);
    MoveTree(m, b, pb, qb, x.key, y.key);
    var m1: Memory := ParentSet(m, Root(b), qb);
    if b.Bin? {
      Write(m, b.x, m[b.x].(parent := qb));
    }
    assert TreeIn(m1, a, pa) && TreeIn(m1, b, qb) && TreeIn(m1, d, pd) && CtxIn(m1, k, h);
    RefillCtx(m1, k, h, g);
    var m2: Memory := ChildSet(m1, Par(k), h, g);
    if !k.Top? {
      Write(m1, k.x, m2[k.x]);
    }
    assert TreeIn(m2, a, pa) && TreeIn(m2, b, qb) && TreeIn(m2, d, pd);
    WritePair(m2, k, g, a, pa, b, qb, d, pd, x, u, y, v);
  }

  lemma {:induction false} WritePair(m: Memory, k: Ctx, h: Node, a: Tree, pa: Node, b: Tree, pb: Node, d: Tree,
    pd: Node, x: Node, u: Cell, y: Node, v: Cell)
    requires Pieces(m, k, h, a, pa, x, b, pb, y, d, pd)
    ensures Pieces(m[x := u][y := v], k, h, a, pa, x, b, pb, y, d, pd)
  {
    Write(m, x, u);
    var w := m[x := u];
    assert TreeIn(w, a, pa) && TreeIn(w, b, pb) && TreeIn(w, d, pd) && CtxIn(w, k, h);
    Write(w, y, v);
  }

  lemma {:induction false} RotatedLeftIs(m: Memory, x: Node, y: Node, b: Node?, d: Node?, p: Node?)
    requires x in m && y in m && x != y && m[x].right == y && m[y].left == b && m[y].right == d && m[x].parent == p
    requires b != x && b != y && p != x && p != y && (b != null ==> b in m)
    ensures RotatedLeft(m, x) ==
      ChildSet(ParentSet(m, b, x), p, x, y)[x := Cell(m[x].color, m[x].left, b, y)][y := Cell(m[y].color, x, d, p)]
  {
  }

  lemma {:induction false} RotatedRightIs(m: Memory, y: Node, x: Node, b: Node?, a: Node?, p: Node?)
    requires x in m && y in m && x != y && m[y].left == x && m[x].right == b && m[x].left == a && m[y].parent == p
    requires b != x && b != y && p != x && p != y && (b != null ==> b in m)
    ensures RotatedRight(m, y) ==
      ChildSet(ParentSet(m, b, y), p, y, x)[x := Cell(m[x].color, a, y, p)][y := Cell(m[y].color, b, m[y].right, x)]
  {
  }

  /** RB_ROTATE_LEFT turns the two top levels of the focused tree and nothing else. */
  lemma {:induction false} RotateLeftIn(m: Memory, k: Ctx, c: Color, a: Tree, x: Node, e: Color, b: Tree, y: Node,
    d: Tree)
    requires In(m, k, Bin(c, a, x, Bin(e, b, y, d)))
    ensures x in m && y in m && m[x].right == y && y != x && m[y].left != x
    ensures m[y].left != null ==> m[y].left in m
    ensures m[x].parent == Par(k) && (m[x].parent != null ==> m[x].parent in m)
    ensures In(RotatedLeft(m, x), k, Bin(e, Bin(c, a, x, b), y, d))
  {
    RightPieces(m, k, c, a, x, e, b, y, d);
    PiecesApart(m, k, x, a, x, x, b, y, y, d, y);
    RotatedLeftIs(m, x, y, Root(b), Root(d), Par(k));
    TurnPieces(m, k, x, y, a, x, x, Cell(c, Root(a), Root(b), y), b, y, x, y, Cell(e, x, Root(d), Par(k)), d, y);
    LeftPieces(RotatedLeft(m, x), k, c, a, x, e, b, y, d);
  }

  lemma {:induction false} RotateRightIn(m: Memory, k: Ctx, c: Color, a: Tree, x: Node, e: Color, b: Tree, y: Node,
    d: Tree)
    requires In(m, k, Bin(e, Bin(c, a, x, b), y, d))
    ensures x in m && y in m && m[y].left == x && x != y && m[x].right != y
    ensures m[x].right != null ==> m[x].right in m
    ensures m[y].parent == Par(k) && (m[y].parent != null ==> m[y].parent in m)
    ensures In(RotatedRight(m, y), k, Bin(c, a, x, Bin(e, b, y, d)))
  {
    LeftPieces(m, k, c, a, x, e, b, y, d);
    PiecesApart(m, k, y, a, x, x, b, x, y, d, y);
    RotatedRightIs(m, y, x, Root(b), Root(a), Par(k));
    TurnPieces(m, k, y, x, a, x, x, Cell(c, Root(a), y, Par(k)), b, x, y, y, Cell(e, Root(b), Root(d), x), d, y);
    RightPieces(RotatedRight(m, y), k, c, a, x, e, b, y, d);
  }

  /** Taking out a node with at most one child: the child goes into the hole. */
  lemma {:induction false} SpliceIn(m: Memory, k: Ctx, t: Tree)
    requires In(m, k, t) && t.Bin? && (t.l.Leaf? || t.r.Leaf?)
    ensures var u := if t.l.Leaf? then t.r else t.l;
      var w := ChildSet(ParentSet(m, Root(u), Par(k)), Par(k), t.x, Root(u));
      In(w, k, u) && t.x in w && w[t.x] == m[t.x]
  {
    var x := t.x;
    var u := if t.l.Leaf? then t.r else t.l;
    OrdWiden(u, if t.l.Leaf? then x.key else Lo(k), if t.l.Leaf? then Hi(k) else x.key, Lo(k), Hi(k));
    MoveTree(m, u, x, Par(k), Lo(k), Hi(k));
    var m1: Memory := ParentSet(m, Root(u), Par(k));
    if u.Bin? {
      Write(m, u.x, m1[u.x]);
    }
    assert CtxIn(m1, k, x);
    RefillCtx(m1, k, x, Root(u));
    if !k.Top? {
      assert k.x.key <= Lo(k) || Hi(k) <= k.x.key;
      Write(m1, k.x, ChildSet(m1, k.x, x, Root(u))[k.x]);
    }
  }

  /** The writes that put `x` where `y` was: the record, the link from above, and the children's parent links. */
  function Replaced(m: Memory, y: Node, x: Node): Memory
    requires y in m
  {
    var m1: Memory := m[x := m[y]];
    var m2: Memory := ChildSet(m1, m1[y].parent, y, x);
    var m3 := ParentSet(m2, m2[y].left, x);
    ParentSet(m3, m3[y].right, x)
  }

  lemma {:induction false} ReplaceIn(m: Memory, k: Ctx, c: Color, l: Tree, y: Node, r: Tree, x: Node)
    requires In(m, k, Bin(c, l, y, r)) && y.key < x.key < Hi(k) && Ord(r, x.key, Hi(k))
    ensures y in m && In(Replaced(m, y, x), k, Bin(c, l, x, r))
  {
    var m1: Memory := m[x := m[y]];
    Write(m, x, m[y]);
    assert Ord(l, Lo(k), y.key);
    assert TreeIn(m1, l, y) && TreeIn(m1, r, y) && CtxIn(m1, k, y);
    var m2: Memory := ChildSet(m1, Par(k), y, x);
    RefillCtx(m1, k, y, x);
    if !k.Top? {
      assert k.x.key <= Lo(k) || Hi(k) <= k.x.key;
      Write(m1, k.x, m2[k.x]);
    }
    assert TreeIn(m2, l, y) && TreeIn(m2, r, y);
    var m3: Memory := ParentSet(m2, Root(l), x);
    MoveTree(m2, l, y, x, Lo(k), y.key);
    if l.Bin? {
      Write(m2, l.x, m3[l.x]);
    }
    assert TreeIn(m3, r, y) && CtxIn(m3, k, x);
    MoveTree(m3, r, y, x, x.key, Hi(k));
    if r.Bin? {
      Write(m3, r.x, ParentSet(m3, r.x, x)[r.x]);
    }
    OrdWiden(l, Lo(k), y.key, Lo(k), x.key);
  }

  /** A context made of an inner and an outer part is the outer one around the inner tree. */
  lemma {:induction false} AppendIn(m: Memory, k: Ctx, outer: Ctx, t: Tree)
    ensures In(m, Append(k, outer), t) <==> In(m, outer, Plug(k, t))
    ensures TopRoot(Append(k, outer), Root(t)) == TopRoot(outer, Root(Plug(k, t)))
  {
    if !k.Top? {
      Refocus(m, Append(k, outer), t);
      AppendIn(m, k.up, outer, Fill(k, t));
    }
  }

  /** A node outside the tree may be forgotten. */
  lemma {:induction false} ForgetTree(m: Memory, t: Tree, p: Node?, n: Node)
    requires TreeIn(m, t, p) && n !in Nodes(t)
    ensures TreeIn(m - {n}, t, p)
  {
    if t.Bin? {
      ForgetTree(m, t.l, t.x, n);
      ForgetTree(m, t.r, t.x, n);
    }
  }
}
