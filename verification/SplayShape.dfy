/** The splay tree of tree.h as values: trees, the two side trees that a top-down splay builds, and
    what the link fields of the nodes hold at each moment. */
module SplayShape {
  import opened Elements

  datatype Tree = Leaf | Bin(l: Tree, x: Node, r: Tree)

  /** A side tree under construction, innermost node first. Its last node `x` has one finished
      subtree `t`; the link on the other side is still to be written. */
  datatype Side = Empty | Hung(up: Side, t: Tree, x: Node)

  function Root(t: Tree): Node? {
    if t.Leaf? then null else t.x
  }

  ghost function Nodes(t: Tree): set<Node> {
    if t.Leaf? then {} else Nodes(t.l) + {t.x} + Nodes(t.r)
  }

  ghost function SideNodes(s: Side): set<Node> {
    if s.Empty? then {} else SideNodes(s.up) + Nodes(s.t) + {s.x}
  }

  ghost function InOrder(t: Tree): seq<Node> {
    if t.Leaf? then [] else InOrder(t.l) + [t.x] + InOrder(t.r)
  }

  /** The elements of the left side tree, and of the right one. */
  ghost function LSeq(s: Side): seq<Node> {
    if s.Empty? then [] else LSeq(s.up) + InOrder(s.t) + [s.x]
  }

  ghost function RSeq(s: Side): seq<Node> {
    if s.Empty? then [] else [s.x] + InOrder(s.t) + RSeq(s.up)
  }

  /** The finished side trees, once the open link leads to `t`. */
  function LFill(s: Side, t: Tree): Tree {
    if s.Empty? then t else LFill(s.up, Bin(s.t, s.x, t))
  }

  function RFill(s: Side, t: Tree): Tree {
    if s.Empty? then t else RFill(s.up, Bin(t, s.x, s.t))
  }

  /** The node with the open link; `d` is the local dummy node. */
  function Tail(s: Side, d: Node): Node {
    if s.Empty? then d else s.x
  }

  // ---- order ----

  predicate Ord(t: Tree, lo: int, hi: int) {
    t.Bin? ==> lo < t.x.key < hi && Ord(t.l, lo, t.x.key) && Ord(t.r, t.x.key, hi)
  }

  function Floor(s: Side, lo: int): int {
    if s.Empty? then lo else s.x.key
  }

  function Ceiling(s: Side, hi: int): int {
    if s.Empty? then hi else s.x.key
  }

  predicate LOrd(s: Side, lo: int) {
    s.Hung? ==> LOrd(s.up, lo) && Floor(s.up, lo) < s.x.key && Ord(s.t, Floor(s.up, lo), s.x.key)
  }

  predicate ROrd(s: Side, hi: int) {
    s.Hung? ==> ROrd(s.up, hi) && s.x.key < Ceiling(s.up, hi) && Ord(s.t, s.x.key, Ceiling(s.up, hi))
  }

  lemma {:induction false} OrdSorted(t: Tree, lo: int, hi: int)
    requires Ord(t, lo, hi)
    ensures Sorted(InOrder(t))
    ensures forall n :: n in InOrder(t) ==> lo < n.key < hi
  {
    if t.Bin? {
      OrdSorted(t.l, lo, t.x.key);
      OrdSorted(t.r, t.x.key, hi);
      SortedAround(InOrder(t.l), t.x, InOrder(t.r));
    }
  }

  lemma {:induction false} OrdWiden(t: Tree, lo: int, hi: int, lo': int, hi': int)
    requires Ord(t, lo, hi) && lo' <= lo && hi <= hi'
    ensures Ord(t, lo', hi')
  {
    if t.Bin? {
      OrdWiden(t.l, lo, t.x.key, lo', t.x.key);
      OrdWiden(t.r, t.x.key, hi, t.x.key, hi');
    }
  }

  lemma {:induction false} OrdNodes(t: Tree, lo: int, hi: int)
    requires Ord(t, lo, hi)
    ensures forall n :: n in Nodes(t) ==> lo < n.key < hi
  {
    if t.Bin? {
      OrdNodes(t.l, lo, t.x.key);
      OrdNodes(t.r, t.x.key, hi);
    }
  }

  lemma {:induction false} InOrderNodes(t: Tree)
    ensures forall n :: n in InOrder(t) <==> n in Nodes(t)
    ensures Members(InOrder(t)) == Nodes(t)
  {
    if t.Bin? {
      InOrderNodes(t.l);
      InOrderNodes(t.r);
    }
  }

  lemma {:induction false} LFillIs(s: Side, t: Tree, lo: int, hi: int)
    requires LOrd(s, lo) && Ord(t, Floor(s, lo), hi) && Floor(s, lo) < hi
    ensures InOrder(LFill(s, t)) == LSeq(s) + InOrder(t)
    ensures Ord(LFill(s, t), lo, hi)
  {
    if s.Hung? {
      LFillIs(s.up, Bin(s.t, s.x, t), lo, hi);
      assert LSeq(s.up) + (InOrder(s.t) + [s.x] + InOrder(t)) == LSeq(s) + InOrder(t);
    }
  }

  lemma {:induction false} RFillIs(s: Side, t: Tree, lo: int, hi: int)
    requires ROrd(s, hi) && Ord(t, lo, Ceiling(s, hi)) && lo < Ceiling(s, hi)
    ensures InOrder(RFill(s, t)) == InOrder(t) + RSeq(s)
    ensures Ord(RFill(s, t), lo, hi)
  {
    if s.Hung? {
      RFillIs(s.up, Bin(t, s.x, s.t), lo, hi);
      assert InOrder(t) + [s.x] + InOrder(s.t) + RSeq(s.up) == InOrder(t) + RSeq(s);
    }
  }

  // ---- what the links hold ----

  datatype Cell = Cell(left: Node?, right: Node?)
  type Memory = map<Node, Cell>

  ghost predicate TreeIn(m: Memory, t: Tree) {
    t.Bin? ==> t.x in m && m[t.x] == Cell(Root(t.l), Root(t.r)) && TreeIn(m, t.l) && TreeIn(m, t.r)
  }

  /** The left side tree hangs at `d.right`; every node in it continues to the right. */
  ghost predicate LIn(m: Memory, s: Side, d: Node) {
    s.Hung? ==>
      && s.x in m && m[s.x].left == Root(s.t) && TreeIn(m, s.t)
      && Tail(s.up, d) in m && m[Tail(s.up, d)].right == s.x && LIn(m, s.up, d)
  }

  ghost predicate RIn(m: Memory, s: Side, d: Node) {
    s.Hung? ==>
      && s.x in m && m[s.x].right == Root(s.t) && TreeIn(m, s.t)
      && Tail(s.up, d) in m && m[Tail(s.up, d)].left == s.x && RIn(m, s.up, d)
  }

  /** The state of a top-down splay between two steps: the middle tree and the two side trees. */
  ghost predicate Splitting(m: Memory, ls: Side, t: Tree, rs: Side, d: Node, lo: int, hi: int) {
    && d in m && d !in Nodes(t) && d !in SideNodes(ls) && d !in SideNodes(rs)
    && LOrd(ls, lo) && ROrd(rs, hi) && Floor(ls, lo) < Ceiling(rs, hi)
    && Ord(t, Floor(ls, lo), Ceiling(rs, hi))
    && TreeIn(m, t) && LIn(m, ls, d) && RIn(m, rs, d)
  }

  /** Writes that a tree does not see. */
  lemma {:induction false} KeepTree(m: Memory, n: Node, v: Cell, t: Tree, lo: int, hi: int)
    requires TreeIn(m, t) && Ord(t, lo, hi) && (n.key <= lo || hi <= n.key || n !in Nodes(t))
    ensures TreeIn(m[n := v], t)
  {
    if t.Bin? {
      KeepTree(m, n, v, t.l, lo, t.x.key);
      KeepTree(m, n, v, t.r, t.x.key, hi);
    }
  }

  /** Writes that a left side tree does not see: beyond its last key, to the open link of its last
      node, or to the dummy's other link. */
  lemma {:induction false} KeepL(m: Memory, n: Node, v: Cell, s: Side, d: Node, lo: int)
    requires LIn(m, s, d) && LOrd(s, lo) && d !in SideNodes(s) && n in m
    requires (n != d && Floor(s, lo) < n.key) || (n == Tail(s, d) && v.left == m[n].left) ||
      (n == d && v.right == m[n].right)
    ensures LIn(m[n := v], s, d)
  {
    if s.Hung? {
      KeepTree(m, n, v, s.t, Floor(s.up, lo), s.x.key);
      KeepL(m, n, v, s.up, d, lo);
    }
  }

  lemma {:induction false} KeepR(m: Memory, n: Node, v: Cell, s: Side, d: Node, hi: int)
    requires RIn(m, s, d) && ROrd(s, hi) && d !in SideNodes(s) && n in m
    requires (n != d && n.key < Ceiling(s, hi)) || (n == Tail(s, d) && v.right == m[n].right) ||
      (n == d && v.left == m[n].left)
    ensures RIn(m[n := v], s, d)
  {
    if s.Hung? {
      KeepTree(m, n, v, s.t, s.x.key, Ceiling(s.up, hi));
      KeepR(m, n, v, s.up, d, hi);
    }
  }

  lemma {:induction false} FloorAbove(s: Side, lo: int)
    requires LOrd(s, lo)
    ensures lo <= Floor(s, lo)
  {
    if s.Hung? {
      FloorAbove(s.up, lo);
    }
  }

  // ---- the steps ----

  /** SPLAY_ROTATE_RIGHT at the root x of the middle tree. */
  function RotatedRight(m: Memory, x: Node, y: Node): Memory
    requires x in m && y in m
  {
    var m1: Memory := m[x := m[x].(left := m[y].right)];
    m1[y := m1[y].(right := x)]
  }

  function RotatedLeft(m: Memory, x: Node, y: Node): Memory
    requires x in m && y in m
  {
    var m1: Memory := m[x := m[x].(right := m[y].left)];
    m1[y := m1[y].(left := x)]
  }

  lemma {:induction false} RotateRightIn(m: Memory, ls: Side, a: Tree, y: Node, b: Tree, x: Node, c: Tree, rs: Side,
    d: Node, lo: int, hi: int)
    requires Splitting(m, ls, Bin(Bin(a, y, b), x, c), rs, d, lo, hi)
    ensures x in m && y in m && x != y
    ensures Splitting(RotatedRight(m, x, y), ls, Bin(a, y, Bin(b, x, c)), rs, d, lo, hi)
  {
    var l := Bin(a, y, b);
    assert TreeIn(m, l) && Ord(l, Floor(ls, lo), x.key) && d !in Nodes(l);
    assert d !in Nodes(Bin(b, x, c));
    WriteInside(m, ls, rs, d, lo, hi, x, Cell(Root(b), Root(c)), a, b, c, Floor(ls, lo), y.key, x.key);
    var m1: Memory := m[x := Cell(Root(b), Root(c))];
    WriteInside(m1, ls, rs, d, lo, hi, y, Cell(Root(a), x), a, b, c, Floor(ls, lo), y.key, x.key);
  }

  lemma {:induction false} RotateLeftIn(m: Memory, ls: Side, a: Tree, x: Node, b: Tree, y: Node, c: Tree, rs: Side,
    d: Node, lo: int, hi: int)
    requires Splitting(m, ls, Bin(a, x, Bin(b, y, c)), rs, d, lo, hi)
    ensures x in m && y in m && x != y
    ensures Splitting(RotatedLeft(m, x, y), ls, Bin(Bin(a, x, b), y, c), rs, d, lo, hi)
  {
    var r := Bin(b, y, c);
    assert TreeIn(m, r) && Ord(r, x.key, Ceiling(rs, hi)) && d !in Nodes(r);
    assert d !in Nodes(Bin(a, x, b));
    WriteInside(m, ls, rs, d, lo, hi, x, Cell(Root(a), Root(b)), a, b, c, Floor(ls, lo), x.key, y.key);
    var m1: Memory := m[x := Cell(Root(a), Root(b))];
    WriteInside(m1, ls, rs, d, lo, hi, y, Cell(x, Root(c)), a, b, c, Floor(ls, lo), x.key, y.key);
  }

  /** A write to one of two nodes p < q of the middle leaves the three subtrees around them and
      both side trees alone. */
  lemma {:induction false} WriteInside(m: Memory, ls: Side, rs: Side, d: Node, lo: int, hi: int, n: Node, v: Cell,
                                       a: Tree, b: Tree, c: Tree, f: int, p: int, q: int)
    requires LIn(m, ls, d) && RIn(m, rs, d) && LOrd(ls, lo) && ROrd(rs, hi) && n in m && n != d
    requires d !in SideNodes(ls) && d !in SideNodes(rs)
    requires f == Floor(ls, lo) < p < q < Ceiling(rs, hi) && (n.key == p || n.key == q)
    requires TreeIn(m, a) && TreeIn(m, b) && TreeIn(m, c)
    requires Ord(a, f, p) && Ord(b, p, q) && Ord(c, q, Ceiling(rs, hi))
    ensures var w := m[n := v];
      LIn(w, ls, d) && RIn(w, rs, d) && TreeIn(w, a) && TreeIn(w, b) && TreeIn(w, c)
  {
    KeepL(m, n, v, ls, d, lo);
    KeepR(m, n, v, rs, d, hi);
    KeepTree(m, n, v, a, f, p);
    KeepTree(m, n, v, b, p, q);
    KeepTree(m, n, v, c, q, Ceiling(rs, hi));
  }

  /** SPLAY_LINKLEFT: the root and its right subtree join the right side tree. */
  lemma {:induction false} LinkLeftIn(m: Memory, ls: Side, t: Tree, rs: Side, d: Node, lo: int, hi: int)
    requires Splitting(m, ls, t, rs, d, lo, hi) && t.Bin?
    ensures var p := Tail(rs, d);
      p in m && p != t.x && Splitting(m[p := m[p].(left := t.x)], ls, t.l, Hung(rs, t.r, t.x), d, lo, hi)
  {
    var p := Tail(rs, d);
    var v := m[p].(left := t.x);
    FloorAbove(ls, lo);
    KeepL(m, p, v, ls, d, lo);
    KeepR(m, p, v, rs, d, hi);
    KeepTree(m, p, v, t, Floor(ls, lo), Ceiling(rs, hi));
  }

  lemma {:induction false} LinkRightIn(m: Memory, ls: Side, t: Tree, rs: Side, d: Node, lo: int, hi: int)
    requires Splitting(m, ls, t, rs, d, lo, hi) && t.Bin?
    ensures var p := Tail(ls, d);
      p in m && p != t.x && Splitting(m[p := m[p].(right := t.x)], Hung(ls, t.l, t.x), t.r, rs, d, lo, hi)
  {
    var p := Tail(ls, d);
    var v := m[p].(right := t.x);
    FloorAbove(ls, lo);
    KeepL(m, p, v, ls, d, lo);
    KeepR(m, p, v, rs, d, hi);
    KeepTree(m, p, v, t, Floor(ls, lo), Ceiling(rs, hi));
  }

  /** Closing the open link of a side tree turns it into a tree hanging at the dummy. */
  lemma {:induction false} LFillIn(m: Memory, s: Side, d: Node, t: Tree)
    requires LIn(m, s, d) && TreeIn(m, t) && Tail(s, d) in m && m[Tail(s, d)].right == Root(t)
    ensures TreeIn(m, LFill(s, t)) && d in m && m[d].right == Root(LFill(s, t))
  {
    if s.Hung? {
      LFillIn(m, s.up, d, Bin(s.t, s.x, t));
    }
  }

  lemma {:induction false} RFillIn(m: Memory, s: Side, d: Node, t: Tree)
    requires RIn(m, s, d) && TreeIn(m, t) && Tail(s, d) in m && m[Tail(s, d)].left == Root(t)
    ensures TreeIn(m, RFill(s, t)) && d in m && m[d].left == Root(RFill(s, t))
  {
    if s.Hung? {
      RFillIn(m, s.up, d, Bin(t, s.x, s.t));
    }
  }

  /** The four writes of SPLAY_ASSEMBLE. */
  function Assembled(m: Memory, x: Node, left: Node, right: Node, d: Node): (w: Memory)
    requires x in m && left in m && right in m && d in m
    ensures w.Keys == m.Keys
  {
    var m1: Memory := m[left := m[left].(right := m[x].left)];
    var m2: Memory := m1[right := m1[right].(left := m1[x].right)];
    var m3: Memory := m2[x := m2[x].(left := m2[d].right)];
    m3[x := m3[x].(right := m3[d].left)]
  }

  function Whole(ls: Side, t: Tree, rs: Side): Tree
    requires t.Bin?
  {
    Bin(LFill(ls, t.l), t.x, RFill(rs, t.r))
  }

  lemma {:induction false} CloseSides(m: Memory, ls: Side, t: Tree, rs: Side, d: Node, lo: int, hi: int)
    requires Splitting(m, ls, t, rs, d, lo, hi) && t.Bin?
    ensures var p, q := Tail(ls, d), Tail(rs, d);
      && p in m && q in m && p != t.x && q != t.x
      && var m1: Memory := m[p := m[p].(right := Root(t.l))];
      var m2: Memory := m1[q := m1[q].(left := Root(t.r))];
      TreeIn(m2, LFill(ls, t.l)) && TreeIn(m2, RFill(rs, t.r)) && t.x in m2 && m2[t.x] == m[t.x] &&
      m2[d].right == Root(LFill(ls, t.l)) && m2[d].left == Root(RFill(rs, t.r))
  {
    var p, q := Tail(ls, d), Tail(rs, d);
    FloorAbove(ls, lo);
    var v := m[p].(right := Root(t.l));
    KeepL(m, p, v, ls, d, lo);
    KeepR(m, p, v, rs, d, hi);
    KeepTree(m, p, v, t.l, Floor(ls, lo), t.x.key);
    KeepTree(m, p, v, t.r, t.x.key, Ceiling(rs, hi));
    var m1: Memory := m[p := v];
    var w := m1[q].(left := Root(t.r));
    KeepL(m1, q, w, ls, d, lo);
    KeepR(m1, q, w, rs, d, hi);
    KeepTree(m1, q, w, t.l, Floor(ls, lo), t.x.key);
    KeepTree(m1, q, w, t.r, t.x.key, Ceiling(rs, hi));
    var m2: Memory := m1[q := w];
    LFillIn(m2, ls, d, t.l);
    RFillIn(m2, rs, d, t.r);
  }

  /** Assembling yields one search tree with the same elements in the same order. */
  lemma {:induction false} AssembleIn(m: Memory, ls: Side, t: Tree, rs: Side, d: Node, lo: int, hi: int)
    requires Splitting(m, ls, t, rs, d, lo, hi) && t.Bin?
    ensures t.x in m && Tail(ls, d) in m && Tail(rs, d) in m && d != t.x && Tail(ls, d) != t.x && Tail(rs, d) != t.x
    ensures TreeIn(Assembled(m, t.x, Tail(ls, d), Tail(rs, d), d), Whole(ls, t, rs))
    ensures Ord(Whole(ls, t, rs), lo, hi)
    ensures InOrder(Whole(ls, t, rs)) == LSeq(ls) + InOrder(t) + RSeq(rs)
  {
    CloseSides(m, ls, t, rs, d, lo, hi);
    WholeOrder(ls, t, rs, lo, hi);
    FloorAbove(ls, lo);
    var x, p, q := t.x, Tail(ls, d), Tail(rs, d);
    var l, r := LFill(ls, t.l), RFill(rs, t.r);
    var m1: Memory := m[p := m[p].(right := Root(t.l))];
    var m2: Memory := m1[q := m1[q].(left := Root(t.r))];
    var v := Cell(Root(l), Root(r));
    KeepTree(m2, x, v, l, lo, x.key);
    KeepTree(m2, x, v, r, x.key, hi);
    hide TreeIn, LIn, RIn, LOrd, ROrd, LFill, RFill, Splitting, Ord, InOrder, LSeq, RSeq;
    AssembledIs(m, x, p, q, d);
    Joined(m2[x := v], l, x, r);
  }

  lemma {:induction false} AssembledIs(m: Memory, x: Node, p: Node, q: Node, d: Node)
    requires x in m && p in m && q in m && d in m && x != p && x != q && x != d
    ensures var m1: Memory := m[p := m[p].(right := m[x].left)];
      var m2: Memory := m1[q := m1[q].(left := m1[x].right)];
      Assembled(m, x, p, q, d) == m2[x := Cell(m2[d].right, m2[d].left)]
  {
  }

  lemma {:induction false} Joined(m: Memory, l: Tree, x: Node, r: Tree)
    requires TreeIn(m, l) && TreeIn(m, r) && x in m && m[x] == Cell(Root(l), Root(r))
    ensures TreeIn(m, Bin(l, x, r))
  {
  }

  lemma {:induction false} WholeOrder(ls: Side, t: Tree, rs: Side, lo: int, hi: int)
    requires t.Bin? && LOrd(ls, lo) && ROrd(rs, hi) && Ord(t, Floor(ls, lo), Ceiling(rs, hi))
    ensures lo < t.x.key < hi
    ensures Ord(LFill(ls, t.l), lo, t.x.key) && Ord(RFill(rs, t.r), t.x.key, hi)
    ensures Ord(Whole(ls, t, rs), lo, hi)
    ensures InOrder(Whole(ls, t, rs)) == LSeq(ls) + InOrder(t) + RSeq(rs)
  {
    FloorAbove(ls, lo);
    CeilingBelow(rs, hi);
    LFillIs(ls, t.l, lo, t.x.key);
    RFillIs(rs, t.r, t.x.key, hi);
    hide LOrd, ROrd, Floor, Ceiling, LFill, RFill, LSeq, RSeq;
    Regrouped(LSeq(ls), InOrder(t.l), t.x, InOrder(t.r), RSeq(rs));
  }

  lemma {:induction false} Regrouped(a: seq<Node>, b: seq<Node>, x: Node, c: seq<Node>, q: seq<Node>)
    ensures a + (b + [x] + c) + q == (a + b) + [x] + (c + q)
  {
  }

  lemma {:induction false} CeilingBelow(s: Side, hi: int)
    requires ROrd(s, hi)
    ensures Ceiling(s, hi) <= hi
  {
    if s.Hung? {
      CeilingBelow(s.up, hi);
    }
  }

  lemma {:induction false} ForgetTree(m: Memory, t: Tree, n: Node)
    requires TreeIn(m, t) && n !in Nodes(t)
    ensures TreeIn(m - {n}, t)
  {
    if t.Bin? {
      ForgetTree(m, t.l, n);
      ForgetTree(m, t.r, n);
    }
  }

  lemma {:induction false} LFillNodes(s: Side, t: Tree)
    ensures Nodes(LFill(s, t)) == SideNodes(s) + Nodes(t)
  {
    if s.Hung? {
      LFillNodes(s.up, Bin(s.t, s.x, t));
    }
  }

  lemma {:induction false} RFillNodes(s: Side, t: Tree)
    ensures Nodes(RFill(s, t)) == SideNodes(s) + Nodes(t)
  {
    if s.Hung? {
      RFillNodes(s.up, Bin(t, s.x, s.t));
    }
  }

  lemma {:induction false} WholeNodes(ls: Side, t: Tree, rs: Side)
    requires t.Bin?
    ensures Nodes(Whole(ls, t, rs)) == SideNodes(ls) + Nodes(t) + SideNodes(rs)
  {
    LFillNodes(ls, t.l);
    RFillNodes(rs, t.r);
  }

  /** SPLAY_ASSEMBLE followed by the end of the dummy's life. */
  lemma {:induction false} AssembledTree(m: Memory, ls: Side, t: Tree, rs: Side, d: Node, lo: int, hi: int)
    requires Splitting(m, ls, t, rs, d, lo, hi) && t.Bin?
    ensures var u := Whole(ls, t, rs);
      && t.x in m && Tail(ls, d) in m && Tail(rs, d) in m && d != t.x && Tail(ls, d) != t.x && Tail(rs, d) != t.x
      && TreeIn(Assembled(m, t.x, Tail(ls, d), Tail(rs, d), d) - {d}, u) && Ord(u, lo, hi)
      && InOrder(u) == LSeq(ls) + InOrder(t) + RSeq(rs)
  {
    AssembleIn(m, ls, t, rs, d, lo, hi);
    WholeNodes(ls, t, rs);
    ForgetTree(Assembled(m, t.x, Tail(ls, d), Tail(rs, d), d), Whole(ls, t, rs), d);
  }

  // ---- insertion and removal at the root ----

  /** A key that bounds every element narrows the range of a search tree. */
  lemma {:induction false} NarrowAbove(t: Tree, lo: int, hi: int, key: int)
    requires Ord(t, lo, hi) && forall n :: n in InOrder(t) ==> n.key < key
    ensures Ord(t, lo, key)
  {
    if t.Bin? {
      assert InOrder(t)[|InOrder(t.l)|] == t.x;
      NarrowAbove(t.r, t.x.key, hi, key);
    }
  }

  lemma {:induction false} NarrowBelow(t: Tree, lo: int, hi: int, key: int)
    requires Ord(t, lo, hi) && forall n :: n in InOrder(t) ==> key < n.key
    ensures Ord(t, key, hi)
  {
    if t.Bin? {
      assert InOrder(t)[|InOrder(t.l)|] == t.x;
      NarrowBelow(t.l, lo, t.x.key, key);
    }
  }

  ghost predicate Same(m: Memory, w: Memory, s: set<Node>) {
    forall n :: n in s && n in m ==> n in w && w[n] == m[n]
  }

  lemma {:induction false} SameTree(m: Memory, w: Memory, t: Tree)
    requires TreeIn(m, t) && Same(m, w, Nodes(t))
    ensures TreeIn(w, t)
  {
    if t.Bin? {
      SameTree(m, w, t.l);
      SameTree(m, w, t.r);
    }
  }

  /** The new element between the left subtree and the old root. */
  lemma {:induction false} InsertBelowIn(m: Memory, t: Tree, n: Node, lo: int, hi: int)
    requires t.Bin? && TreeIn(m, t) && Ord(t, lo, hi) && n !in Nodes(t)
    requires Ord(t.l, lo, n.key) && lo < n.key < t.x.key
    ensures var w := m[n := Cell(Root(t.l), t.x)];
      var u := Bin(t.l, n, Bin(Leaf, t.x, t.r));
      t.x in w && TreeIn(w[t.x := w[t.x].(left := null)], u) && Ord(u, lo, hi)
  {
    KeepTree(m, n, Cell(Root(t.l), t.x), t, lo, hi);
    var w: Memory := m[n := Cell(Root(t.l), t.x)];
    var v := w[t.x].(left := null);
    KeepTree(w, t.x, v, t.l, lo, n.key);
    KeepTree(w, t.x, v, t.r, t.x.key, hi);
    assert TreeIn(w[t.x := v], Bin(Leaf, t.x, t.r));
  }

  lemma {:induction false} InsertAboveIn(m: Memory, t: Tree, n: Node, lo: int, hi: int)
    requires t.Bin? && TreeIn(m, t) && Ord(t, lo, hi) && n !in Nodes(t)
    requires Ord(t.r, n.key, hi) && t.x.key < n.key < hi
    ensures var w := m[n := Cell(t.x, Root(t.r))];
      var u := Bin(Bin(t.l, t.x, Leaf), n, t.r);
      t.x in w && TreeIn(w[t.x := w[t.x].(right := null)], u) && Ord(u, lo, hi)
  {
    KeepTree(m, n, Cell(t.x, Root(t.r)), t, lo, hi);
    var w: Memory := m[n := Cell(t.x, Root(t.r))];
    var v := w[t.x].(right := null);
    KeepTree(w, t.x, v, t.l, lo, t.x.key);
    KeepTree(w, t.x, v, t.r, n.key, hi);
    assert TreeIn(w[t.x := v], Bin(t.l, t.x, Leaf));
  }

  /** The nodes on the two sides of a root are different. */
  lemma {:induction false} SidesApart(t: Tree, lo: int, hi: int)
    requires t.Bin? && Ord(t, lo, hi)
    ensures Nodes(t.l) !! Nodes(t.r) && t.x !in Nodes(t.l) && t.x !in Nodes(t.r)
  {
    OrdNodes(t.l, lo, t.x.key);
    OrdNodes(t.r, t.x.key, hi);
  }

  /** Hanging `r` to the right of a tree whose root has no right child. */
  lemma {:induction false} JoinIn(m: Memory, w: Memory, t: Tree, r: Tree, lo: int, key: int, hi: int)
    requires TreeIn(m, t) && t.Bin? && t.r.Leaf? && Ord(t, lo, key) && TreeIn(w, r) && Ord(r, key, hi) && key < hi
    requires w.Keys == Nodes(r)
    ensures var u := Bin(t.l, t.x, r);
      t.x in m + w && TreeIn((m + w)[t.x := (m + w)[t.x].(right := Root(r))], u) && Ord(u, lo, hi)
  {
    OrdNodes(t, lo, key);
    OrdNodes(r, key, hi);
    assert t.x in Nodes(t);
    SameTree(m, m + w, t);
    SameTree(w, m + w, r);
    var v := (m + w)[t.x].(right := Root(r));
    KeepTree(m + w, t.x, v, t.l, lo, t.x.key);
    KeepTree(m + w, t.x, v, r, key, hi);
    OrdWiden(r, key, hi, t.x.key, hi);
  }
}
