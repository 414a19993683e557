/** The mathematical side of the red-black tree of libuv's tree.h: trees and one-hole contexts
    whose nodes are the heap objects themselves, with colours, in-order sequence and balance. */
module RbShape {
  import opened Elements

  datatype Tree = Leaf | Bin(c: Color, l: Tree, x: Node, r: Tree)

  /** A tree with one subtree missing, innermost frame first. Keys of the whole tree lie strictly
      between the bounds held by Top. */
  datatype Ctx =
    | Top(lo: int, hi: int)
    | InL(c: Color, x: Node, r: Tree, up: Ctx)
    | InR(c: Color, l: Tree, x: Node, up: Ctx)

  function Root(t: Tree): Node? {
    if t.Leaf? then null else t.x
  }

  /** What the head's root link holds when the hole holds `h`. */
  function TopRoot(k: Ctx, h: Node?): Node? {
    if k.Top? then h else TopRoot(k.up, k.x)
  }

  function Plug(k: Ctx, t: Tree): Tree {
    match k
    case Top(_, _) => t
    case InL(c, x, r, up) => Plug(up, Bin(c, t, x, r))
    case InR(c, l, x, up) => Plug(up, Bin(c, l, x, t))
  }

  /** The tree of the innermost frame around `t`. */
  function Fill(k: Ctx, t: Tree): Tree
    requires !k.Top?
  {
    match k
    case InL(c, x, r, _) => Bin(c, t, x, r)
    case InR(c, l, x, _) => Bin(c, l, x, t)
  }

  /** The other subtree of the innermost frame. */
  function Sib(k: Ctx): Tree
    requires !k.Top?
  {
    if k.InL? then k.r else k.l
  }

  function SetSib(k: Ctx, t: Tree): Ctx
    requires !k.Top?
  {
    if k.InL? then k.(r := t) else k.(l := t)
  }

  lemma {:induction false} PlugBin(k: Ctx, t: Tree)
    requires t.Bin?
    ensures Plug(k, t).Bin?
  {
    if !k.Top? {
      PlugBin(k.up, Fill(k, t));
    }
  }

  function Append(k: Ctx, outer: Ctx): Ctx {
    match k
    case Top(_, _) => outer
    case InL(c, x, r, up) => InL(c, x, r, Append(up, outer))
    case InR(c, l, x, up) => InR(c, l, x, Append(up, outer))
  }

  ghost function Nodes(t: Tree): set<Node> {
    match t
    case Leaf => {}
    case Bin(_, l, x, r) => Nodes(l) + {x} + Nodes(r)
  }

  ghost function CtxNodes(k: Ctx): set<Node> {
    match k
    case Top(_, _) => {}
    case InL(_, x, r, up) => {x} + Nodes(r) + CtxNodes(up)
    case InR(_, l, x, up) => {x} + Nodes(l) + CtxNodes(up)
  }

  lemma {:induction false} PlugNodes(k: Ctx, t: Tree)
    ensures Nodes(Plug(k, t)) == CtxNodes(k) + Nodes(t)
  {
    match k
    case Top(_, _) =>
    case InL(c, x, r, up) => PlugNodes(up, Bin(c, t, x, r));
    case InR(c, l, x, up) => PlugNodes(up, Bin(c, l, x, t));
  }

  // ---- search order ----

  function Lo(k: Ctx): int {
    match k
    case Top(lo, _) => lo
    case InL(_, _, _, up) => Lo(up)
    case InR(_, _, x, _) => x.key
  }

  function Hi(k: Ctx): int {
    match k
    case Top(_, hi) => hi
    case InL(_, x, _, _) => x.key
    case InR(_, _, _, up) => Hi(up)
  }

  /** A search tree whose keys lie strictly between lo and hi. */
  predicate Ord(t: Tree, lo: int, hi: int) {
    match t
    case Leaf => true
    case Bin(_, l, x, r) => lo < x.key < hi && Ord(l, lo, x.key) && Ord(r, x.key, hi)
  }

  predicate CtxOrd(k: Ctx) {
    match k
    case Top(_, _) => true
    case InL(_, x, r, up) => Lo(up) < x.key < Hi(up) && Ord(r, x.key, Hi(up)) && CtxOrd(up)
    case InR(_, l, x, up) => Lo(up) < x.key < Hi(up) && Ord(l, Lo(up), x.key) && CtxOrd(up)
  }

  function Outer(k: Ctx): (o: Ctx)
    ensures o.Top?
  {
    match k
    case Top(_, _) => k
    case InL(_, _, _, up) => Outer(up)
    case InR(_, _, _, up) => Outer(up)
  }

  lemma {:induction false} PlugOrd(k: Ctx, t: Tree)
    ensures Ord(Plug(k, t), Lo(Outer(k)), Hi(Outer(k))) <==> CtxOrd(k) && Ord(t, Lo(k), Hi(k))
  {
    match k
    case Top(_, _) =>
    case InL(c, x, r, up) => PlugOrd(up, Bin(c, t, x, r));
    case InR(c, l, x, up) => PlugOrd(up, Bin(c, l, x, t));
  }

  lemma {:induction false} OrdNodes(t: Tree, lo: int, hi: int)
    requires Ord(t, lo, hi)
    ensures forall n :: n in Nodes(t) ==> lo < n.key < hi
  {
    if t.Bin? {
      OrdNodes(t.l, lo, t.x.key);
      OrdNodes(t.r, t.x.key, hi);
    }
  }

  lemma {:induction false} OrdWiden(t: Tree, lo: int, hi: int, lo': int, hi': int)
    requires Ord(t, lo, hi) && lo' <= lo && hi <= hi'
    ensures Ord(t, lo', hi')
  {
    if t.Bin? {
      OrdWiden(t.l, lo, t.x.key, lo', t.x.key);
      OrdWiden(t.r, t.x.key, hi, t.x.key, hi');
    }
  }

  lemma {:induction false} CtxKeys(k: Ctx, key: int)
    requires CtxOrd(k) && Lo(k) < key < Hi(k)
    ensures forall n :: n in CtxNodes(k) ==> n.key != key
    ensures Lo(Outer(k)) < key < Hi(Outer(k))
  {
    match k
    case Top(_, _) =>
    case InL(_, x, r, up) => CtxKeys(up, key); OrdNodes(r, x.key, Hi(up));
    case InR(_, l, x, up) => CtxKeys(up, key); OrdNodes(l, Lo(up), x.key);
  }

  // ---- in-order sequence ----

  ghost function InOrder(t: Tree): seq<Node> {
    match t
    case Leaf => []
    case Bin(_, l, x, r) => InOrder(l) + [x] + InOrder(r)
  }

  ghost function Before(k: Ctx): seq<Node> {
    match k
    case Top(_, _) => []
    case InL(_, x, r, up) => Before(up)
    case InR(_, l, x, up) => Before(up) + InOrder(l) + [x]
  }

  ghost function After(k: Ctx): seq<Node> {
    match k
    case Top(_, _) => []
    case InL(_, x, r, up) => [x] + InOrder(r) + After(up)
    case InR(_, l, x, up) => After(up)
  }

  /** The in-order sequence of the whole tree, seen from a focus. */
  ghost function Order(k: Ctx, t: Tree): seq<Node> {
    Before(k) + InOrder(t) + After(k)
  }

  lemma {:induction false} RefocusOrder(k: Ctx, t: Tree)
    requires !k.Top?
    ensures Order(k, t) == Order(k.up, Fill(k, t))
  {
    match k
    case InL(c, x, r, up) => Regroup(Before(up), InOrder(t), [x], InOrder(r), After(up));
    case InR(c, l, x, up) => Regroup(Before(up), InOrder(l), [x], InOrder(t), After(up));
  }

  lemma {:induction false} PlugInOrder(k: Ctx, t: Tree)
    ensures InOrder(Plug(k, t)) == Order(k, t)
  {
    if !k.Top? {
      PlugInOrder(k.up, Fill(k, t));
      RefocusOrder(k, t);
    }
  }

  lemma {:induction false} RotateOrder(c: Color, a: Tree, x: Node, e: Color, b: Tree, y: Node, d: Tree)
    ensures InOrder(Bin(c, a, x, Bin(e, b, y, d))) == InOrder(Bin(e, Bin(c, a, x, b), y, d))
  {
    assert InOrder(Bin(e, b, y, d)) == InOrder(b) + [y] + InOrder(d);
    assert InOrder(Bin(c, a, x, b)) == InOrder(a) + [x] + InOrder(b);
    assert InOrder(a) + [x] + (InOrder(b) + [y] + InOrder(d)) == InOrder(a) + [x] + InOrder(b) + [y] + InOrder(d);
  }

  lemma {:induction false} InOrderNodes(t: Tree)
    ensures forall n :: n in InOrder(t) <==> n in Nodes(t)
  {
    if t.Bin? {
      InOrderNodes(t.l);
      InOrderNodes(t.r);
    }
  }

  /** The focus on a member node. */
  ghost function Locate(k: Ctx, t: Tree, n: Node): (z: (Ctx, Tree))
    requires n in Nodes(t)
    ensures z.1.Bin? && z.1.x == n && Plug(z.0, z.1) == Plug(k, t) && Outer(z.0) == Outer(k)
    decreases t
  {
    if n == t.x then (k, t)
    else if n in Nodes(t.l) then Locate(InL(t.c, t.x, t.r, k), t.l, n)
    else Locate(InR(t.c, t.l, t.x, k), t.r, n)
  }

  /** A search tree lists its nodes in strictly increasing key order, within its bounds. */
  lemma {:induction false} OrdSorted(t: Tree, lo: int, hi: int)
    requires Ord(t, lo, hi)
    ensures Sorted(InOrder(t))
    ensures forall n :: n in InOrder(t) ==> lo < n.key < hi
  {
    if t.Bin? {
      OrdSorted(t.l, lo, t.x.key);
      OrdSorted(t.r, t.x.key, hi);
      SortedAround(InOrder(t.l), t.x, InOrder(t.r));
    }
  }

  // ---- colours and black counts ----

  function Col(t: Tree): Color {
    if t.Leaf? then Black else t.c
  }

  function One(c: Color): nat {
    if c == Black then 1 else 0
  }

  /** Black nodes on the leftmost path; the same on every path of a balanced tree. */
  function Bh(t: Tree): nat {
    match t
    case Leaf => 0
    case Bin(c, l, _, _) => Bh(l) + One(c)
  }

  /** Every path has the same number of black nodes and no red node has a red child. */
  predicate Rb(t: Tree) {
    match t
    case Leaf => true
    case Bin(c, l, _, r) =>
      Rb(l) && Rb(r) && Bh(l) == Bh(r) && (c == Red ==> Col(l) == Black && Col(r) == Black)
  }

  function CtxCol(k: Ctx): Color {
    if k.Top? then Black else k.c
  }

  /** The context becomes a red-black tree with a black root once its hole holds a tree of
      black count h that is black below a red frame and black at the top. */
  predicate CtxRb(k: Ctx, h: nat) {
    match k
    case Top(_, _) => true
    case InL(c, _, r, up) =>
      Rb(r) && Bh(r) == h && CtxRb(up, h + One(c)) &&
      (c == Red ==> Col(r) == Black && !up.Top? && CtxCol(up) == Black)
    case InR(c, l, _, up) =>
      Rb(l) && Bh(l) == h && CtxRb(up, h + One(c)) &&
      (c == Red ==> Col(l) == Black && !up.Top? && CtxCol(up) == Black)
  }

  predicate Fits(k: Ctx, t: Tree) {
    Rb(t) && CtxRb(k, Bh(t)) && (k.Top? || CtxCol(k) == Red ==> Col(t) == Black)
  }

  lemma {:induction false} PlugRb(k: Ctx, t: Tree)
    ensures Rb(Plug(k, t)) && Col(Plug(k, t)) == Black <==> Fits(k, t)
  {
    match k
    case Top(_, _) =>
    case InL(c, x, r, up) => PlugRb(up, Bin(c, t, x, r));
    case InR(c, l, x, up) => PlugRb(up, Bin(c, l, x, t));
  }

  // ---- the steps of RB_INSERT_COLOR ----

  /** `s` is red, and all that may be wrong with the whole tree is that its parent is red too
      or that `s` is the root. */
  predicate RedAt(k: Ctx, s: Tree) {
    s.Bin? && s.c == Red && Rb(s) && CtxRb(k, Bh(s))
  }

  lemma {:induction false} RedHasGrandparent(k: Ctx, s: Tree)
    requires RedAt(k, s) && !k.Top? && k.c == Red
    ensures !k.up.Top? && k.up.c == Black
  {
  }

  /** A red uncle: both children of the grandparent become black and the grandparent red. */
  lemma {:induction false} RecolorRb(k: Ctx, s: Tree)
    requires RedAt(k, s) && !k.Top? && k.c == Red && !k.up.Top? && Col(Sib(k.up)) == Red
    ensures var u := Sib(k.up);
      var t := Fill(SetSib(k.up, u.(c := Black)).(c := Red), Fill(k.(c := Black), s));
      RedAt(k.up.up, t) && Order(k.up.up, t) == Order(k, s)
  {
    RefocusOrder(k, s);
    RefocusOrder(k.up, Fill(k, s));
    var h, u := Bh(s), Sib(k.up);
    assert CtxRb(k.up, h) && Rb(Sib(k)) && Bh(Sib(k)) == h;
    assert CtxRb(k.up.up, h + 1) && Rb(u) && Bh(u) == h;
    var u', p' := u.(c := Black), Fill(k.(c := Black), s);
    assert Rb(u') && Bh(u') == h + 1 && InOrder(u') == InOrder(u);
    assert Rb(p') && Bh(p') == h + 1 && InOrder(p') == InOrder(Fill(k, s));
  }

  /** A black uncle: after at most one rotation below and one at the grandparent, `top` is black
      over two red children. Both outcomes of the two mirrored branches. */
  lemma {:induction false} TurnedRb(up: Ctx, h: nat, l: Tree, p: Node, r: Tree, g: Node, u: Tree)
    requires Rb(l) && Rb(r) && Rb(u) && Bh(l) == Bh(r) == Bh(u) == h && CtxRb(up, h + 1)
    requires Col(r) == Black && Col(u) == Black
    ensures CtxRb(InL(Black, p, Bin(Red, r, g, u), up), h)
    ensures CtxRb(InR(Black, Bin(Red, u, g, r), p, up), h)
    ensures Order(InL(Black, p, Bin(Red, r, g, u), up), l) == Order(up, Bin(Red, Bin(Red, l, p, r), g, u))
    ensures Order(InR(Black, Bin(Red, u, g, r), p, up), l) == Order(up, Bin(Red, u, g, Bin(Red, r, p, l)))
  {
    RefocusOrder(InL(Black, p, Bin(Red, r, g, u), up), l);
    RefocusOrder(InR(Black, Bin(Red, u, g, r), p, up), l);
    RotateOrder(Red, l, p, Red, r, g, u);
    RotateOrder(Red, u, g, Red, r, p, l);
    assert Rb(Bin(Red, r, g, u)) && Rb(Bin(Red, u, g, r));
  }

  function Depth(k: Ctx): nat {
    if k.Top? then 0 else 1 + Depth(k.up)
  }

  // ---- the steps of RB_REMOVE_COLOR ----

  /** Red-black below the root, whatever the root's own colour. */
  predicate RbBelow(t: Tree) {
    t.Leaf? || (Rb(t.l) && Rb(t.r) && Bh(t.l) == Bh(t.r))
  }

  /** `s` lacks one black node, and nothing else is wrong but possibly its own red root. */
  predicate Short(k: Ctx, s: Tree) {
    RbBelow(s) && CtxRb(k, Bh(s) + 1)
  }

  /** The focus moved to the sibling. */
  function Across(k: Ctx, s: Tree): Ctx
    requires !k.Top?
  {
    match k
    case InL(c, x, r, up) => InR(c, s, x, up)
    case InR(c, l, x, up) => InL(c, x, s, up)
  }

  /** A subtree that lacks a black node has a sibling. */
  lemma {:induction false} ShortHasSibling(k: Ctx, s: Tree)
    requires Short(k, s) && !k.Top?
    ensures Sib(k).Bin? && Rb(Sib(k)) && Bh(Sib(k)) == Bh(s) + 1
    ensures Sib(k).c == Red ==>
      k.c == Black && Sib(k).l.Bin? && Sib(k).l.c == Black && Sib(k).r.Bin? && Sib(k).r.c == Black
  {
  }

  /** Red sibling: after the rotation the new sibling is black. */
  lemma {:induction false} RedSiblingLeft(up: Ctx, x: Node, a: Tree, y: Node, b: Tree, s: Tree)
    requires Short(InL(Black, x, Bin(Red, a, y, b), up), s)
    ensures Short(InL(Red, x, a, InL(Black, y, b, up)), s)
    ensures Order(InL(Red, x, a, InL(Black, y, b, up)), s) == Order(InL(Black, x, Bin(Red, a, y, b), up), s)
  {
    assert Rb(Bin(Red, a, y, b));
    RefocusOrder(InL(Black, x, Bin(Red, a, y, b), up), s);
    RefocusOrder(InL(Red, x, a, InL(Black, y, b, up)), s);
    RefocusOrder(InL(Black, y, b, up), Bin(Red, s, x, a));
    RotateOrder(Red, s, x, Red, a, y, b);
  }

  lemma {:induction false} RedSiblingRight(up: Ctx, b: Tree, y: Node, a: Tree, x: Node, s: Tree)
    requires Short(InR(Black, Bin(Red, b, y, a), x, up), s)
    ensures Short(InR(Red, a, x, InR(Black, b, y, up)), s)
    ensures Order(InR(Red, a, x, InR(Black, b, y, up)), s) == Order(InR(Black, Bin(Red, b, y, a), x, up), s)
  {
    assert Rb(Bin(Red, b, y, a));
    RefocusOrder(InR(Black, Bin(Red, b, y, a), x, up), s);
    RefocusOrder(InR(Red, a, x, InR(Black, b, y, up)), s);
    RefocusOrder(InR(Black, b, y, up), Bin(Red, a, x, s));
    RotateOrder(Red, b, y, Red, a, x, s);
  }

  /** Black nephews: the sibling turns red and the lack moves up. */
  lemma {:induction false} BlackNephewsRb(k: Ctx, s: Tree)
    requires Short(k, s) && Rb(s) && !k.Top? && Sib(k).Bin? && Sib(k).c == Black
    requires Col(Sib(k).l) == Black && Col(Sib(k).r) == Black
    ensures var t := Fill(SetSib(k, Sib(k).(c := Red)), s);
      Short(k.up, t) && Order(k.up, t) == Order(k, s)
  {
    var b := Sib(k).(c := Red);
    assert Rb(b) && Bh(b) == Bh(s) && InOrder(b) == InOrder(Sib(k));
    RefocusOrder(k, s);
  }

  /** A red nephew on the inside only: rotating the sibling brings a red node to the outside. */
  lemma {:induction false} InnerNephewRb(k: Ctx, s: Tree, c: Tree)
    requires Short(k, s) && !k.Top? && Rb(c) && Bh(c) == Bh(s) + 1 && (k.c == Red ==> Col(c) == Black)
    requires InOrder(c) == InOrder(Sib(k))
    ensures Short(SetSib(k, c), s) && Order(SetSib(k, c), s) == Order(k, s)
  {
  }

  /** A red nephew on the outside: one rotation at the parent restores the missing black node. */
  lemma {:induction false} OuterNephewLeft(c: Color, x: Node, a: Tree, y: Node, b: Tree, w: Node, d: Tree, up: Ctx,
    s: Tree)
    requires Short(InL(c, x, Bin(Black, a, y, Bin(Red, b, w, d)), up), s) && Rb(s)
    ensures var t := Bin(c, Bin(Black, s, x, a), y, Bin(Black, b, w, d));
      Fits(up, t) && Order(up, t) == Order(InL(c, x, Bin(Black, a, y, Bin(Red, b, w, d)), up), s)
  {
    var r := Bin(Red, b, w, d);
    assert Rb(Bin(Black, a, y, r)) && Rb(r) && InOrder(r) == InOrder(Bin(Black, b, w, d));
    assert Rb(Bin(Black, s, x, a)) && Rb(Bin(Black, b, w, d));
    RefocusOrder(InL(c, x, Bin(Black, a, y, r), up), s);
    RotateOrder(Black, s, x, c, a, y, r);
    assert InOrder(Bin(c, a, y, r)) == InOrder(Bin(Black, a, y, r));
  }

  lemma {:induction false} OuterNephewRight(c: Color, d: Tree, w: Node, b: Tree, y: Node, a: Tree, x: Node, up: Ctx,
    s: Tree)
    requires Short(InR(c, Bin(Black, Bin(Red, d, w, b), y, a), x, up), s) && Rb(s)
    ensures var t := Bin(c, Bin(Black, d, w, b), y, Bin(Black, a, x, s));
      Fits(up, t) && Order(up, t) == Order(InR(c, Bin(Black, Bin(Red, d, w, b), y, a), x, up), s)
  {
    var l := Bin(Red, d, w, b);
    assert Rb(Bin(Black, l, y, a)) && Rb(l) && InOrder(l) == InOrder(Bin(Black, d, w, b));
    assert Rb(Bin(Black, a, x, s)) && Rb(Bin(Black, d, w, b));
    RefocusOrder(InR(c, Bin(Black, l, y, a), x, up), s);
    RotateOrder(c, l, y, Black, a, x, s);
    assert InOrder(Bin(c, l, y, a)) == InOrder(Bin(Black, l, y, a));
  }

  /** Below a frame there is always an outermost node, and it is not inside the hole. */
  lemma {:induction false} RootApart(k: Ctx, h: Node?)
    requires CtxOrd(k) && !k.Top?
    ensures TopRoot(k, h) != null && (TopRoot(k, h).key <= Lo(k) || Hi(k) <= TopRoot(k, h).key)
  {
    if !k.up.Top? {
      RootApart(k.up, k.x);
    }
  }

  /** Blackening the focus ends the repair once it is red or the root. */
  lemma {:induction false} Blackened(k: Ctx, s: Tree)
    requires Short(k, s) && (Col(s) == Red || k.Top?)
    ensures Fits(k, if s.Bin? then s.(c := Black) else s)
  {
  }

  /** A context of left turns only: its hole is the leftmost place. */
  predicate Spine(k: Ctx) {
    k.Top? || (k.InL? && Spine(k.up))
  }

  /** Filling the leftmost place with something above a larger bound. */
  lemma {:induction false} SpineOrd(k: Ctx, t: Tree, u: Tree, lo: int, lo': int, hi: int)
    requires Spine(k) && Ord(Plug(k, t), lo, hi)
    requires forall h :: Ord(t, lo, h) ==> Ord(u, lo', h) && lo' < h
    ensures Ord(Plug(k, u), lo', hi)
  {
    if !k.Top? {
      var t1, u1 := Fill(k, t), Fill(k, u);
      assert forall h :: Ord(t1, lo, h) ==> Ord(u1, lo', h) && lo' < h;
      SpineOrd(k.up, t1, u1, lo, lo', hi);
    }
  }

  /** Which node sits in the frame where two contexts meet does not matter for the balance. */
  lemma {:induction false} AppendRb(k: Ctx, c: Color, l: Tree, x: Node, y: Node, up: Ctx, h: nat)
    ensures CtxRb(Append(k, InR(c, l, x, up)), h) == CtxRb(Append(k, InR(c, l, y, up)), h)
    ensures CtxCol(Append(k, InR(c, l, x, up))) == CtxCol(Append(k, InR(c, l, y, up)))
    ensures !Append(k, InR(c, l, x, up)).Top? && !Append(k, InR(c, l, y, up)).Top?
  {
    if !k.Top? {
      AppendRb(k.up, c, l, x, y, up, h + One(k.c));
    }
  }

  lemma {:induction false} AppendPlug(k: Ctx, outer: Ctx, t: Tree)
    ensures Plug(Append(k, outer), t) == Plug(outer, Plug(k, t))
    ensures Outer(Append(k, outer)) == Outer(outer)
  {
    if !k.Top? {
      AppendPlug(k.up, outer, Fill(k, t));
    }
  }

  lemma {:induction false} SpineOrder(k: Ctx, outer: Ctx)
    requires Spine(k)
    ensures Before(k) == [] && Before(Append(k, outer)) == Before(outer)
    ensures After(Append(k, outer)) == After(k) + After(outer)
  {
    if !k.Top? {
      SpineOrder(k.up, outer);
    }
  }

  /** Taking out a node with at most one child. */
  lemma {:induction false} SplicedRb(k: Ctx, c: Color, l: Tree, x: Node, r: Tree)
    requires Fits(k, Bin(c, l, x, r)) && (l.Leaf? || r.Leaf?)
    ensures var u := if l.Leaf? then r else l;
      if c == Black then Short(k, u) else Fits(k, u)
  {
    assert Rb(l) && Rb(r) && Bh(l) == Bh(r);
  }
}
