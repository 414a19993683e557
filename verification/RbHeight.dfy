/** The conditions that the comment of tree.h states for a red-black tree, on all search paths,
    and the height bound it draws from them. */
module RbHeight {
  import opened Elements
  import opened RbShape

  /** A search path from the root of `t` down to a leaf; `true` turns left. */
  predicate IsPath(t: Tree, p: seq<bool>) {
    if t.Leaf? then p == [] else p != [] && IsPath(if p[0] then t.l else t.r, p[1..])
  }

  function BlackOn(t: Tree, p: seq<bool>): nat
    requires IsPath(t, p)
  {
    if t.Leaf? then 0 else One(t.c) + BlackOn(if p[0] then t.l else t.r, p[1..])
  }

  ghost predicate EqualBlack(t: Tree) {
    forall p, q :: IsPath(t, p) && IsPath(t, q) ==> BlackOn(t, p) == BlackOn(t, q)
  }

  predicate NoRedBelowRed(t: Tree) {
    match t
    case Leaf => true
    case Bin(c, l, _, r) =>
      NoRedBelowRed(l) && NoRedBelowRed(r) && (c == Red ==> Col(l) == Black && Col(r) == Black)
  }

  /** The leftmost path, a witness that every tree has one. */
  function LeftPath(t: Tree): (p: seq<bool>)
    ensures IsPath(t, p) && BlackOn(t, p) == Bh(t)
  {
    if t.Leaf? then []
    else
      var p := LeftPath(t.l);
      assert ([true] + p)[1..] == p;
      [true] + p
  }

  lemma {:induction false} BlackOnEveryPath(t: Tree, p: seq<bool>)
    requires Rb(t) && IsPath(t, p)
    ensures BlackOn(t, p) == Bh(t)
  {
    if t.Bin? {
      BlackOnEveryPath(if p[0] then t.l else t.r, p[1..]);
    }
  }

  lemma {:induction false} EqualBelow(t: Tree)
    requires t.Bin? && EqualBlack(t)
    ensures EqualBlack(t.l) && EqualBlack(t.r) && Bh(t.l) == Bh(t.r)
  {
    forall p, q | IsPath(t.l, p) && IsPath(t.l, q) ensures BlackOn(t.l, p) == BlackOn(t.l, q) {
      assert ([true] + p)[1..] == p && ([true] + q)[1..] == q;
      assert BlackOn(t, [true] + p) == BlackOn(t, [true] + q);
    }
    forall p, q | IsPath(t.r, p) && IsPath(t.r, q) ensures BlackOn(t.r, p) == BlackOn(t.r, q) {
      assert ([false] + p)[1..] == p && ([false] + q)[1..] == q;
      assert BlackOn(t, [false] + p) == BlackOn(t, [false] + q);
    }
    var p, q := LeftPath(t.l), LeftPath(t.r);
    assert ([true] + p)[1..] == p && ([false] + q)[1..] == q;
    assert BlackOn(t, [true] + p) == BlackOn(t, [false] + q);
  }

  /** The local invariant kept by the operations is exactly the pair of conditions on paths. */
  lemma {:induction false} RbMeansPaths(t: Tree)
    ensures Rb(t) <==> EqualBlack(t) && NoRedBelowRed(t)
  {
    if t.Bin? {
      RbMeansPaths(t.l);
      RbMeansPaths(t.r);
      if EqualBlack(t) {
        EqualBelow(t);
      }
      if Rb(t) {
        forall p, q | IsPath(t, p) && IsPath(t, q) ensures BlackOn(t, p) == BlackOn(t, q) {
          BlackOnEveryPath(t, p);
          BlackOnEveryPath(t, q);
        }
      }
    }
  }

  function Height(t: Tree): nat {
    if t.Leaf? then 0 else 1 + if Height(t.l) < Height(t.r) then Height(t.r) else Height(t.l)
  }

  function Pow2(n: nat): nat {
    if n == 0 then 1 else 2 * Pow2(n - 1)
  }

  lemma {:induction false} Doubled(x: nat, y: nat)
    ensures (2 * x) * y == 2 * (x * y)
  {
  }

  lemma {:induction false} Pow2Add(m: nat, n: nat)
    ensures Pow2(m + n) == Pow2(m) * Pow2(n)
  {
    if m > 0 {
      Pow2Add(m - 1, n);
      Doubled(Pow2(m - 1), Pow2(n));
    }
  }

  lemma {:induction false} Pow2Mono(m: nat, n: nat)
    requires m <= n
    ensures 0 < Pow2(m) <= Pow2(n)
  {
    if n > 0 {
      Pow2Mono(if m == 0 then 0 else m - 1, n - 1);
    }
  }

  /** A tree of black height b has at least 2^b - 1 nodes. */
  lemma {:induction false} SizeAtLeast(t: Tree)
    requires Rb(t)
    ensures Pow2(Bh(t)) <= |InOrder(t)| + 1
  {
    if t.Bin? {
      SizeAtLeast(t.l);
      SizeAtLeast(t.r);
    }
  }

  /** At most every other node of a path is red. */
  lemma {:induction false} HeightAtMost(t: Tree)
    requires Rb(t)
    ensures Height(t) <= 2 * Bh(t) + One(Black) - One(Col(t))
  {
    if t.Bin? {
      HeightAtMost(t.l);
      HeightAtMost(t.r);
    }
  }

  /** Height at most 2 lg (n + 1), with both sides exponentiated. */
  lemma {:induction false} HeightBound(t: Tree)
    requires Rb(t) && Col(t) == Black
    ensures Pow2(Height(t)) <= (|InOrder(t)| + 1) * (|InOrder(t)| + 1)
  {
    var b, n := Pow2(Bh(t)), |InOrder(t)| + 1;
    SizeAtLeast(t);
    HeightAtMost(t);
    Pow2Mono(Height(t), Bh(t) + Bh(t));
    Pow2Add(Bh(t), Bh(t));
    Squares(b, n);
  }

  lemma {:induction false} Squares(b: nat, n: nat)
    requires b <= n
    ensures b * b <= n * n
  {
    assert b * b <= b * n <= n * n;
  }
}
