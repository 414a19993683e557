/** The red-black tree head of tree.h on the heap, with its link macros and rotations. */
module RbHeap {
  import opened Elements
  import opened RbShape
  import opened RbMemory

  class RbHead {
    var root: Node?
    ghost var mem: Memory
    ghost var tree: Tree
    ghost var lo: int
    ghost var hi: int

    /** A red-black search tree with a black root: strict key order, equal black counts, no red
        node below a red one, parent links that match, and no other recorded node. */
    ghost predicate Valid()
      reads this, mem.Keys
    {
      At(Top(lo, hi), tree) && Rb(tree) && Col(tree) == Black && mem.Keys == Nodes(tree)
    }

    constructor ()
      ensures Valid() && tree == Leaf && root == null && mem == map[]
    {
      root, mem, tree, lo, hi := null, map[], Leaf, 0, 0;
    }

    /** The nodes hold what `mem` records. */
    ghost predicate Synced()
      reads this`mem, mem.Keys
    {
      forall n :: n in mem ==> mem[n] == Cell(n.color, n.left, n.right, n.parent)
    }

    /** The heap holds exactly the tree Plug(k, t), seen from the hole of k. */
    ghost predicate At(k: Ctx, t: Tree)
      reads this`root, this`mem, mem.Keys
    {
      Synced() && In(mem, k, t) && root == TopRoot(k, Root(t))
    }

    lemma RefocusAt(k: Ctx, t: Tree)
      requires !k.Top?
      ensures At(k, t) <==> At(k.up, Fill(k, t))
    {
      Refocus(mem, k, t);
    }

    lemma ZippedAt(k: Ctx, t: Tree)
      ensures At(k, t) <==> At(Outer(k), Plug(k, t))
      ensures Root(Plug(k, t)) == TopRoot(k, Root(t))
    {
      Zipped(mem, k, t);
      RootOfPlug(k, t);
    }

    lemma AcrossAt(k: Ctx, t: Tree)
      requires !k.Top?
      ensures At(k, t) <==> At(Across(k, t), Sib(k))
    {
      Refocus(mem, k, t);
      Refocus(mem, Across(k, t), Sib(k));
    }

    /** `elm != RB_ROOT(head)` tells whether the focus is inside. */
    lemma RootAt(k: Ctx, t: Tree)
      requires At(k, t)
      ensures k.Top? <==> root == Root(t)
    {
      if !k.Top? {
        RootApart(k, Root(t));
      }
    }

    /** The colours of the focused node's children. */
    lemma NephewFacts(k: Ctx, t: Tree)
      requires At(k, t) && t.Bin?
      ensures t.l.Bin? ==> t.l.x in mem && t.l.x.color == t.l.c
      ensures t.r.Bin? ==> t.r.x in mem && t.r.x.color == t.r.c
    {
      assert TreeIn(mem, t.l, t.x) && TreeIn(mem, t.r, t.x);
    }

    lemma AppendAt(k: Ctx, outer: Ctx, t: Tree)
      ensures At(Append(k, outer), t) <==> At(outer, Plug(k, t))
    {
      AppendIn(mem, k, outer, t);
    }

    lemma Ordered(t: Tree)
      requires At(Top(lo, hi), t)
      ensures Sorted(InOrder(t)) && Ord(t, lo, hi)
    {
      OrdSorted(t, lo, hi);
    }

    lemma OrderedAt(k: Ctx, t: Tree)
      requires At(k, t)
      ensures Sorted(InOrder(t))
    {
      OrdSorted(t, Lo(k), Hi(k));
    }

    /** On which side of its parent the focus hangs. */
    lemma ParentFacts(k: Ctx, t: Tree)
      requires At(k, t) && t.Bin?
      ensures !k.Top? ==> k.x in mem
      ensures !k.Top? ==> (k.InL? <==> t.x == k.x.left)
      ensures !k.Top? ==> (k.InR? <==> t.x == k.x.right)
    {
      FocusCells(mem, k, t);
    }

    /** The outer key bounds may be taken wider. */
    lemma WidenAt(t: Tree, lo: int, hi: int, lo': int, hi': int)
      requires At(Top(lo, hi), t) && lo' <= lo && hi <= hi'
      ensures At(Top(lo', hi'), t)
    {
      OrdWiden(t, lo, hi, lo', hi');
    }

    lemma PlaceIsFree(k: Ctx, key: int)
      requires At(k, Leaf) && Lo(k) < key < Hi(k)
      ensures forall n :: n in Nodes(Plug(k, Leaf)) ==> n.key != key
    {
      CtxKeys(k, key);
      PlugNodes(k, Leaf);
    }

    /** What the code reads at the focus and around it. */
    lemma Facts(k: Ctx, t: Tree)
      requires At(k, t)
      ensures root == TopRoot(k, Root(t))
      ensures t.Bin? ==> t.x in mem && t.x.color == t.c && t.x.parent == Par(k)
      ensures t.Bin? ==> t.x.left == Root(t.l) && t.x.right == Root(t.r)
      ensures !k.Top? ==> k.x in mem && k.x.color == k.c && k.x.parent == Par(k.up)
      ensures k.InL? ==> k.x.left == Root(t) && k.x.right == Root(k.r)
      ensures k.InR? ==> k.x.right == Root(t) && k.x.left == Root(k.l) && (t.Bin? || k.l.Bin? ==> k.x.left != Root(t))
      ensures !k.Top? && Sib(k).Bin? ==> Sib(k).x in mem && Sib(k).x.color == Sib(k).c
    {
      FocusCells(mem, k, t);
    }

    method SetLeft(n: Node, v: Node?)
      requires Synced() && n in mem
      modifies this`mem, n`left
      ensures Synced() && mem == old(mem)[n := old(mem)[n].(left := v)]
    {
      n.left := v;
      mem := mem[n := mem[n].(left := v)];
    }

    method SetRight(n: Node, v: Node?)
      requires Synced() && n in mem
      modifies this`mem, n`right
      ensures Synced() && mem == old(mem)[n := old(mem)[n].(right := v)]
    {
      n.right := v;
      mem := mem[n := mem[n].(right := v)];
    }

    method SetParent(n: Node, v: Node?)
      requires Synced() && n in mem
      modifies this`mem, n`parent
      ensures Synced() && mem == old(mem)[n := old(mem)[n].(parent := v)]
    {
      n.parent := v;
      mem := mem[n := mem[n].(parent := v)];
    }

    method SetColor(n: Node, c: Color)
      requires Synced() && n in mem
      modifies this`mem, n`color
      ensures Synced() && mem == Painted(old(mem), n, c)
    {
      n.color := c;
      mem := Painted(mem, n, c);
    }

    /** RB_SET: a red leaf below `p`; from now on the node is recorded. */
    method SetNew(n: Node, p: Node?)
      requires Synced()
      modifies this`mem, n
      ensures Synced() && mem == old(mem)[n := Cell(Red, null, null, p)]
    {
      n.parent := p;
      n.left, n.right := null, null;
      n.color := Red;
      mem := mem[n := Cell(Red, null, null, p)];
    }

    /** `n`, if any, hangs below `p` from now on. */
    method Adopt(n: Node?, p: Node?)
      requires Synced() && (n != null ==> n in mem)
      modifies this`mem, (if n == null then {} else {n})`parent
      ensures Synced() && mem == ParentSet(old(mem), n, p)
    {
      if n != null {
        SetParent(n, p);
      }
    }

    /** The records of a node outside the tree no longer matter. */
    ghost method Forget(n: Node, t: Tree)
      requires At(Top(lo, hi), t) && Rb(t) && Col(t) == Black && n !in Nodes(t) && mem.Keys == Nodes(t) + {n}
      modifies this`mem, this`tree
      ensures Valid() && tree == t
    {
      ForgetTree(mem, t, null, n);
      mem := mem - {n};
      tree := t;
    }

    /** The child link (or the root) that led to `h` now leads to `g`. */
    method Relink(p: Node?, h: Node?, g: Node?)
      requires Synced() && (p != null ==> p in mem)
      modifies this`root, this`mem, if p == null then {} else {p}
      ensures Synced() && mem == ChildSet(old(mem), p, h, g)
      ensures root == if p == null then g else old(root)
    {
      if p != null {
        if h == p.left {
          SetLeft(p, g);
        } else {
          SetRight(p, g);
        }
      } else {
        root := g;
      }
    }

    method RotateLeft(elm: Node) returns (tmp: Node)
      requires Synced() && elm in mem && elm.right in mem && elm.right != elm && elm.right.left != elm
      requires elm.right.left != null ==> elm.right.left in mem
      requires elm.parent != null ==> elm.parent in mem
      modifies this`root, this`mem, mem.Keys
      ensures Synced() && tmp == old(elm.right) && mem == RotatedLeft(old(mem), elm)
      ensures root == if old(elm.parent) == null then tmp else old(root)
    {
      tmp := elm.right;
      SetRight(elm, tmp.left);
      Adopt(tmp.left, elm);
      SetParent(tmp, elm.parent);
      Relink(elm.parent, elm, tmp);
      SetLeft(tmp, elm);
      SetParent(elm, tmp);
    }

    method RotateRight(elm: Node) returns (tmp: Node)
      requires Synced() && elm in mem && elm.left in mem && elm.left != elm && elm.left.right != elm
      requires elm.left.right != null ==> elm.left.right in mem
      requires elm.parent != null ==> elm.parent in mem
      modifies this`root, this`mem, mem.Keys
      ensures Synced() && tmp == old(elm.left) && mem == RotatedRight(old(mem), elm)
      ensures root == if old(elm.parent) == null then tmp else old(root)
    {
      tmp := elm.left;
      SetLeft(elm, tmp.right);
      Adopt(tmp.right, elm);
      SetParent(tmp, elm.parent);
      Relink(elm.parent, elm, tmp);
      SetRight(tmp, elm);
      SetParent(elm, tmp);
    }

    /** Rotation at the focus. */
    method RotateLeftAt(elm: Node, ghost k: Ctx, ghost t: Tree) returns (tmp: Node)
      requires At(k, t) && t.Bin? && t.x == elm && t.r.Bin?
      modifies this`root, this`mem, mem.Keys
      ensures mem.Keys == old(mem.Keys)
      ensures tmp == t.r.x && At(k, Bin(t.r.c, Bin(t.c, t.l, elm, t.r.l), tmp, t.r.r))
    {
      RotateLeftIn(mem, k, t.c, t.l, elm, t.r.c, t.r.l, t.r.x, t.r.r);
      tmp := RotateLeft(elm);
    }

    method RotateRightAt(elm: Node, ghost k: Ctx, ghost t: Tree) returns (tmp: Node)
      requires At(k, t) && t.Bin? && t.x == elm && t.l.Bin?
      modifies this`root, this`mem, mem.Keys
      ensures mem.Keys == old(mem.Keys)
      ensures tmp == t.l.x && At(k, Bin(t.l.c, t.l.l, tmp, Bin(t.c, t.l.r, elm, t.r)))
    {
      RotateRightIn(mem, k, t.l.c, t.l.l, t.l.x, t.c, t.l.r, elm, t.r);
      tmp := RotateRight(elm);
    }

    /** Colouring the node at the focus, its parent, or its sibling. */
    method SetColorAt(n: Node, c: Color, ghost k: Ctx, ghost t: Tree)
      requires At(k, t) && t.Bin? && t.x == n
      modifies this`mem, n`color
      ensures mem.Keys == old(mem.Keys) && At(k, t.(c := c))
    {
      PaintIn(mem, k, t, c);
      SetColor(n, c);
    }

    method SetColorUp(n: Node, c: Color, ghost k: Ctx, ghost t: Tree)
      requires At(k, t) && !k.Top? && k.x == n
      modifies this`mem, n`color
      ensures mem.Keys == old(mem.Keys) && At(k.(c := c), t)
    {
      PaintUpIn(mem, k, t, c);
      SetColor(n, c);
    }

    method SetColorSib(n: Node, c: Color, ghost k: Ctx, ghost t: Tree)
      requires At(k, t) && !k.Top? && Sib(k).Bin? && Sib(k).x == n
      modifies this`mem, n`color
      ensures mem.Keys == old(mem.Keys) && At(SetSib(k, Sib(k).(c := c)), t)
    {
      PaintSibIn(mem, k, t, c);
      SetColor(n, c);
    }
  }
}
