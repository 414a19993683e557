/** The top-down splay tree of tree.h on the heap. */
module SplayTree {
  import opened Elements
  import opened SplayShape

  /** All elements left of the root are below `key`, all right of it above: the root holds the key,
      or is its immediate neighbour. */
  ghost predicate Nearest(t: Tree, key: int) {
    t.Bin? && (forall n :: n in InOrder(t.l) ==> n.key < key) && (forall n :: n in InOrder(t.r) ==> key < n.key)
  }

  class SplayHead {
    var root: Node?
    ghost var mem: Memory
    ghost var tree: Tree
    ghost var lo: int
    ghost var hi: int

    ghost predicate Synced()
      reads this`mem, mem.Keys
    {
      forall n :: n in mem ==> mem[n] == Cell(n.left, n.right)
    }

    /** A search tree in strict key order, spelled out by the links of exactly its own nodes. */
    ghost predicate Valid()
      reads this, mem.Keys
    {
      Synced() && Ord(tree, lo, hi) && lo < hi && TreeIn(mem, tree) && root == Root(tree) && mem.Keys == Nodes(tree)
    }

    /** Between two steps of a splay. */
    ghost predicate Mid(ls: Side, t: Tree, rs: Side, d: Node)
      reads this`root, this`mem, this`lo, this`hi, mem.Keys
    {
      Synced() && Splitting(mem, ls, t, rs, d, lo, hi) && root == Root(t)
    }

    constructor ()
      ensures Valid() && tree == Leaf && root == null && mem == map[]
    {
      root, mem, tree, lo, hi := null, map[], Leaf, 0, 1;
    }

    lemma Ordered()
      requires Valid()
      ensures Sorted(InOrder(tree))
      ensures forall n :: n in InOrder(tree) <==> n in Nodes(tree)
    {
      OrdSorted(tree, lo, hi);
      InOrderNodes(tree);
    }

    lemma MembersOf()
      requires Valid()
      ensures Ord(tree, lo, hi) && lo < hi && mem.Keys == Members(InOrder(tree))
    {
      InOrderNodes(tree);
    }

    /** What SPLAY_NEXT reads at the root. */
    lemma RootFacts()
      requires Valid() && tree.Bin?
      ensures Synced() && tree.x in mem && tree.x.right == Root(tree.r) && TreeIn(mem, tree.r)
    {
    }

    method SetLeft(n: Node, v: Node?)
      requires Synced() && n in mem
      modifies this`mem, n`left
      ensures Synced() && mem == old(mem)[n := old(mem)[n].(left := v)]
    {
      n.left := v;
      mem := mem[n := mem[n].(left := v)];
    }

    method SetRight(n: Node, v: Node?)
      requires Synced() && n in mem
      modifies this`mem, n`right
      ensures Synced() && mem == old(mem)[n := old(mem)[n].(right := v)]
    {
      n.right := v;
      mem := mem[n := mem[n].(right := v)];
    }

    lemma MidOrd(ls: Side, t: Tree, rs: Side, d: Node)
      requires Mid(ls, t, rs, d)
      ensures LOrd(ls, lo) && ROrd(rs, hi) && Ord(t, Floor(ls, lo), Ceiling(rs, hi))
    {
    }

    /** A splay begins with the whole tree in the middle and a blank dummy node. */
    ghost method Begin(node: Node)
      requires Valid() && node !in mem && node.left == null && node.right == null
      modifies this`mem
      ensures Mid(Empty, tree, Empty, node) && mem.Keys == old(mem.Keys) + {node}
    {
      KeepTree(mem, node, Cell(null, null), tree, lo, hi);
      mem := mem[node := Cell(null, null)];
    }

    /** The records are limited to those of one tree. */
    ghost method Limit(t: Tree)
      requires Synced() && TreeIn(mem, t) && Nodes(t) <= mem.Keys
      modifies this`mem, this`tree
      ensures Synced() && tree == t && TreeIn(mem, t) && mem.Keys == Nodes(t)
      ensures mem == map n | n in Nodes(t) && n in old(mem) :: old(mem)[n]
    {
      var w: Memory := map n | n in Nodes(t) && n in mem :: mem[n];
      SameTree(mem, w, t);
      mem, tree := w, t;
    }

    /** From now on `n` is recorded, with whatever links it holds. */
    ghost method Record(n: Node)
      requires Synced()
      modifies this`mem
      ensures Synced() && mem == old(mem)[n := Cell(n.left, n.right)]
    {
      mem := mem[n := Cell(n.left, n.right)];
    }

    /** The key bounds are widened to admit `key`. */
    ghost method Admit(key: int)
      requires Valid()
      modifies this`lo, this`hi
      ensures Valid() && lo < key < hi
    {
      var a := if lo < key then lo else key - 1;
      var b := if key < hi then hi else key + 1;
      OrdWiden(tree, lo, hi, a, b);
      lo, hi := a, b;
    }

    /** What the loop reads. */
    lemma MidFacts(ls: Side, t: Tree, rs: Side, d: Node)
      requires Mid(ls, t, rs, d)
      ensures root == Root(t) && d in mem
      ensures t.Bin? ==> t.x in mem && t.x.left == Root(t.l) && t.x.right == Root(t.r)
      ensures t.Bin? && t.l.Bin? ==> t.l.x in mem && t.l.x.right == Root(t.l.r) && t.l.x.left == Root(t.l.l)
      ensures t.Bin? && t.r.Bin? ==> t.r.x in mem && t.r.x.left == Root(t.r.l) && t.r.x.right == Root(t.r.r)
      ensures Tail(ls, d) in mem && Tail(rs, d) in mem
    {
      assert t.Bin? ==> TreeIn(mem, t.l) && TreeIn(mem, t.r);
    }

    /** SPLAY_ROTATE_RIGHT */
    method TurnRight(tmp: Node)
      requires Synced() && root in mem && tmp in mem && tmp != root
      modifies this`root, this`mem, mem.Keys
      ensures Synced() && mem == RotatedRight(old(mem), old(root), tmp) && root == tmp
    {
      SetLeft(root, tmp.right);
      SetRight(tmp, root);
      root := tmp;
    }

    /** The same, seen between two steps of a splay. */
    method RotateRight(tmp: Node, ghost ls: Side, ghost t: Tree, ghost rs: Side, ghost d: Node) returns (ghost u: Tree)
      requires Mid(ls, t, rs, d) && t.Bin? && t.l.Bin? && t.l.x == tmp
      modifies this`root, this`mem, mem.Keys
      ensures u == Bin(t.l.l, tmp, Bin(t.l.r, t.x, t.r)) && Mid(ls, u, rs, d) && mem.Keys == old(mem.Keys)
    {
      MidFacts(ls, t, rs, d);
      RotateRightIn(mem, ls, t.l.l, tmp, t.l.r, t.x, t.r, rs, d, lo, hi);
      hide Splitting, TreeIn;
      TurnRight(tmp);
      u := Bin(t.l.l, tmp, Bin(t.l.r, t.x, t.r));
    }

    /** SPLAY_ROTATE_LEFT */
    method TurnLeft(tmp: Node)
      requires Synced() && root in mem && tmp in mem && tmp != root
      modifies this`root, this`mem, mem.Keys
      ensures Synced() && mem == RotatedLeft(old(mem), old(root), tmp) && root == tmp
    {
      SetRight(root, tmp.left);
      SetLeft(tmp, root);
      root := tmp;
    }

    /** The same, seen between two steps of a splay. */
    method RotateLeft(tmp: Node, ghost ls: Side, ghost t: Tree, ghost rs: Side, ghost d: Node) returns (ghost u: Tree)
      requires Mid(ls, t, rs, d) && t.Bin? && t.r.Bin? && t.r.x == tmp
      modifies this`root, this`mem, mem.Keys
      ensures u == Bin(Bin(t.l, t.x, t.r.l), tmp, t.r.r) && Mid(ls, u, rs, d) && mem.Keys == old(mem.Keys)
    {
      MidFacts(ls, t, rs, d);
      RotateLeftIn(mem, ls, t.l, t.x, t.r.l, tmp, t.r.r, rs, d, lo, hi);
      hide Splitting, TreeIn;
      TurnLeft(tmp);
      u := Bin(Bin(t.l, t.x, t.r.l), tmp, t.r.r);
    }

    /** SPLAY_LINKLEFT; the result is the new end of the right side tree. */
    method LinkLeft(right: Node, ghost ls: Side, ghost t: Tree, ghost rs: Side, ghost d: Node)
      returns (tail: Node, ghost rs': Side)
      requires Mid(ls, t, rs, d) && t.Bin? && right == Tail(rs, d)
      modifies this`root, this`mem, mem.Keys
      ensures rs' == Hung(rs, t.r, t.x) && tail == Tail(rs', d) && Mid(ls, t.l, rs', d) && mem.Keys == old(mem.Keys)
    {
      MidFacts(ls, t, rs, d);
      LinkLeftIn(mem, ls, t, rs, d, lo, hi);
      hide Splitting;
      SetLeft(right, root);
      tail := root;
      root := root.left;
      rs' := Hung(rs, t.r, t.x);
    }

    /** SPLAY_LINKRIGHT */
    method LinkRight(left: Node, ghost ls: Side, ghost t: Tree, ghost rs: Side, ghost d: Node)
      returns (tail: Node, ghost ls': Side)
      requires Mid(ls, t, rs, d) && t.Bin? && left == Tail(ls, d)
      modifies this`root, this`mem, mem.Keys
      ensures ls' == Hung(ls, t.l, t.x) && tail == Tail(ls', d) && Mid(ls', t.r, rs, d) && mem.Keys == old(mem.Keys)
    {
      MidFacts(ls, t, rs, d);
      LinkRightIn(mem, ls, t, rs, d, lo, hi);
      hide Splitting;
      SetRight(left, root);
      tail := root;
      root := root.right;
      ls' := Hung(ls, t.l, t.x);
    }

    /** SPLAY_ASSEMBLE */
    method AssembleLinks(node: Node, left: Node, right: Node)
      requires Synced() && root in mem && node in mem && left in mem && right in mem
      requires root != node && root != left && root != right
      modifies this`mem, mem.Keys
      ensures Synced() && mem == Assembled(old(mem), root, left, right, node)
    {
      SetRight(left, root.left);
      SetLeft(right, root.right);
      SetLeft(root, node.right);
      SetRight(root, node.left);
    }

    ghost method Drop(n: Node)
      requires Synced()
      modifies this`mem
      ensures Synced() && mem == old(mem) - {n}
    {
      mem := mem - {n};
    }

    /** SPLAY_ASSEMBLE, after which the dummy node is out of use. */
    method Assemble(node: Node, left: Node, right: Node, ghost ls: Side, ghost t: Tree, ghost rs: Side)
      requires Mid(ls, t, rs, node) && t.Bin? && left == Tail(ls, node) && right == Tail(rs, node)
      modifies this`mem, this`tree, mem.Keys
      ensures Synced() && tree == Whole(ls, t, rs) && Ord(tree, lo, hi) && TreeIn(mem, tree) && root == Root(tree)
      ensures mem.Keys == old(mem.Keys) - {node}
    {
      MidFacts(ls, t, rs, node);
      AssembledTree(mem, ls, t, rs, node, lo, hi);
      hide Splitting, TreeIn, InOrder, Ord, Nodes, LSeq, RSeq, LFill, RFill, Assembled;
      AssembleLinks(node, left, right);
      tree := Whole(ls, t, rs);
      Drop(node);
    }
  }
}
