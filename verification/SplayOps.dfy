/** The operations of the splay tree of tree.h. */
module SplayOps {
  import opened Elements
  import opened SplayShape
  import opened SplayDepth
  import opened SplayTree

  /** The elements left of the open place are below `key`, those right of it above. */
  ghost predicate Apart(ls: Side, rs: Side, key: int) {
    (forall n :: n in LSeq(ls) ==> n.key < key) && (forall n :: n in RSeq(rs) ==> key < n.key)
  }

  /** Where the loop of a splay may stop. */
  predicate Stopped(t: Tree, key: int) {
    t.Bin? && (t.x.key == key || (key < t.x.key && t.l.Leaf?) || (t.x.key < key && t.r.Leaf?))
  }

  ghost function Seen(ls: Side, t: Tree, rs: Side): seq<Node> {
    LSeq(ls) + InOrder(t) + RSeq(rs)
  }

  /** Rotating right keeps the sequence. */
  lemma {:induction false} RotateSeen(ls: Side, a: Tree, y: Node, b: Tree, x: Node, c: Tree, rs: Side)
    ensures Seen(ls, Bin(Bin(a, y, b), x, c), rs) == Seen(ls, Bin(a, y, Bin(b, x, c)), rs)
  {
    assert InOrder(Bin(a, y, b)) == InOrder(a) + [y] + InOrder(b);
    assert InOrder(Bin(b, x, c)) == InOrder(b) + [x] + InOrder(c);
    assert InOrder(a) + [y] + InOrder(b) + [x] + InOrder(c) == InOrder(a) + [y] + (InOrder(b) + [x] + InOrder(c));
  }

  /** Linking left moves elements above the key to the right side tree. */
  lemma {:induction false} LinkLeftSeen(ls: Side, t: Tree, rs: Side, key: int, lo: int, hi: int)
    requires t.Bin? && key < t.x.key && Ord(t, lo, hi) && Apart(ls, rs, key)
    ensures Seen(ls, t, rs) == Seen(ls, t.l, Hung(rs, t.r, t.x))
    ensures Apart(ls, Hung(rs, t.r, t.x), key)
  {
    Regroup(LSeq(ls), InOrder(t.l), [t.x], InOrder(t.r), RSeq(rs));
    OrdSorted(t.r, t.x.key, hi);
  }

  lemma {:induction false} LinkRightSeen(ls: Side, t: Tree, rs: Side, key: int, lo: int, hi: int)
    requires t.Bin? && t.x.key < key && Ord(t, lo, hi) && Apart(ls, rs, key)
    ensures Seen(ls, t, rs) == Seen(Hung(ls, t.l, t.x), t.r, rs)
    ensures Apart(Hung(ls, t.l, t.x), rs, key)
  {
    Regroup(LSeq(ls), InOrder(t.l), [t.x], InOrder(t.r), RSeq(rs));
    OrdSorted(t.l, lo, t.x.key);
  }

  /** The assembled tree has the searched place at its root. */
  lemma {:induction false} AssembledNearest(ls: Side, t: Tree, rs: Side, key: int, lo: int, hi: int)
    requires LOrd(ls, lo) && ROrd(rs, hi) && Ord(t, Floor(ls, lo), Ceiling(rs, hi))
    requires Apart(ls, rs, key) && Stopped(t, key)
    ensures Nearest(Whole(ls, t, rs), key) && InOrder(Whole(ls, t, rs)) == Seen(ls, t, rs)
  {
    WholeOrder(ls, t, rs, lo, hi);
    FloorAbove(ls, lo);
    CeilingBelow(rs, hi);
    LFillIs(ls, t.l, lo, t.x.key);
    RFillIs(rs, t.r, t.x.key, hi);
    OrdSorted(t.l, Floor(ls, lo), t.x.key);
    OrdSorted(t.r, t.x.key, Ceiling(rs, hi));
  }

  /** The loop stops with the searched place at the root of the middle tree. */
  lemma {:induction false} StopsHere(t0: Tree, key: int, ls: Side, t: Tree, rs: Side, done: seq<Node>)
    requires Lifted(t0, key, ls, t, rs, done) && Stopped(t, key)
    ensures Raised(t0, key, Whole(ls, t, rs))
  {
    assert Path(t, key) == [t.x] + [];
    StopsThere(t0, key, ls, t, rs, done);
  }

  /** One turn of the loop when the key is below the root; `stop` tells that it is left by `break`.
      With the rotation of two links in one direction, the side trees grow by one node for two nodes
      of the path `done + ...`, or for one node and a turn to the other side. */
  method DownLeft(head: SplayHead, elm: Node, node: Node, right: Node, ghost ls: Side, ghost t: Tree, ghost rs: Side,
                  ghost t0: Tree, ghost done: seq<Node>)
    returns (stop: bool, tail: Node, ghost t': Tree, ghost rs': Side, ghost done': seq<Node>)
    requires head.Mid(ls, t, rs, node) && t.Bin? && right == Tail(rs, node)
    requires Apart(ls, rs, elm.key) && elm.key < t.x.key
    requires Lifted(t0, elm.key, ls, t, rs, done)
    modifies head`root, head`mem, head.mem.Keys
    ensures head.mem.Keys == old(head.mem.Keys)
    ensures head.Mid(ls, t', rs', node) && tail == Tail(rs', node)
    ensures Apart(ls, rs', elm.key) && Seen(ls, t', rs') == Seen(ls, t, rs)
    ensures if stop then Stopped(t', elm.key) else t'.Bin? && (t' == t.l || (t.l.Bin? && t' == t.l.l))
    ensures if stop then Raised(t0, elm.key, Whole(ls, t', rs')) else Lifted(t0, elm.key, ls, t', rs', done')
  {
    hide SplayHead.Mid, InOrder, Ord, LOrd, ROrd, Apart, Seen, Lifted, Raised, Whole;
    head.MidFacts(ls, t, rs, node);
    tail, t', rs', done' := right, t, rs, done;
    var tmp := head.root.left;
    if tmp == null {
      StopsHere(t0, elm.key, ls, t, rs, done);
      return true, right, t, rs, done;
    }
    if Cmp(elm, tmp) < 0 {
      RotateSeen(ls, t.l.l, tmp, t.l.r, t.x, t.r, rs);
      t' := head.RotateRight(tmp, ls, t, rs, node);
      head.MidFacts(ls, t', rs, node);
      if head.root.left == null {
        StopsLeft(t0, elm.key, ls, t, rs, done);
        return true, right, t', rs, done;
      }
      ZigZigLeft(t0, elm.key, ls, t, rs, done);
      done' := done + [t.x, tmp];
    } else {
      ZigLeft(t0, elm.key, ls, t, rs, done);
      done' := done + [t.x];
    }
    head.MidOrd(ls, t', rs, node);
    LinkLeftSeen(ls, t', rs, elm.key, Floor(ls, head.lo), Ceiling(rs, head.hi));
    tail, rs' := head.LinkLeft(right, ls, t', rs, node);
    t' := t'.l;
    stop := false;
  }

  method DownRight(head: SplayHead, elm: Node, node: Node, left: Node, ghost ls: Side, ghost t: Tree, ghost rs: Side,
                   ghost t0: Tree, ghost done: seq<Node>)
    returns (stop: bool, tail: Node, ghost ls': Side, ghost t': Tree, ghost done': seq<Node>)
    requires head.Mid(ls, t, rs, node) && t.Bin? && left == Tail(ls, node)
    requires Apart(ls, rs, elm.key) && t.x.key < elm.key
    requires Lifted(t0, elm.key, ls, t, rs, done)
    modifies head`root, head`mem, head.mem.Keys
    ensures head.mem.Keys == old(head.mem.Keys)
    ensures head.Mid(ls', t', rs, node) && tail == Tail(ls', node)
    ensures Apart(ls', rs, elm.key) && Seen(ls', t', rs) == Seen(ls, t, rs)
    ensures if stop then Stopped(t', elm.key) else t'.Bin? && (t' == t.r || (t.r.Bin? && t' == t.r.r))
    ensures if stop then Raised(t0, elm.key, Whole(ls', t', rs)) else Lifted(t0, elm.key, ls', t', rs, done')
  {
    hide SplayHead.Mid, InOrder, Ord, LOrd, ROrd, Apart, Seen, Lifted, Raised, Whole;
    head.MidFacts(ls, t, rs, node);
    tail, ls', t', done' := left, ls, t, done;
    var tmp := head.root.right;
    if tmp == null {
      StopsHere(t0, elm.key, ls, t, rs, done);
      return true, left, ls, t, done;
    }
    if Cmp(elm, tmp) > 0 {
      RotateSeen(ls, t.l, t.x, t.r.l, tmp, t.r.r, rs);
      t' := head.RotateLeft(tmp, ls, t, rs, node);
      head.MidFacts(ls, t', rs, node);
      if head.root.right == null {
        StopsRight(t0, elm.key, ls, t, rs, done);
        return true, left, ls, t', done;
      }
      ZigZigRight(t0, elm.key, ls, t, rs, done);
      done' := done + [t.x, tmp];
    } else {
      ZigRight(t0, elm.key, ls, t, rs, done);
      done' := done + [t.x];
    }
    head.MidOrd(ls, t', rs, node);
    LinkRightSeen(ls, t', rs, elm.key, Floor(ls, head.lo), Ceiling(rs, head.hi));
    tail, ls' := head.LinkRight(left, ls, t', rs, node);
    t' := t'.r;
    stop := false;
  }

  /** SPLAY: the tree is turned until the searched place is at the root; no element is lost, and
      every node of the search path rises to half its depth, up to two levels. */
  method Splay(head: SplayHead, elm: Node)
    requires head.Valid() && head.tree.Bin?
    modifies head`root, head`mem, head`tree, head.mem.Keys
    ensures head.Valid() && head.mem.Keys == old(head.mem.Keys)
    ensures InOrder(head.tree) == old(InOrder(head.tree)) && Nearest(head.tree, elm.key)
    ensures Halved(old(head.tree), elm.key, head.tree)
  {
    hide SplayHead.Valid, SplayHead.Mid, InOrder, Ord, Apart, Seen, Nearest, Lifted, Raised, Halved, Whole, Nodes;
    head.MembersOf();
    var node := new Node(0);
    node.left, node.right := null, null;
    ghost var members, t0 := head.mem.Keys, head.tree;
    ghost var ls, t, rs, done := Empty, t0, Empty, [];
    head.Begin(node);
    SeenAtFirst(t, elm.key);
    LiftedAtFirst(t, elm.key);
    head.MidFacts(ls, t, rs, node);
    var left, right := node, node;
    var stop := false;
    while Cmp(elm, head.root) != 0
      invariant head.Mid(ls, t, rs, node) && t.Bin? && head.root == t.x
      invariant left == Tail(ls, node) && right == Tail(rs, node)
      invariant Apart(ls, rs, elm.key) && Seen(ls, t, rs) == old(InOrder(head.tree))
      invariant !stop && Lifted(t0, elm.key, ls, t, rs, done)
      invariant head.mem.Keys == members + {node}
      decreases t
    {
      if Cmp(elm, head.root) < 0 {
        stop, right, t, rs, done := DownLeft(head, elm, node, right, ls, t, rs, t0, done);
      } else {
        stop, left, ls, t, done := DownRight(head, elm, node, left, ls, t, rs, t0, done);
      }
      if stop {
        break;
      }
      head.MidFacts(ls, t, rs, node);
    }
    if !stop {
      StopsHere(t0, elm.key, ls, t, rs, done);
    }
    Finish(head, node, left, right, ls, t, rs, elm.key, members, t0);
  }

  lemma {:induction false} SeenAtFirst(t: Tree, key: int)
    ensures Apart(Empty, Empty, key) && Seen(Empty, t, Empty) == InOrder(t)
  {
  }

  /** The closing SPLAY_ASSEMBLE. */
  method Finish(head: SplayHead, node: Node, left: Node, right: Node, ghost ls: Side, ghost t: Tree, ghost rs: Side,
                ghost key: int, ghost members: set<Node>, ghost t0: Tree)
    requires head.Mid(ls, t, rs, node) && left == Tail(ls, node) && right == Tail(rs, node)
    requires Apart(ls, rs, key) && Stopped(t, key)
    requires head.lo < head.hi && node !in members && head.mem.Keys == members + {node}
    requires Members(Seen(ls, t, rs)) == members
    requires Raised(t0, key, Whole(ls, t, rs)) && Ord(t0, head.lo, head.hi)
    modifies head`mem, head`tree, head.mem.Keys
    ensures head.Valid() && head.mem.Keys == members
    ensures InOrder(head.tree) == Seen(ls, t, rs) && Nearest(head.tree, key) && Halved(t0, key, head.tree)
  {
    hide SplayHead.Mid, InOrder, Ord, LOrd, ROrd, Apart, TreeIn, Raised, Halved;
    head.MidOrd(ls, t, rs, node);
    AssembledNearest(ls, t, rs, key, head.lo, head.hi);
    head.Assemble(node, left, right, ls, t, rs);
    InOrderNodes(head.tree);
    RaisedHalves(t0, key, head.tree, head.lo, head.hi);
  }

  // ---- SPLAY_MINMAX ----

  /** One turn of the loop towards the smallest element: always a rotation before the link. */
  method AllLeft(head: SplayHead, node: Node, right: Node, ghost t: Tree, ghost rs: Side,
                 ghost t0: Tree, ghost done: seq<Node>)
    returns (stop: bool, tail: Node, ghost t': Tree, ghost rs': Side, ghost done': seq<Node>)
    requires head.Mid(Empty, t, rs, node) && t.Bin? && right == Tail(rs, node) && Apart(Empty, rs, head.lo)
    requires Lifted(t0, head.lo, Empty, t, rs, done)
    modifies head`root, head`mem, head.mem.Keys
    ensures head.mem.Keys == old(head.mem.Keys)
    ensures head.Mid(Empty, t', rs', node) && tail == Tail(rs', node)
    ensures Apart(Empty, rs', head.lo) && Seen(Empty, t', rs') == Seen(Empty, t, rs)
    ensures t'.Bin? && if stop then Stopped(t', head.lo) else t.l.Bin? && t' == t.l.l
    ensures if stop then Raised(t0, head.lo, Whole(Empty, t', rs')) else Lifted(t0, head.lo, Empty, t', rs', done')
  {
    hide SplayHead.Mid, InOrder, LOrd, ROrd, Apart, Seen, Lifted, Raised, Whole;
    head.MidFacts(Empty, t, rs, node);
    head.MidOrd(Empty, t, rs, node);
    tail, t', rs', done' := right, t, rs, done;
    var tmp := head.root.left;
    if tmp == null {
      StopsHere(t0, head.lo, Empty, t, rs, done);
      return true, right, t, rs, done;
    }
    RotateSeen(Empty, t.l.l, tmp, t.l.r, t.x, t.r, rs);
    t' := head.RotateRight(tmp, Empty, t, rs, node);
    head.MidFacts(Empty, t', rs, node);
    head.MidOrd(Empty, t', rs, node);
    if head.root.left == null {
      StopsLeft(t0, head.lo, Empty, t, rs, done);
      return true, right, t', rs, done;
    }
    ZigZigLeft(t0, head.lo, Empty, t, rs, done);
    LinkLeftSeen(Empty, t', rs, head.lo, Floor(Empty, head.lo), Ceiling(rs, head.hi));
    tail, rs' := head.LinkLeft(right, Empty, t', rs, node);
    t', done' := t'.l, done + [t.x, tmp];
    stop := false;
  }

  method AllRight(head: SplayHead, node: Node, left: Node, ghost ls: Side, ghost t: Tree,
                  ghost t0: Tree, ghost done: seq<Node>)
    returns (stop: bool, tail: Node, ghost ls': Side, ghost t': Tree, ghost done': seq<Node>)
    requires head.Mid(ls, t, Empty, node) && t.Bin? && left == Tail(ls, node) && Apart(ls, Empty, head.hi)
    requires Lifted(t0, head.hi, ls, t, Empty, done)
    modifies head`root, head`mem, head.mem.Keys
    ensures head.mem.Keys == old(head.mem.Keys)
    ensures head.Mid(ls', t', Empty, node) && tail == Tail(ls', node)
    ensures Apart(ls', Empty, head.hi) && Seen(ls', t', Empty) == Seen(ls, t, Empty)
    ensures t'.Bin? && if stop then Stopped(t', head.hi) else t.r.Bin? && t' == t.r.r
    ensures if stop then Raised(t0, head.hi, Whole(ls', t', Empty)) else Lifted(t0, head.hi, ls', t', Empty, done')
  {
    hide SplayHead.Mid, InOrder, LOrd, ROrd, Apart, Seen, Lifted, Raised, Whole;
    head.MidFacts(ls, t, Empty, node);
    head.MidOrd(ls, t, Empty, node);
    tail, ls', t', done' := left, ls, t, done;
    var tmp := head.root.right;
    if tmp == null {
      StopsHere(t0, head.hi, ls, t, Empty, done);
      return true, left, ls, t, done;
    }
    RotateSeen(ls, t.l, t.x, t.r.l, tmp, t.r.r, Empty);
    t' := head.RotateLeft(tmp, ls, t, Empty, node);
    head.MidFacts(ls, t', Empty, node);
    head.MidOrd(ls, t', Empty, node);
    if head.root.right == null {
      StopsRight(t0, head.hi, ls, t, Empty, done);
      return true, left, ls, t', done;
    }
    ZigZigRight(t0, head.hi, ls, t, Empty, done);
    LinkRightSeen(ls, t', Empty, head.hi, Floor(ls, head.lo), Ceiling(Empty, head.hi));
    tail, ls' := head.LinkRight(left, ls, t', Empty, node);
    t', done' := t'.r, done + [t.x, tmp];
    stop := false;
  }

  /** SPLAY_MINMAX on a non-empty tree; with `comp` 0 the source would not leave its loop. The bounds
      `lo` and `hi` lie beyond every key, so a search for them follows one spine to its end. */
  method SplayMinMax(head: SplayHead, comp: int)
    requires head.Valid() && head.tree.Bin? && comp != 0
    modifies head`root, head`mem, head`tree, head.mem.Keys
    ensures head.Valid() && head.mem.Keys == old(head.mem.Keys)
    ensures InOrder(head.tree) == old(InOrder(head.tree)) && head.tree.Bin?
    ensures if comp < 0 then head.tree.l.Leaf? else head.tree.r.Leaf?
    ensures Halved(old(head.tree), if comp < 0 then head.lo else head.hi, head.tree)
  {
    hide SplayHead.Valid, SplayHead.Mid, InOrder, Ord, Apart, Seen, Nearest, Lifted, Raised, Halved, Whole, Nodes;
    head.MembersOf();
    var node := new Node(0);
    node.left, node.right := null, null;
    ghost var members, t0 := head.mem.Keys, head.tree;
    ghost var key := if comp < 0 then head.lo else head.hi;
    ghost var ls, t, rs, done := Empty, t0, Empty, [];
    head.Begin(node);
    SeenAtFirst(t, key);
    LiftedAtFirst(t, key);
    head.MidFacts(ls, t, rs, node);
    var left, right := node, node;
    while true
      invariant head.Mid(ls, t, rs, node) && t.Bin?
      invariant left == Tail(ls, node) && right == Tail(rs, node)
      invariant if comp < 0 then ls.Empty? else rs.Empty?
      invariant Apart(ls, rs, key) && Seen(ls, t, rs) == old(InOrder(head.tree))
      invariant Lifted(t0, key, ls, t, rs, done)
      invariant head.mem.Keys == members + {node}
      decreases t
    {
      var stop;
      if comp < 0 {
        stop, right, t, rs, done := AllLeft(head, node, right, t, rs, t0, done);
      } else {
        stop, left, ls, t, done := AllRight(head, node, left, ls, t, t0, done);
      }
      if stop {
        break;
      }
    }
    Finish(head, node, left, right, ls, t, rs, key, members, t0);
    head.MembersOf();
    AtTheEnd(head.tree, head.lo, head.hi, comp);
  }

  lemma {:induction false} AtTheEnd(t: Tree, lo: int, hi: int, comp: int)
    requires Ord(t, lo, hi) && Nearest(t, if comp < 0 then lo else hi)
    ensures t.Bin? && if comp < 0 then t.l.Leaf? else t.r.Leaf?
  {
    OrdSorted(t.l, lo, t.x.key);
    OrdSorted(t.r, t.x.key, hi);
    assert t.l.Bin? ==> t.l.x in InOrder(t.l);
    assert t.r.Bin? ==> t.r.x in InOrder(t.r);
  }

  /** SPLAY_MIN and SPLAY_MAX: the element at that end, which is also brought to the root. */
  method MinMax(head: SplayHead, val: int) returns (r: Node?)
    requires head.Valid() && val != 0
    modifies head`root, head`mem, head`tree, head.mem.Keys
    ensures head.Valid() && head.mem.Keys == old(head.mem.Keys)
    ensures InOrder(head.tree) == old(InOrder(head.tree)) && r == head.root
    ensures Halved(old(head.tree), if val < 0 then head.lo else head.hi, head.tree)
    ensures var s := InOrder(head.tree); r == if s == [] then null else if val < 0 then s[0] else s[|s| - 1]
  {
    if head.root == null {
      return null;
    }
    SplayMinMax(head, val);
    r := head.root;
    assert InOrder(Leaf) == [];
  }

  // ---- SPLAY_FIND and SPLAY_NEXT ----

  /** SPLAY_FIND: the element with an equal key, now at the root, or null. */
  method Find(head: SplayHead, elm: Node) returns (r: Node?)
    requires head.Valid()
    modifies head`root, head`mem, head`tree, head.mem.Keys
    ensures head.Valid() && head.mem.Keys == old(head.mem.Keys)
    ensures InOrder(head.tree) == old(InOrder(head.tree))
    ensures r != null ==> r in InOrder(head.tree) && r.key == elm.key && r == head.root
    ensures r == null ==> forall n :: n in InOrder(head.tree) ==> n.key != elm.key
    ensures Halved(old(head.tree), elm.key, head.tree)
  {
    if head.root == null {
      return null;
    }
    Splay(head, elm);
    assert head.tree.x in InOrder(head.tree);
    if Cmp(elm, head.root) == 0 {
      return head.root;
    }
    r := null;
  }

  /** The walk to the leftmost node below `n`. */
  method Leftmost(head: SplayHead, n: Node, ghost t0: Tree) returns (elm: Node)
    requires head.Synced() && TreeIn(head.mem, t0) && t0.Bin? && t0.x == n
    ensures InOrder(t0) != [] && elm == InOrder(t0)[0]
  {
    elm := n;
    ghost var t := t0;
    while elm.left != null
      invariant t.Bin? && t.x == elm && TreeIn(head.mem, t) && elm.left == Root(t.l)
      invariant InOrder(t) <= InOrder(t0)
      decreases t
    {
      Prefix(t);
      elm := elm.left;
      t := t.l;
    }
    assert InOrder(Leaf) == [] && InOrder(t)[0] == elm;
  }

  /** SPLAY_NEXT of a member. */
  method Next(head: SplayHead, n: Node) returns (elm: Node?)
    requires head.Valid() && n in Nodes(head.tree)
    modifies head`root, head`mem, head`tree, head.mem.Keys
    ensures head.Valid() && head.mem.Keys == old(head.mem.Keys)
    ensures InOrder(head.tree) == old(InOrder(head.tree))
    ensures IsNext(InOrder(head.tree), n, elm)
  {
    assert head.tree.Bin?;
    hide InOrder, Nodes, Sorted, IsNext, Nearest, SplayHead.Valid;
    head.Ordered();
    Splay(head, n);
    head.Ordered();
    AtRoot(head.tree, n);
    elm := RightHead(head, n);
  }

  /** SPLAY_NEXT once the member is at the root. */
  method RightHead(head: SplayHead, n: Node) returns (elm: Node?)
    requires head.Valid() && head.tree.Bin? && head.tree.x == n
    ensures IsNext(InOrder(head.tree), n, elm)
  {
    hide InOrder, IsNext, TreeIn, SplayHead.Valid;
    head.RootFacts();
    RootNext(head.tree);
    elm := n;
    if elm.right != null {
      elm := Leftmost(head, elm.right, head.tree.r);
    } else {
      elm := null;
    }
  }

  /** The successor of the root is the head of its right part. */
  lemma {:induction false} RootNext(t: Tree)
    requires t.Bin?
    ensures IsNext(InOrder(t), t.x, if InOrder(t.r) == [] then null else InOrder(t.r)[0])
    ensures t.r.Leaf? ==> InOrder(t.r) == []
  {
    AfterEnd(InOrder(t.l), t.x, InOrder(t.r));
  }

  lemma {:induction false} Prefix(t: Tree)
    requires t.Bin?
    ensures InOrder(t.l) <= InOrder(t)
  {
  }

  /** A member that was searched for is the root itself. */
  lemma {:induction false} AtRoot(t: Tree, n: Node)
    requires n in InOrder(t) && Nearest(t, n.key) && Sorted(InOrder(t))
    ensures t.Bin? && t.x == n
  {
  }

  /** SPLAY_FOREACH: every element once, in increasing order, while the tree keeps turning. */
  method Foreach(head: SplayHead) returns (visited: seq<Node>)
    requires head.Valid()
    modifies head, head.mem.Keys
    ensures head.Valid() && visited == old(InOrder(head.tree)) && InOrder(head.tree) == old(InOrder(head.tree))
  {
    hide InOrder, Nodes, TreeIn, Ord, IsNext, Sorted, SplayHead.Valid;
    ghost var s := InOrder(head.tree);
    var x := MinMax(head, -1);
    visited := [];
    while x != null
      invariant head.Valid() && head.mem.Keys == old(head.mem.Keys) && InOrder(head.tree) == s
      invariant |visited| <= |s| && visited == s[..|visited|]
      invariant x == if |visited| < |s| then s[|visited|] else null
      decreases |s| - |visited|
    {
      ghost var i := |visited|;
      head.Ordered();
      assert s[i] in s;
      var y := Next(head, x);
      NextAt(s, i, y);
      visited := visited + [x];
      x := y;
    }
  }

  // ---- SPLAY_INSERT ----

  /** SPLAY_INSERT: an equal element is returned and stays the only one; otherwise `elm` joins, as
      the new root. */
  method Insert(head: SplayHead, elm: Node) returns (r: Node?)
    requires head.Valid()
    modifies head, elm, head.mem.Keys
    ensures head.Valid()
    ensures r != null ==> r in old(InOrder(head.tree)) && r.key == elm.key && r == head.root
    ensures r != null ==> InOrder(head.tree) == old(InOrder(head.tree)) && head.mem.Keys == old(head.mem.Keys)
    ensures r == null ==> forall n :: n in old(InOrder(head.tree)) ==> n.key != elm.key
    ensures r == null ==> Without(InOrder(head.tree), elm, old(InOrder(head.tree))) && head.root == elm
    ensures r == null ==> head.mem.Keys == old(head.mem.Keys) + {elm}
  {
    head.Admit(elm.key);
    if head.root == null {
      elm.left, elm.right := null, null;
      head.Record(elm);
      head.tree := Bin(Leaf, elm, Leaf);
      assert InOrder(Leaf) == [] && InOrder(head.tree) == [elm] && [elm][..0] + [elm][1..] == [];
      assert InOrder(head.tree)[0] == elm;
    } else {
      Splay(head, elm);
      head.Ordered();
      var comp := Cmp(elm, head.root);
      if comp == 0 {
        return head.root;
      }
      PutAtRoot(head, elm, comp);
    }
    head.root := elm;
    r := null;
  }

  /** The branch of SPLAY_INSERT for a key below the root's. */
  method PutBelow(head: SplayHead, elm: Node)
    requires head.Valid() && head.tree.Bin? && elm !in Nodes(head.tree)
    requires head.lo < elm.key < head.root.key && Ord(head.tree.l, head.lo, elm.key)
    modifies head`mem, head`tree, elm, head.mem.Keys
    ensures head.Synced() && TreeIn(head.mem, head.tree) && Ord(head.tree, head.lo, head.hi)
    ensures var t := old(head.tree); head.tree == Bin(t.l, elm, Bin(Leaf, t.x, t.r))
    ensures head.mem.Keys == old(head.mem.Keys) + {elm}
  {
    ghost var t := head.tree;
    InsertBelowIn(head.mem, t, elm, head.lo, head.hi);
    hide TreeIn, Ord, Nodes;
    elm.left := head.root.left;
    elm.right := head.root;
    head.Record(elm);
    head.SetLeft(head.root, null);
    head.tree := Bin(t.l, elm, Bin(Leaf, t.x, t.r));
  }

  /** The branch for a key above it. */
  method PutAbove(head: SplayHead, elm: Node)
    requires head.Valid() && head.tree.Bin? && elm !in Nodes(head.tree)
    requires head.root.key < elm.key < head.hi && Ord(head.tree.r, elm.key, head.hi)
    modifies head`mem, head`tree, elm, head.mem.Keys
    ensures head.Synced() && TreeIn(head.mem, head.tree) && Ord(head.tree, head.lo, head.hi)
    ensures var t := old(head.tree); head.tree == Bin(Bin(t.l, t.x, Leaf), elm, t.r)
    ensures head.mem.Keys == old(head.mem.Keys) + {elm}
  {
    ghost var t := head.tree;
    InsertAboveIn(head.mem, t, elm, head.lo, head.hi);
    hide TreeIn, Ord, Nodes;
    elm.right := head.root.right;
    elm.left := head.root;
    head.Record(elm);
    head.SetRight(head.root, null);
    head.tree := Bin(Bin(t.l, t.x, Leaf), elm, t.r);
  }

  method PutAtRoot(head: SplayHead, elm: Node, comp: int)
    requires head.Valid() && Nearest(head.tree, elm.key) && head.lo < elm.key < head.hi
    requires comp == Cmp(elm, head.root) && comp != 0
    modifies head`mem, head`tree, elm, head.mem.Keys
    ensures head.Synced() && TreeIn(head.mem, head.tree) && Ord(head.tree, head.lo, head.hi)
    ensures head.mem.Keys == old(head.mem.Keys) + {elm} == Nodes(head.tree) && Root(head.tree) == elm
    ensures forall n :: n in old(InOrder(head.tree)) ==> n.key != elm.key
    ensures Without(InOrder(head.tree), elm, old(InOrder(head.tree)))
  {
    ghost var t := head.tree;
    NotMember(t, elm);
    if comp < 0 {
      NarrowAbove(t.l, head.lo, t.x.key, elm.key);
    } else {
      NarrowBelow(t.r, t.x.key, head.hi, elm.key);
    }
    hide TreeIn, Ord, Nodes, InOrder, Nearest;
    if comp < 0 {
      PutBelow(head, elm);
    } else {
      PutAbove(head, elm);
    }
    PutIn(t, elm, comp);
  }

  lemma {:induction false} NotMember(t: Tree, n: Node)
    requires Nearest(t, n.key) && t.x.key != n.key
    ensures n !in Nodes(t)
    ensures forall m :: m in InOrder(t) ==> m.key != n.key
  {
    InOrderNodes(t);
  }

  lemma {:induction false} PutIn(t: Tree, n: Node, comp: int)
    requires t.Bin?
    ensures var u := if comp < 0 then Bin(t.l, n, Bin(Leaf, t.x, t.r)) else Bin(Bin(t.l, t.x, Leaf), n, t.r);
      Without(InOrder(u), n, InOrder(t)) && Nodes(u) == Nodes(t) + {n}
  {
    assert InOrder(Leaf) == [] && Nodes(Leaf) == {};
    var a, x, b := InOrder(t.l), t.x, InOrder(t.r);
    Slipped(a, x, n, b);
    if comp < 0 {
      var r := Bin(Leaf, x, t.r);
      assert InOrder(r) == [x] + b && Nodes(r) == {x} + Nodes(t.r);
    } else {
      var l := Bin(t.l, x, Leaf);
      assert InOrder(l) == a + [x] && Nodes(l) == Nodes(t.l) + {x};
    }
  }

  /** An element put just before or just behind another. */
  lemma {:induction false} Slipped(a: seq<Node>, x: Node, n: Node, b: seq<Node>)
    ensures Without(a + [n] + ([x] + b), n, a + [x] + b) && Without(a + [x] + [n] + b, n, a + [x] + b)
  {
    var s, t := a + [n] + ([x] + b), a + [x] + [n] + b;
    assert s[|a|] == n && a + [x] + b == s[..|a|] + s[|a| + 1..];
    assert t[|a| + 1] == n && a + [x] + b == t[..|a| + 1] + t[|a| + 2..];
  }

  // ---- SPLAY_REMOVE ----

  /** The second splay in SPLAY_REMOVE, on the left part alone: every key there is smaller, so it
      leaves the largest element at the root with no right child, and hanging the right part there
      loses nothing. */
  method JoinParts(head: SplayHead, elm: Node, tmp: Node?, ghost l: Tree, ghost r: Tree, ghost rest: Memory)
    requires head.Valid() && head.tree == l && l.Bin? && Ord(l, head.lo, elm.key)
    requires tmp == Root(r) && Ord(r, elm.key, head.hi) && elm.key < head.hi
    requires TreeIn(rest, r) && rest.Keys == Nodes(r) && Nodes(r) !! Nodes(l)
    requires forall n :: n in rest ==> rest[n] == Cell(n.left, n.right)
    modifies head`root, head`mem, head`tree, head.mem.Keys
    ensures head.Valid() && head.mem.Keys == old(head.mem.Keys) + rest.Keys
    ensures InOrder(head.tree) == InOrder(l) + InOrder(r)
  {
    OrdSorted(l, head.lo, elm.key);
    hide TreeIn, Nearest, InOrder;
    Splay(head, elm);
    NoneAbove(head.tree, elm.key);
    NarrowAbove(head.tree, head.lo, head.hi, elm.key);
    hide Ord;
    assert forall n :: n in rest ==> rest[n] == Cell(n.left, n.right);
    HangRight(head, elm.key, tmp, r, rest);
  }

  /** The last line of SPLAY_REMOVE. */
  method HangRight(head: SplayHead, ghost key: int, tmp: Node?, ghost r: Tree, ghost rest: Memory)
    requires head.Valid() && head.tree.Bin? && head.tree.r.Leaf? && Ord(head.tree, head.lo, key) && key < head.hi
    requires tmp == Root(r) && Ord(r, key, head.hi) && TreeIn(rest, r) && rest.Keys == Nodes(r)
    requires forall n :: n in rest ==> rest[n] == Cell(n.left, n.right)
    modifies head`mem, head`tree, head.mem.Keys
    ensures head.Valid() && head.mem.Keys == old(head.mem.Keys) + rest.Keys
    ensures InOrder(head.tree) == old(InOrder(head.tree)) + InOrder(r)
  {
    ghost var t := head.tree;
    JoinIn(head.mem, rest, t, r, head.lo, key, head.hi);
    hide TreeIn, Ord, InOrder, Nodes;
    AddRecords(head, rest);
    head.SetRight(head.root, tmp);
    head.tree := Bin(t.l, t.x, r);
    JoinedOrder(t, r);
  }

  lemma {:induction false} NoneAbove(t: Tree, key: int)
    requires Nearest(t, key) && forall n :: n in InOrder(t) ==> n.key < key
    ensures t.r.Leaf?
  {
    assert t.r.Bin? ==> t.r.x in InOrder(t.r);
    assert forall n :: n in InOrder(t.r) ==> n in InOrder(t);
  }

  lemma {:induction false} JoinedOrder(t: Tree, r: Tree)
    requires t.Bin? && t.r.Leaf?
    ensures InOrder(Bin(t.l, t.x, r)) == InOrder(t) + InOrder(r)
    ensures Nodes(Bin(t.l, t.x, r)) == Nodes(t) + Nodes(r)
  {
    assert InOrder(Leaf) == [] && Nodes(Leaf) == {};
  }

  ghost method AddRecords(head: SplayHead, rest: Memory)
    requires head.Synced() && forall n :: n in rest ==> rest[n] == Cell(n.left, n.right)
    modifies head`mem
    ensures head.Synced() && head.mem == old(head.mem) + rest
  {
    head.mem := head.mem + rest;
  }

  /** SPLAY_REMOVE: the element with the key of `elm` leaves, if there is one; the answer is `elm`
      itself, not the element that left. */
  method Remove(head: SplayHead, elm: Node) returns (r: Node?)
    requires head.Valid()
    modifies head, head.mem.Keys
    ensures head.Valid() && (r == null || r == elm)
    ensures r == null ==> forall n :: n in old(InOrder(head.tree)) ==> n.key != elm.key
    ensures r == null ==> InOrder(head.tree) == old(InOrder(head.tree)) && head.mem.Keys == old(head.mem.Keys)
    ensures r != null ==> exists x :: x in old(InOrder(head.tree)) && x.key == elm.key &&
                                     Without(old(InOrder(head.tree)), x, InOrder(head.tree)) &&
                                       head.mem.Keys == old(head.mem.Keys) - {x}
  {
    if head.root == null {
      return null;
    }
    Splay(head, elm);
    if Cmp(elm, head.root) == 0 {
      RemoveRoot(head, elm);
      return elm;
    }
    NotMember(head.tree, elm);
    r := null;
  }

  method RemoveRoot(head: SplayHead, elm: Node)
    requires head.Valid() && head.tree.Bin? && head.tree.x.key == elm.key
    modifies head, head.mem.Keys
    ensures head.Valid() && head.mem.Keys == old(head.mem.Keys) - {old(head.tree.x)}
    ensures InOrder(head.tree) == old(InOrder(head.tree.l) + InOrder(head.tree.r))
    ensures old(head.tree.x) in old(InOrder(head.tree)) &&
      Without(old(InOrder(head.tree)), old(head.tree.x), InOrder(head.tree))
  {
    ghost var t := head.tree;
    SidesApart(t, head.lo, head.hi);
    TakenOut(InOrder(t.l), t.x, InOrder(t.r));
    assert InOrder(Leaf) == [];
    assert [] + InOrder(t.r) == InOrder(t.r);
    if head.root.left == null {
      DropRoot(head);
    } else {
      SplitRoot(head, elm);
    }
  }

  /** No left part: the right part is the tree. */
  method DropRoot(head: SplayHead)
    requires head.Valid() && head.tree.Bin? && head.tree.l.Leaf? && head.tree.x !in Nodes(head.tree.r)
    modifies head
    ensures head.Valid() && head.tree == old(head.tree.r) && head.mem.Keys == old(head.mem.Keys) - {old(head.tree.x)}
  {
    ghost var t := head.tree;
    head.root := head.root.right;
    OrdWiden(t.r, t.x.key, head.hi, head.lo, head.hi);
    assert Nodes(t) == Nodes(Leaf) + {t.x} + Nodes(t.r) && Nodes(Leaf) == {};
    head.Limit(t.r);
  }

  /** Both parts are joined again without the root. */
  method SplitRoot(head: SplayHead, elm: Node)
    requires head.Valid() && head.tree.Bin? && head.tree.x.key == elm.key && head.tree.l.Bin?
    requires Nodes(head.tree.l) !! Nodes(head.tree.r) && head.tree.x !in Nodes(head.tree.l) + Nodes(head.tree.r)
    modifies head, head.mem.Keys
    ensures head.Valid() && head.mem.Keys == old(head.mem.Keys) - {old(head.tree.x)}
    ensures InOrder(head.tree) == old(InOrder(head.tree.l) + InOrder(head.tree.r))
  {
    ghost var t, m := head.tree, head.mem;
    var tmp := head.root.right;
    ghost var rest: Memory := map n | n in Nodes(t.r) && n in m :: m[n];
    SameTree(m, rest, t.r);
    head.root := head.root.left;
    OrdWiden(t.l, head.lo, t.x.key, head.lo, head.hi);
    assert Nodes(t) == Nodes(t.l) + {t.x} + Nodes(t.r);
    hide TreeIn, Nodes, InOrder;
    head.Limit(t.l);
    JoinParts(head, elm, tmp, t.l, t.r, rest);
  }

  lemma {:induction false} TakenOut(a: seq<Node>, n: Node, b: seq<Node>)
    ensures n in a + [n] + b && Without(a + [n] + b, n, a + b)
  {
    var s := a + [n] + b;
    assert s[|a|] == n && a + b == s[..|a|] + s[|a| + 1..];
  }
}
