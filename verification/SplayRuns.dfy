/** Whole runs of the splay tree against a finite map from keys to elements. */
module SplayRuns {
  import opened Elements
  import opened SplayShape
  import opened SplayTree
  import opened SplayOps

  /** One operation agrees with the reference, however much the tree turns meanwhile. */
  method Perform(head: SplayHead, op: Op, ghost m: map<int, Node>) returns (r: Node?)
    requires head.Valid() && Lists(InOrder(head.tree), m)
    modifies head, Named(op), head.mem.Keys
    ensures head.Valid() && Lists(InOrder(head.tree), Apply(m, op))
    ensures head.mem.Keys <= old(head.mem.Keys) + Named(op)
    ensures Answer(TheArgument, m, op, r)
  {
    head.Ordered();
    hide InOrder, Nodes, TreeIn, Ord;
    ghost var s := InOrder(head.tree);
    match op {
      case Add(n) =>
        r := Insert(head, n);
        if r == null {
          ListsWith(s, m, n, InOrder(head.tree));
        }
      case Delete(n) =>
        r := Remove(head, n);
        if r != null {
          ghost var x :| x in s && x.key == n.key && Without(s, x, InOrder(head.tree)) &&
            head.mem.Keys == old(head.mem.Keys) - {x};
          ListsWithout(s, m, x, InOrder(head.tree));
        } else {
          assert m - {n.key} == m;
        }
      case Lookup(n) =>
        r := Find(head, n);
      case First =>
        r := MinMax(head, -1);
        ListsEnds(TheArgument, s, m);
      case Last =>
        r := MinMax(head, 1);
        ListsEnds(TheArgument, s, m);
    }
  }

  lemma {:induction false} EmptyTree(t: Tree)
    requires t == Leaf
    ensures Lists(InOrder(t), map[])
  {
  }

  /** Any run from an empty tree: contents and answers are those of an ordered map. */
  method Run(ops: seq<Op>) returns (head: SplayHead, answers: seq<Node?>)
    modifies set op, n | op in ops && n in Named(op) :: n
    ensures head.Valid() && Lists(InOrder(head.tree), ApplyAll(map[], ops))
    ensures Agrees(TheArgument, ops, answers) && |answers| == |ops|
  {
    hide SplayHead.Valid, InOrder, Nodes, Lists, Agrees, ApplyAll, Apply, Answer, Sorted, Named;
    head := new SplayHead();
    EmptyTree(head.tree);
    answers := [];
    Started(TheArgument, ops);
    var i := 0;
    ghost var nodes := set op, n | op in ops && n in Named(op) :: n;
    while i < |ops|
      invariant i == |answers| <= |ops| && fresh(head)
      invariant head.Valid() && Lists(InOrder(head.tree), ApplyAll(map[], ops[..i]))
      invariant head.mem.Keys <= nodes
      invariant Agrees(TheArgument, ops, answers)
    {
      var op := ops[i];
      assert op in ops && Named(op) <= nodes;
      OneMore(ops, i);
      var r := Perform(head, op, ApplyAll(map[], ops[..i]));
      Answered(TheArgument, ops, answers, r);
      answers := answers + [r];
      i := i + 1;
    }
    assert ops[..|ops|] == ops;
  }
}
