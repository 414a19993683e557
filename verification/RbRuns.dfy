/** Whole runs of the red-black tree against a finite map from keys to elements. */
module RbRuns {
  import opened Elements
  import opened RbShape
  import opened RbHeap
  import opened RbInsert
  import opened RbRemove
  import opened RbQuery
  import opened RbHeight

  /** One operation agrees with the reference. */
  method Perform(head: RbHead, op: Op, ghost m: map<int, Node>) returns (r: Node?)
    requires head.Valid() && Lists(InOrder(head.tree), m)
    modifies head, Named(op), head.mem.Keys
    ensures head.Valid() && Lists(InOrder(head.tree), Apply(m, op))
    ensures head.mem.Keys <= old(head.mem.Keys) + Named(op)
    ensures Answer(TheElement, m, op, r)
  {
    hide RbHead.At, InOrder, Nodes;
    InOrderNodes(head.tree);
    head.Ordered(head.tree);
    ghost var s := InOrder(head.tree);
    match op {
      case Add(n) =>
        r := Insert(head, n);
        if r == null {
          ListsWith(s, m, n, InOrder(head.tree));
        }
      case Delete(n) =>
        r := Find(head, n);
        if r != null {
          var _ := Remove(head, r);
          ListsWithout(s, m, r, InOrder(head.tree));
        } else {
          assert m - {n.key} == m;
        }
      case Lookup(n) =>
        r := Find(head, n);
      case First =>
        r := MinMax(head, -1);
        ListsEnds(TheElement, s, m);
      case Last =>
        r := MinMax(head, 1);
        ListsEnds(TheElement, s, m);
    }
  }

  lemma {:induction false} Empty(t: Tree)
    requires t == Leaf
    ensures Lists(InOrder(t), map[])
  {
  }

  lemma {:induction false} Bounded(head: RbHead, m: map<int, Node>)
    requires head.Valid() && Lists(InOrder(head.tree), m)
    ensures Pow2(Height(head.tree)) <= (|m| + 1) * (|m| + 1)
  {
    head.Ordered(head.tree);
    ListsSize(InOrder(head.tree), m);
    HeightBound(head.tree);
  }

  /** Any run from an empty tree: contents and answers are those of the reference, and the height
      stays within 2 lg (n + 1). */
  method Run(ops: seq<Op>) returns (head: RbHead, answers: seq<Node?>)
    modifies set op, n | op in ops && n in Named(op) :: n
    ensures head.Valid() && Lists(InOrder(head.tree), ApplyAll(map[], ops))
    ensures Agrees(TheElement, ops, answers) && |answers| == |ops|
    ensures var n := |ApplyAll(map[], ops)|; Pow2(Height(head.tree)) <= (n + 1) * (n + 1)
  {
    hide RbHead.Valid, InOrder, Nodes, Lists, Agrees, ApplyAll, Apply, Answer, Sorted, Named, Pow2, Height;
    head := new RbHead();
    Empty(head.tree);
    answers := [];
    Started(TheElement, ops);
    var i := 0;
    ghost var nodes := set op, n | op in ops && n in Named(op) :: n;
    while i < |ops|
      invariant i == |answers| <= |ops| && fresh(head)
      invariant head.Valid() && Lists(InOrder(head.tree), ApplyAll(map[], ops[..i]))
      invariant head.mem.Keys <= nodes
      invariant Agrees(TheElement, ops, answers)
    {
      var op := ops[i];
      assert op in ops && Named(op) <= nodes;
      OneMore(ops, i);
      var r := Perform(head, op, ApplyAll(map[], ops[..i]));
      Answered(TheElement, ops, answers, r);
      answers := answers + [r];
      i := i + 1;
    }
    assert ops[..|ops|] == ops;
    Bounded(head, ApplyAll(map[], ops));
  }
}
