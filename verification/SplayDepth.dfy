/** How far a top-down splay lifts the nodes of the search path. */
module SplayDepth {
  import opened Elements
  import opened SplayShape

  /** The nodes that a search for `key` meets, from the root on. */
  function Path(t: Tree, key: int): seq<Node> {
    if t.Leaf? then []
    else [t.x] + if key < t.x.key then Path(t.l, key) else if t.x.key < key then Path(t.r, key) else []
  }

  /** The links that a search for `n` follows; for a member, its depth. */
  function Depth(t: Tree, n: Node): nat {
    if t.Leaf? || t.x == n then 0 else 1 + Depth(if n.key < t.x.key then t.l else t.r, n)
  }

  /** Every node of the search path rises to half its depth, up to two levels. */
  ghost predicate Halved(before: Tree, key: int, after: Tree) {
    forall n :: n in Path(before, key) ==> n in Nodes(after) && Depth(after, n) <= Depth(before, n) / 2 + 2
  }

  /** `n` is in the tree, at most `b` levels below the root. */
  ghost predicate AtMost(t: Tree, n: Node, b: int) {
    t.Bin? && 0 <= b && (n == t.x || AtMost(t.l, n, b - 1) || AtMost(t.r, n, b - 1))
  }

  function Len(s: Side): nat {
    if s.Empty? then 0 else 1 + Len(s.up)
  }

  /** `n` is on the spine of the side tree, or the root of a part hung there, and will be at most
      `b` levels below the root of the assembled tree. */
  ghost predicate SideAtMost(s: Side, n: Node, b: int) {
    s.Hung? && (
      || (n == s.x && Len(s) <= b)
      || (s.t.Bin? && n == s.t.x && Len(s) < b)
      || SideAtMost(s.up, n, b))
  }

  /** A link uses up two nodes of the path, or one and a turn to the other side. */
  predicate Even(c: nat, ls: Side, t: Tree, rs: Side, key: int)
    requires t.Bin?
  {
    && 2 * Len(rs) <= (if t.x.key <= key then c + 1 else c)
    && 2 * Len(ls) <= (if key <= t.x.key then c + 1 else c)
  }

  ghost predicate Placed(ls: Side, rs: Side, done: seq<Node>) {
    forall i {:trigger done[i]} :: 0 <= i < |done| ==>
      SideAtMost(ls, done[i], i / 2 + 2) || SideAtMost(rs, done[i], i / 2 + 2)
  }

  /** Between two steps: `done` are the path nodes that were linked to the side trees. */
  ghost predicate Lifted(t0: Tree, key: int, ls: Side, t: Tree, rs: Side, done: seq<Node>) {
    t.Bin? && Path(t0, key) == done + Path(t, key) && Even(|done|, ls, t, rs, key) && Placed(ls, rs, done)
  }

  /** The same for the assembled tree. */
  ghost predicate Raised(before: Tree, key: int, after: Tree) {
    forall i {:trigger Path(before, key)[i]} :: 0 <= i < |Path(before, key)| ==>
      AtMost(after, Path(before, key)[i], i / 2 + 2)
  }

  lemma {:induction false} LiftedAtFirst(t: Tree, key: int)
    requires t.Bin?
    ensures Lifted(t, key, Empty, t, Empty, [])
  {
  }

  // ---- the four steps of the loop ----

  lemma {:induction false} Moved(done: seq<Node>, more: seq<Node>, p: seq<Node>)
    ensures done + (more + p) == (done + more) + p
  {
  }

  /** The nodes that a link has placed join those that were placed before. */
  lemma {:induction false} PlacedRight(ls: Side, rs: Side, rs': Side, done: seq<Node>, more: seq<Node>)
    requires Placed(ls, rs, done) && rs'.Hung? && rs'.up == rs
    requires forall j {:trigger more[j]} :: 0 <= j < |more| ==> SideAtMost(rs', more[j], (|done| + j) / 2 + 2)
    ensures Placed(ls, rs', done + more)
  {
    hide Len;
    var all := done + more;
    forall i {:trigger all[i]} | 0 <= i < |all|
      ensures SideAtMost(ls, all[i], i / 2 + 2) || SideAtMost(rs', all[i], i / 2 + 2)
    {
      if i < |done| {
        assert all[i] == done[i];
      } else {
        assert all[i] == more[i - |done|];
      }
    }
  }

  lemma {:induction false} PlacedLeft(ls: Side, ls': Side, rs: Side, done: seq<Node>, more: seq<Node>)
    requires Placed(ls, rs, done) && ls'.Hung? && ls'.up == ls
    requires forall j {:trigger more[j]} :: 0 <= j < |more| ==> SideAtMost(ls', more[j], (|done| + j) / 2 + 2)
    ensures Placed(ls', rs, done + more)
  {
    hide Len;
    var all := done + more;
    forall i {:trigger all[i]} | 0 <= i < |all|
      ensures SideAtMost(ls', all[i], i / 2 + 2) || SideAtMost(rs, all[i], i / 2 + 2)
    {
      if i < |done| {
        assert all[i] == done[i];
      } else {
        assert all[i] == more[i - |done|];
      }
    }
  }

  lemma {:induction false} PathDown(t: Tree, key: int)
    requires t.Bin?
    ensures key < t.x.key ==> Path(t, key) == [t.x] + Path(t.l, key)
    ensures t.x.key < key ==> Path(t, key) == [t.x] + Path(t.r, key)
  {
  }

  lemma {:induction false} Two(x: Node, y: Node)
    ensures [x] + [y] == [x, y]
  {
  }

  /** SPLAY_LINKLEFT alone: the search turns to the other side. */
  lemma {:induction false} ZigLeft(t0: Tree, key: int, ls: Side, t: Tree, rs: Side, done: seq<Node>)
    requires Lifted(t0, key, ls, t, rs, done) && key < t.x.key && t.l.Bin? && t.l.x.key <= key
    ensures Lifted(t0, key, ls, t.l, Hung(rs, t.r, t.x), done + [t.x])
  {
    hide Path, Placed;
    PathDown(t, key);
    Moved(done, [t.x], Path(t.l, key));
    PlacedRight(ls, rs, Hung(rs, t.r, t.x), done, [t.x]);
  }

  lemma {:induction false} ZigRight(t0: Tree, key: int, ls: Side, t: Tree, rs: Side, done: seq<Node>)
    requires Lifted(t0, key, ls, t, rs, done) && t.x.key < key && t.r.Bin? && key <= t.r.x.key
    ensures Lifted(t0, key, Hung(ls, t.l, t.x), t.r, rs, done + [t.x])
  {
    hide Path, Placed;
    PathDown(t, key);
    Moved(done, [t.x], Path(t.r, key));
    PlacedLeft(ls, Hung(ls, t.l, t.x), rs, done, [t.x]);
  }

  /** A rotation followed by SPLAY_LINKLEFT: one link for two nodes of the path. */
  lemma {:induction false} ZigZigLeft(t0: Tree, key: int, ls: Side, t: Tree, rs: Side, done: seq<Node>)
    requires Lifted(t0, key, ls, t, rs, done) && key < t.x.key && t.l.Bin? && key < t.l.x.key && t.l.l.Bin?
    ensures Lifted(t0, key, ls, t.l.l, Hung(rs, Bin(t.l.r, t.x, t.r), t.l.x), done + [t.x, t.l.x])
  {
    hide Path, Placed;
    PathDown(t, key);
    PathDown(t.l, key);
    Two(t.x, t.l.x);
    Moved([t.x], [t.l.x], Path(t.l.l, key));
    Moved(done, [t.x, t.l.x], Path(t.l.l, key));
    PlacedRight(ls, rs, Hung(rs, Bin(t.l.r, t.x, t.r), t.l.x), done, [t.x, t.l.x]);
  }

  lemma {:induction false} ZigZigRight(t0: Tree, key: int, ls: Side, t: Tree, rs: Side, done: seq<Node>)
    requires Lifted(t0, key, ls, t, rs, done) && t.x.key < key && t.r.Bin? && t.r.x.key < key && t.r.r.Bin?
    ensures Lifted(t0, key, Hung(ls, Bin(t.l, t.x, t.r.l), t.r.x), t.r.r, rs, done + [t.x, t.r.x])
  {
    hide Path, Placed;
    PathDown(t, key);
    PathDown(t.r, key);
    Two(t.x, t.r.x);
    Moved([t.x], [t.r.x], Path(t.r.r, key));
    Moved(done, [t.x, t.r.x], Path(t.r.r, key));
    PlacedLeft(ls, Hung(ls, Bin(t.l, t.x, t.r.l), t.r.x), rs, done, [t.x, t.r.x]);
  }

  // ---- the end of the loop ----

  /** A tree sinks by the length of the spine that it is hung at. */
  lemma {:induction false} LFillSinks(s: Side, t: Tree, n: Node, b: int)
    requires AtMost(t, n, b)
    ensures AtMost(LFill(s, t), n, b + Len(s))
  {
    if s.Hung? {
      assert AtMost(Bin(s.t, s.x, t), n, b + 1);
      LFillSinks(s.up, Bin(s.t, s.x, t), n, b + 1);
    }
  }

  lemma {:induction false} RFillSinks(s: Side, t: Tree, n: Node, b: int)
    requires AtMost(t, n, b)
    ensures AtMost(RFill(s, t), n, b + Len(s))
  {
    if s.Hung? {
      assert AtMost(Bin(t, s.x, s.t), n, b + 1);
      RFillSinks(s.up, Bin(t, s.x, s.t), n, b + 1);
    }
  }

  lemma {:induction false} LFillPlaces(s: Side, t: Tree, n: Node, b: int)
    requires SideAtMost(s, n, b)
    ensures AtMost(LFill(s, t), n, b - 1)
  {
    var u := Bin(s.t, s.x, t);
    if (n == s.x && Len(s) <= b) || (s.t.Bin? && n == s.t.x && Len(s) < b) {
      LFillSinks(s.up, u, n, b - Len(s));
    } else {
      LFillPlaces(s.up, u, n, b);
    }
  }

  lemma {:induction false} RFillPlaces(s: Side, t: Tree, n: Node, b: int)
    requires SideAtMost(s, n, b)
    ensures AtMost(RFill(s, t), n, b - 1)
  {
    var u := Bin(t, s.x, s.t);
    if (n == s.x && Len(s) <= b) || (s.t.Bin? && n == s.t.x && Len(s) < b) {
      RFillSinks(s.up, u, n, b - Len(s));
    } else {
      RFillPlaces(s.up, u, n, b);
    }
  }

  lemma {:induction false} PlacedWhole(ls: Side, t: Tree, rs: Side, done: seq<Node>, i: nat)
    requires t.Bin? && Placed(ls, rs, done) && i < |done|
    ensures AtMost(Whole(ls, t, rs), done[i], i / 2 + 2)
  {
    if SideAtMost(ls, done[i], i / 2 + 2) {
      LFillPlaces(ls, t.l, done[i], i / 2 + 2);
    } else {
      RFillPlaces(rs, t.r, done[i], i / 2 + 2);
    }
  }

  /** The search has ended at the root of the middle tree. */
  lemma {:induction false} StopsThere(t0: Tree, key: int, ls: Side, t: Tree, rs: Side, done: seq<Node>)
    requires Lifted(t0, key, ls, t, rs, done) && Path(t, key) == [t.x]
    ensures Raised(t0, key, Whole(ls, t, rs))
  {
    var w := Whole(ls, t, rs);
    assert AtMost(w, t.x, |done| / 2 + 2);
    forall i {:trigger done[i]} | 0 <= i < |done| ensures AtMost(w, done[i], i / 2 + 2) {
      PlacedWhole(ls, t, rs, done, i);
    }
    AllRaised(t0, key, w, done, [t.x]);
  }

  /** It ends one link further on, and the rotation has brought that node to the root. */
  lemma {:induction false} StopsLeft(t0: Tree, key: int, ls: Side, t: Tree, rs: Side, done: seq<Node>)
    requires Lifted(t0, key, ls, t, rs, done) && key < t.x.key && t.l.Bin? && key < t.l.x.key && t.l.l.Leaf?
    ensures Raised(t0, key, Whole(ls, Bin(Leaf, t.l.x, Bin(t.l.r, t.x, t.r)), rs))
  {
    var r := Bin(t.l.r, t.x, t.r);
    var u := Bin(Leaf, t.l.x, r);
    var w := Whole(ls, u, rs);
    assert Path(t.l, key) == [t.l.x] + [] && Path(t, key) == [t.x] + Path(t.l, key);
    assert [t.x] + ([t.l.x] + []) == [t.x, t.l.x];
    assert AtMost(r, t.x, |done| / 2 + 1 - Len(rs));
    RFillSinks(rs, r, t.x, |done| / 2 + 1 - Len(rs));
    assert AtMost(w, t.x, |done| / 2 + 2) && AtMost(w, t.l.x, (|done| + 1) / 2 + 2);
    hide Path, AtMost, Even, Whole;
    forall i {:trigger done[i]} | 0 <= i < |done| ensures AtMost(w, done[i], i / 2 + 2) {
      PlacedWhole(ls, u, rs, done, i);
    }
    AllRaised(t0, key, w, done, [t.x, t.l.x]);
  }

  lemma {:induction false} StopsRight(t0: Tree, key: int, ls: Side, t: Tree, rs: Side, done: seq<Node>)
    requires Lifted(t0, key, ls, t, rs, done) && t.x.key < key && t.r.Bin? && t.r.x.key < key && t.r.r.Leaf?
    ensures Raised(t0, key, Whole(ls, Bin(Bin(t.l, t.x, t.r.l), t.r.x, Leaf), rs))
  {
    var l := Bin(t.l, t.x, t.r.l);
    var u := Bin(l, t.r.x, Leaf);
    var w := Whole(ls, u, rs);
    assert Path(t.r, key) == [t.r.x] + [] && Path(t, key) == [t.x] + Path(t.r, key);
    assert [t.x] + ([t.r.x] + []) == [t.x, t.r.x];
    assert AtMost(l, t.x, |done| / 2 + 1 - Len(ls));
    LFillSinks(ls, l, t.x, |done| / 2 + 1 - Len(ls));
    assert AtMost(w, t.x, |done| / 2 + 2) && AtMost(w, t.r.x, (|done| + 1) / 2 + 2);
    hide Path, AtMost, Even, Whole;
    forall i {:trigger done[i]} | 0 <= i < |done| ensures AtMost(w, done[i], i / 2 + 2) {
      PlacedWhole(ls, u, rs, done, i);
    }
    AllRaised(t0, key, w, done, [t.x, t.r.x]);
  }

  /** The path is what was linked and the one or two nodes at which the search ends. */
  lemma {:induction false} AllRaised(t0: Tree, key: int, w: Tree, done: seq<Node>, last: seq<Node>)
    requires Path(t0, key) == done + last && 1 <= |last| <= 2
    requires forall i {:trigger done[i]} :: 0 <= i < |done| ==> AtMost(w, done[i], i / 2 + 2)
    requires AtMost(w, last[0], |done| / 2 + 2)
    requires |last| == 2 ==> AtMost(w, last[1], (|done| + 1) / 2 + 2)
    ensures Raised(t0, key, w)
  {
    hide Path, AtMost;
    forall i {:trigger Path(t0, key)[i]} | 0 <= i < |Path(t0, key)|
      ensures AtMost(w, Path(t0, key)[i], i / 2 + 2)
    {
      if i < |done| {
        assert Path(t0, key)[i] == done[i];
      } else {
        assert Path(t0, key)[i] == last[i - |done|];
      }
    }
  }

  // ---- depths ----

  /** In a search tree the number of links to a node is its depth. */
  lemma {:induction false} DepthAtMost(t: Tree, n: Node, b: int, lo: int, hi: int)
    requires Ord(t, lo, hi) && AtMost(t, n, b)
    ensures n in Nodes(t) && Depth(t, n) <= b
  {
    if n != t.x {
      OrdNodes(t.l, lo, t.x.key);
      OrdNodes(t.r, t.x.key, hi);
      if AtMost(t.l, n, b - 1) {
        DepthAtMost(t.l, n, b - 1, lo, t.x.key);
      } else {
        DepthAtMost(t.r, n, b - 1, t.x.key, hi);
      }
    }
  }

  /** The node at place `i` of a search path lies `i` levels below the root. */
  lemma {:induction false} PathDepth(t: Tree, key: int, i: nat, lo: int, hi: int)
    requires Ord(t, lo, hi) && i < |Path(t, key)|
    ensures Path(t, key)[i] in Nodes(t) && Depth(t, Path(t, key)[i]) == i
  {
    if i > 0 {
      OrdNodes(t.l, lo, t.x.key);
      OrdNodes(t.r, t.x.key, hi);
      if key < t.x.key {
        PathDepth(t.l, key, i - 1, lo, t.x.key);
      } else {
        PathDepth(t.r, key, i - 1, t.x.key, hi);
      }
    }
  }

  lemma {:induction false} RaisedHalves(before: Tree, key: int, after: Tree, lo: int, hi: int)
    requires Raised(before, key, after) && Ord(before, lo, hi) && Ord(after, lo, hi)
    ensures Halved(before, key, after)
  {
    forall n | n in Path(before, key)
      ensures n in Nodes(after) && Depth(after, n) <= Depth(before, n) / 2 + 2
    {
      var i :| 0 <= i < |Path(before, key)| && Path(before, key)[i] == n;
      PathDepth(before, key, i, lo, hi);
      DepthAtMost(after, n, i / 2 + 2, lo, hi);
    }
  }
}
