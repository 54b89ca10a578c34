/** The recursive walks of conhash/util_rbtree.c: the self-check and the in-order traversal, the
    latter with the callback of conhash/conhash_util.c that copies the keys out. */
module RbWalk {
  import opened RbShape
  import opened RbMemory
  import opened RbTree

  // ---------- the self-check ----------

  /** `rbtree_check_s`: black height found first, greatest depth seen, error code. */
  datatype Verdict = Verdict(rbh: int, maxd: int, fini: int)

  function Report(v: Verdict, level: int, black: int): Verdict {
    var v1 := if v.rbh == 0 then v.(rbh := black) else v;
    var v2 := if v1.maxd < level then v1.(maxd := level) else v1;
    if v2.rbh != black then v2.(fini := 3) else v2
  }

  /** `rbtree_check_subtree` on a shape. */
  function CheckShape(t: Shape, v: Verdict, level: int, curheight: int): Verdict
    requires t.Fork?
  {
    if v.fini != 0 then v else
    var black := if t.red then curheight else curheight + 1;
    if t.left.Leaf? then Report(v, level, black)
    else if t.red && t.left.red then v.(fini := 4)
    else if t.node.key < t.left.node.key then v.(fini := 5)
    else
      var w := CheckShape(t.left, v, level + 1, black);
      if t.right.Leaf? then Report(w, level, black)
      else if t.red && t.right.red then w.(fini := 4)
      else if t.node.key > t.right.node.key then w.(fini := 5)
      else CheckShape(t.right, w, level + 1, black)
  }

  method CheckSubtree(tree: Tree, node: Node, v: Verdict, level: int, curheight: int, ghost t: Shape) returns (w: Verdict)
    requires tree.Sync() && tree.nil in tree.mem && Linked(tree.mem, t, tree.nil) && t.Fork? && t.node == node
    requires tree.nil !in Nodes(t)
    ensures w == CheckShape(t, v, level, curheight)
    decreases t
  {
    w := v;
    if w.fini != 0 { return; }
    var black := curheight;
    if !node.red { black := black + 1; }
    if node.left != tree.nil {
      if node.red && node.left.red { return w.(fini := 4); }
      if node.key < node.left.key { return w.(fini := 5); }
      w := CheckSubtree(tree, node.left, w, level + 1, black, t.left);
    } else {
      return Report(w, level, black);
    }
    if node.right != tree.nil {
      if node.red && node.right.red { return w.(fini := 4); }
      if node.key > node.right.key { return w.(fini := 5); }
      w := CheckSubtree(tree, node.right, w, level + 1, black, t.right);
    } else {
      return Report(w, level, black);
    }
  }

  /** What the check really establishes: colours and keys are right along every edge it looks at, and
      every node with a missing child ends the same number `h` of black nodes.  It never looks to the
      right of a node that has no left child. */
  ghost predicate Passes(t: Shape, h: int) {
    && t.Fork?
    && (t.left.Leaf? || t.right.Leaf? ==> h == if t.red then 0 else 1)
    && (t.left.Fork? ==>
      && !(t.red && t.left.red) && t.left.node.key <= t.node.key
      && Passes(t.left, if t.red then h else h - 1)
      && (t.right.Fork? ==>
        && !(t.red && t.right.red) && t.node.key <= t.right.node.key
        && Passes(t.right, if t.red then h else h - 1)))
  }

  ghost predicate PassesAt(t: Shape, h: int) {
    Passes(t, h)
  }

  lemma {:induction false} PassingChecks(t: Shape, v: Verdict, level: int, curheight: int, h: int)
    requires Passes(t, h) && v.fini == 0 && (v.rbh == 0 || v.rbh == curheight + h)
    requires curheight >= 0 && (t.red ==> curheight >= 1)
    ensures CheckShape(t, v, level, curheight).fini == 0
    ensures CheckShape(t, v, level, curheight).rbh == curheight + h
  {
    var black := if t.red then curheight else curheight + 1;
    if t.left.Fork? {
      PassingChecks(t.left, v, level + 1, black, if t.red then h else h - 1);
      if t.right.Fork? {
        PassingChecks(t.right, CheckShape(t.left, v, level + 1, black), level + 1, black, if t.red then h else h - 1);
      }
    }
  }

  lemma {:induction false} FailureStays(t: Shape, v: Verdict, level: int, curheight: int)
    requires t.Fork? && v.fini != 0
    ensures CheckShape(t, v, level, curheight).fini != 0
  {
  }

  lemma {:induction false} CheckedPasses(t: Shape, v: Verdict, level: int, curheight: int)
    requires t.Fork? && CheckShape(t, v, level, curheight).fini == 0
    requires curheight >= 0 && (t.red ==> curheight >= 1)
    ensures var w := CheckShape(t, v, level, curheight);
      && Passes(t, w.rbh - curheight) && w.rbh > 0 && (v.rbh == 0 || v.rbh == w.rbh)
  {
    var black := if t.red then curheight else curheight + 1;
    if t.left.Fork? {
      var u := CheckShape(t.left, v, level + 1, black);
      if t.right.Fork? {
        if u.fini != 0 { FailureStays(t.right, u, level + 1, black); }
        CheckedPasses(t.right, u, level + 1, black);
      }
      CheckedPasses(t.left, v, level + 1, black);
    }
  }

  lemma {:induction false} BalancedPasses(t: Shape, h: int)
    requires t.Fork? && Balanced(t, h) && Sorted(InOrder(t))
    ensures Passes(t, h)
  {
    SortedAround(Top, t);
    assert Order(Top, t) == InOrder(t);
    SortedSubs(t);
    if t.left.Fork? {
      assert t.left.node in InOrder(t.left);
      BalancedPasses(t.left, if t.red then h else h - 1);
    }
    if t.right.Fork? {
      assert t.right.node in InOrder(t.right);
      BalancedPasses(t.right, if t.red then h else h - 1);
    }
  }

  lemma SortedSubs(t: Shape)
    requires t.Fork? && Sorted(InOrder(t))
    ensures Sorted(InOrder(t.left)) && Sorted(InOrder(t.right))
  {
    var s, n := InOrder(t), |InOrder(t.left)| + 1;
    assert forall k :: 0 <= k < n - 1 ==> s[k] == InOrder(t.left)[k];
    assert forall k :: 0 <= k < |InOrder(t.right)| ==> s[n + k] == InOrder(t.right)[k];
  }

  /** Where the check does not look it would find nothing wrong: to the right of a node without a left
      child there is at most a red leaf, and then the node is black. */
  ghost predicate Harmless(t: Shape) {
    t.Leaf? ||
    if t.left.Leaf? then t.right.Leaf? || (!t.red && t.right.red && t.right.left.Leaf? && t.right.right.Leaf?)
    else Harmless(t.left) && Harmless(t.right)
  }

  lemma {:induction false} BalancedHarmless(t: Shape, h: int)
    requires Balanced(t, h)
    ensures Harmless(t)
  {
    if t.Fork? {
      var g := if t.red then h else h - 1;
      if t.left.Fork? {
        BalancedHarmless(t.left, g);
        BalancedHarmless(t.right, g);
      } else if t.right.Fork? {
        HeightNat(t.right, g);
        HeightNat(t.right.left, g);
        HeightNat(t.right.right, g);
      }
    }
  }

  lemma {:induction false} HarmlessBalanced(t: Shape, h: int)
    requires Passes(t, h) && Harmless(t)
    ensures Balanced(t, h)
  {
    if t.left.Fork? {
      HarmlessBalanced(t.left, if t.red then h else h - 1);
      if t.right.Fork? {
        HarmlessBalanced(t.right, if t.red then h else h - 1);
      }
    }
  }

  /** Nowhere has a red node a red child. */
  predicate NoRedRed(t: Shape) {
    t.Fork? ==> !(t.red && (Red(t.left) || Red(t.right))) && NoRedRed(t.left) && NoRedRed(t.right)
  }

  /** Every way down ends after the same number of black nodes. */
  predicate Even(t: Shape, h: int) {
    if t.Leaf? then h == 0
    else Even(t.left, if t.red then h else h - 1) && Even(t.right, if t.red then h else h - 1)
  }

  /** Code 4 is given only where a red node has a red child. */
  lemma {:induction false} RedCodes(t: Shape, v: Verdict, level: int, curheight: int)
    requires t.Fork? && NoRedRed(t) && v.fini != 4
    ensures CheckShape(t, v, level, curheight).fini != 4
  {
    var black := if t.red then curheight else curheight + 1;
    if v.fini == 0 && t.left.Fork? {
      RedCodes(t.left, v, level + 1, black);
      if t.right.Fork? {
        RedCodes(t.right, CheckShape(t.left, v, level + 1, black), level + 1, black);
      }
    }
  }

  /** Code 3 is given only where two ways down have different numbers of black nodes. */
  lemma {:induction false} EvenCodes(t: Shape, v: Verdict, level: int, curheight: int, h: int)
    requires t.Fork? && Even(t, h) && v.fini != 3 && (v.rbh == 0 || v.rbh == curheight + h)
    ensures var w := CheckShape(t, v, level, curheight); w.fini != 3 && (w.rbh == 0 || w.rbh == curheight + h)
  {
    var black, g := if t.red then curheight else curheight + 1, if t.red then h else h - 1;
    if v.fini == 0 && t.left.Fork? {
      EvenCodes(t.left, v, level + 1, black, g);
      if t.right.Fork? {
        EvenCodes(t.right, CheckShape(t.left, v, level + 1, black), level + 1, black, g);
      }
    }
  }

  /** The height of what the check looks at. */
  function Seen(t: Shape): nat {
    if t.Leaf? then 0 else if t.left.Leaf? then 1
    else 1 + if Seen(t.left) < Seen(t.right) then Seen(t.right) else Seen(t.left)
  }

  /** With code 0 the greatest depth is that height. */
  lemma {:induction false} CheckedDepth(t: Shape, v: Verdict, level: int, curheight: int)
    requires t.Fork? && CheckShape(t, v, level, curheight).fini == 0
    ensures var maxd := CheckShape(t, v, level, curheight).maxd;
      maxd == if v.maxd < level - 1 + Seen(t) then level - 1 + Seen(t) else v.maxd
  {
    var black := if t.red then curheight else curheight + 1;
    if t.left.Fork? {
      var u := CheckShape(t.left, v, level + 1, black);
      if t.right.Fork? {
        if u.fini != 0 { FailureStays(t.right, u, level + 1, black); }
        CheckedDepth(t.right, u, level + 1, black);
      }
      CheckedDepth(t.left, v, level + 1, black);
    }
  }

  /** Where it is harmless not to look, at most one level is missed. */
  lemma {:induction false} SeenHeight(t: Shape)
    ensures Seen(t) <= Height(t)
    ensures Harmless(t) ==> Height(t) - 1 <= Seen(t)
  {
    if t.Fork? {
      SeenHeight(t.left);
      SeenHeight(t.right);
    }
  }

  /** No balanced tree of fewer than 2^32 nodes is higher than 64. */
  lemma HeightFits(t: Shape)
    requires Balanced(t, BlackHeight(t)) && !Red(t) && |InOrder(t)| < 0x1_0000_0000
    ensures Height(t) <= 64 && 0 <= BlackHeight(t) <= 32
  {
    var h := BlackHeight(t);
    BalancedHeight(t, h);
    PowerOf33();
    hide InOrder, Pow2, Balanced, Height;
    if h > 32 {
      Pow2Monotone(33, h);
    }
  }

  lemma PowerOf33()
    ensures Pow2(33) == 0x2_0000_0000
  {
    assert Pow2(8) == 0x100;
    Pow2Add(8, 8);
    Pow2Add(16, 16);
    assert Pow2(33) == 2 * Pow2(32);
  }

  lemma EdgesSorted(t: Shape)
    requires t.Fork? && Sorted(InOrder(t))
    ensures Sorted(InOrder(t.left)) && Sorted(InOrder(t.right))
    ensures (t.left.Fork? ==> t.left.node.key <= t.node.key) && (t.right.Fork? ==> t.node.key <= t.right.node.key)
  {
    SortedSubs(t);
    SortedAround(Top, t);
    assert Order(Top, t) == InOrder(t);
    assert t.left.Fork? ==> t.left.node in InOrder(t.left);
    assert t.right.Fork? ==> t.right.node in InOrder(t.right);
  }

  /** Code 5 is given to unsorted trees only. */
  lemma {:induction false} SortedCodes(t: Shape, v: Verdict, level: int, curheight: int)
    requires t.Fork? && Sorted(InOrder(t)) && v.fini != 5
    ensures CheckShape(t, v, level, curheight).fini != 5
  {
    EdgesSorted(t);
    var black := if t.red then curheight else curheight + 1;
    if v.fini == 0 && t.left.Fork? {
      SortedCodes(t.left, v, level + 1, black);
      if t.right.Fork? {
        SortedCodes(t.right, CheckShape(t.left, v, level + 1, black), level + 1, black);
      }
    }
  }

  /** Codes 3 and 4 are given to unbalanced trees only. */
  lemma {:induction false} BalancedCodes(t: Shape, v: Verdict, level: int, curheight: int, h: int)
    requires t.Fork? && Balanced(t, h) && v.fini in {0, 5} && (v.rbh == 0 || v.rbh == curheight + h)
    ensures var w := CheckShape(t, v, level, curheight);
      w.fini in {0, 5} && (w.rbh == 0 || w.rbh == curheight + h)
  {
    var black, g := if t.red then curheight else curheight + 1, if t.red then h else h - 1;
    if v.fini == 0 && t.left.Fork? {
      BalancedCodes(t.left, v, level + 1, black, g);
      if t.right.Fork? {
        BalancedCodes(t.right, CheckShape(t.left, v, level + 1, black), level + 1, black, g);
      }
    }
  }

  /** `util_rbtree_check`.  On any linked tree the code 0 means exactly what `Passes` says.  A tree is a
      red-black search tree exactly when the code is 0, its keys are in order throughout, and what the
      check does not look at is harmless; the other codes tell what is wrong. */
  method Check(tree: Tree) returns (code: int, blackheight: int, maxdepth: int)
    requires tree.Here(Top, tree.shape)
    ensures code == 0 <==> tree.shape.Leaf? || (!tree.shape.red && exists h :: PassesAt(tree.shape, h))
    ensures tree.RedBlack() <==> code == 0 && Sorted(tree.Seq()) && Harmless(tree.shape)
    ensures tree.RedBlack() && tree.shape.Fork? ==> blackheight == BlackHeight(tree.shape)
    ensures code == 0 && tree.shape.Fork? ==> PassesAt(tree.shape, blackheight)
    ensures code == 0 ==> maxdepth == Seen(tree.shape)
    ensures tree.RedBlack() ==> Height(tree.shape) - 1 <= maxdepth <= Height(tree.shape)
    ensures tree.RedBlack() && |tree.Seq()| < 0x1_0000_0000 ==> blackheight <= 32 && maxdepth <= 64
    ensures code in {0, 1, 3, 4, 5} && (code == 1 <==> Red(tree.shape))
    ensures code == 3 || code == 4 ==> !Balanced(tree.shape, BlackHeight(tree.shape))
    ensures code == 5 ==> !Sorted(tree.Seq())
    ensures code == 4 ==> !NoRedRed(tree.shape)
    ensures code == 3 ==> forall h :: !Even(tree.shape, h)
  {
    ghost var t := tree.shape;
    AtRoot(tree.mem, Top, t, tree.E());
    if tree.root == tree.nil { return 0, 0, 0; }
    if tree.root.red { return 1, 0, 0; }
    var w := CheckSubtree(tree, tree.root, Verdict(0, 0, 0), 1, 0, t);
    code, blackheight, maxdepth := w.fini, w.rbh, w.maxd;
    CodesMean(t);
    ZeroPasses(t);
    SeenHeight(t);
    if NoRedRed(t) { RedCodes(t, Verdict(0, 0, 0), 1, 0); }
    forall h | Even(t, h) ensures code != 3 {
      EvenCodes(t, Verdict(0, 0, 0), 1, 0, h);
    }
    if code == 0 {
      CheckedDepth(t, Verdict(0, 0, 0), 1, 0);
    }
    if tree.RedBlack() {
      if |tree.Seq()| < 0x1_0000_0000 { HeightFits(t); }
      BalancedPasses(t, BlackHeight(t));
      PassingChecks(t, Verdict(0, 0, 0), 1, 0, BlackHeight(t));
    }
  }

  /** What the check of a tree with a black root says. */
  lemma CodesMean(t: Shape)
    requires t.Fork? && !t.red
    ensures var w := CheckShape(t, Verdict(0, 0, 0), 1, 0);
      && w.fini in {0, 3, 4, 5}
      && (w.fini == 0 <==> exists h :: PassesAt(t, h))
      && (w.fini == 0 && Harmless(t) <==> Balanced(t, BlackHeight(t)) && w.fini == 0)
      && (Balanced(t, BlackHeight(t)) ==> Harmless(t) && w.fini in {0, 5})
      && (Sorted(InOrder(t)) ==> w.fini != 5)
  {
    var v := Verdict(0, 0, 0);
    var w := CheckShape(t, v, 1, 0);
    CodeRange(t, v, 1, 0);
    ZeroPasses(t);
    if w.fini == 0 && Harmless(t) {
      HarmlessBalanced(t, w.rbh);
      BlackHeightUnique(t, w.rbh);
    }
    if Sorted(InOrder(t)) {
      SortedCodes(t, v, 1, 0);
    }
    if Balanced(t, BlackHeight(t)) {
      BalancedCodes(t, v, 1, 0, BlackHeight(t));
      BalancedHarmless(t, BlackHeight(t));
    }
  }

  lemma ZeroPasses(t: Shape)
    requires t.Fork? && !t.red
    ensures var w := CheckShape(t, Verdict(0, 0, 0), 1, 0);
      && (w.fini == 0 <==> exists h :: PassesAt(t, h))
      && (w.fini == 0 ==> PassesAt(t, w.rbh))
  {
    var v := Verdict(0, 0, 0);
    var w := CheckShape(t, v, 1, 0);
    if w.fini == 0 {
      CheckedPasses(t, v, 1, 0);
      assert PassesAt(t, w.rbh);
    } else if h :| PassesAt(t, h) {
      PassingChecks(t, v, 1, 0, h);
    }
  }

  lemma {:induction false} CodeRange(t: Shape, v: Verdict, level: int, curheight: int)
    requires t.Fork? && v.fini in {0, 3, 4, 5}
    ensures CheckShape(t, v, level, curheight).fini in {0, 3, 4, 5}
  {
    var black := if t.red then curheight else curheight + 1;
    if v.fini == 0 && t.left.Fork? {
      CodeRange(t.left, v, level + 1, black);
      if t.right.Fork? {
        CodeRange(t.right, CheckShape(t.left, v, level + 1, black), level + 1, black);
      }
    }
  }

  /** Code 0 does not mean that the tree is valid.  A black root with only a black right child passes,
      and is not balanced. */
  lemma CheckMissesRight(x: Node, y: Node)
    ensures var t := Fork(Leaf, x, false, Fork(Leaf, y, false, Leaf));
      && CheckShape(t, Verdict(0, 0, 0), 1, 0).fini == 0
      && !Harmless(t) && forall h :: !Balanced(t, h)
  {
    var t := Fork(Leaf, x, false, Fork(Leaf, y, false, Leaf));
    forall h ensures !Balanced(t, h) {
      assert Balanced(t, h) ==> Balanced(t.left, h - 1) && Balanced(t.right, h - 1) && Balanced(t.right.left, h - 2);
    }
  }

  /** And keys are compared along edges only: here every node is looked at, the tree is balanced, and yet
      a key in the root's left subtree is greater than the root's. */
  lemma CheckMissesOrder(a: Node, b: Node, c: Node, d: Node, e: Node)
    requires d.key <= b.key <= a.key <= c.key && a.key < e.key
    ensures var t := Fork(Fork(Fork(Leaf, d, true, Leaf), b, false, Fork(Leaf, e, true, Leaf)), a, false, Fork(Leaf, c, false, Leaf));
      && CheckShape(t, Verdict(0, 0, 0), 1, 0).fini == 0
      && Harmless(t) && Balanced(t, 2) && !Sorted(InOrder(t))
  {
    var l := Fork(Fork(Leaf, d, true, Leaf), b, false, Fork(Leaf, e, true, Leaf));
    var t := Fork(l, a, false, Fork(Leaf, c, false, Leaf));
    forall n: Node, red: bool
      ensures Passes(Fork(Leaf, n, red, Leaf), if red then 0 else 1) && Balanced(Fork(Leaf, n, red, Leaf), if red then 0 else 1)
      ensures InOrder(Fork(Leaf, n, red, Leaf)) == [n]
    {
    }
    assert Passes(l, 1) && Balanced(l, 1);
    assert Passes(t, 2) && Balanced(t, 2);
    PassingChecks(t, Verdict(0, 0, 0), 1, 0, 2);
    assert InOrder(l) == [d, b, e];
    assert InOrder(t) == [d, b, e, a, c];
    assert InOrder(t)[2].key > InOrder(t)[3].key;
  }

  // ---------- the traversal ----------

  function Keys(s: seq<Node>): (r: seq<int>)
    ensures |r| == |s| && forall k :: 0 <= k < |s| ==> r[k] == s[k].key
  {
    seq(|s|, k requires 0 <= k < |s| => s[k].key)
  }

  function Min(a: int, b: int): int { if a < b then a else b }

  /** `old` with `keys` written from position `cur` on, as far as they fit below `size`. */
  function Stored(old_: seq<int>, cur: int, size: int, keys: seq<int>): (r: seq<int>)
    requires 0 <= cur <= size <= |old_|
    ensures |r| == |old_|
  {
    var n := Min(|keys|, size - cur);
    old_[..cur] + keys[..n] + old_[cur + n..]
  }

  lemma StoreMore(o: seq<int>, cur: int, size: int, a: seq<int>, b: seq<int>)
    requires 0 <= cur <= size <= |o|
    ensures Stored(Stored(o, cur, size, a), Min(cur + |a|, size), size, b) == Stored(o, cur, size, a + b)
  {
  }

  /** `rbtree_mid_travel` with the callback that stores keys while there is room. */
  method Travel(tree: Tree, node: Node, values: array<int>, size: int, cur: int, ghost t: Shape) returns (cur': int)
    requires tree.Sync() && Linked(tree.mem, t, tree.nil) && t.Fork? && t.node == node && tree.nil !in Nodes(t)
    requires 0 <= cur <= size <= values.Length
    modifies values
    ensures cur' == Min(cur + |InOrder(t)|, size)
    ensures values[..] == Stored(old(values[..]), cur, size, Keys(InOrder(t)))
    decreases t
  {
    hide Stored, InOrder, Keys, Linked;
    KeysFork(t);
    WalkReads(tree, t);
    ghost var o, a, b := values[..], InOrder(t.left), InOrder(t.right);
    cur' := cur;
    if node.left != tree.nil {
      cur' := Travel(tree, node.left, values, size, cur', t.left);
    } else {
      StoreNone(o, cur, size);
    }
    StoreOne(values[..], cur', size, node.key);
    if cur' < size {
      values[cur'] := node.key;
      cur' := cur' + 1;
    }
    StoreMore(o, cur, size, Keys(a), [node.key]);
    assert values[..] == Stored(o, cur, size, Keys(a) + [node.key]);
    if node.right != tree.nil {
      cur' := Travel(tree, node.right, values, size, cur', t.right);
    } else {
      StoreNone(values[..], cur', size);
    }
    StoreMore(o, cur, size, Keys(a) + [node.key], Keys(b));
  }

  lemma KeysAppend(a: seq<Node>, b: seq<Node>)
    ensures Keys(a + b) == Keys(a) + Keys(b)
  {
  }

  lemma KeysFork(t: Shape)
    requires t.Fork?
    ensures Keys(InOrder(t)) == Keys(InOrder(t.left)) + [t.node.key] + Keys(InOrder(t.right))
    ensures t.left.Leaf? ==> Keys(InOrder(t.left)) == []
    ensures t.right.Leaf? ==> Keys(InOrder(t.right)) == []
  {
    var a, b := InOrder(t.left), InOrder(t.right);
    assert Keys([t.node]) == [t.node.key];
    hide InOrder, Keys;
    KeysAppend(a + [t.node], b);
    KeysAppend(a, [t.node]);
  }

  lemma WalkReads(tree: Tree, t: Shape)
    requires tree.Sync() && Linked(tree.mem, t, tree.nil) && t.Fork? && tree.nil !in Nodes(t)
    ensures tree.nil !in Nodes(t.left) && tree.nil !in Nodes(t.right)
    ensures Linked(tree.mem, t.left, tree.nil) && Linked(tree.mem, t.right, tree.nil)
    ensures t.node.left == Ref(t.left, tree.nil) && (t.left.Leaf? <==> t.node.left == tree.nil)
    ensures t.node.right == Ref(t.right, tree.nil) && (t.right.Leaf? <==> t.node.right == tree.nil)
  {
  }

  lemma StoreNone(o: seq<int>, cur: int, size: int)
    requires 0 <= cur <= size <= |o|
    ensures Stored(o, cur, size, []) == o
  {
  }

  lemma StoreOne(o: seq<int>, cur: int, size: int, key: int)
    requires 0 <= cur <= size <= |o|
    ensures Stored(o, cur, size, [key]) == if cur < size then o[cur := key] else o
  {
  }

  /** `conhash_get_vnodes`: the smallest keys in ascending order, as many as there is room for. */
  method GetVnodes(tree: Tree, values: array<int>, size: int)
    requires tree.Valid() && size <= values.Length
    modifies values
    ensures var n := if size <= 0 then 0 else Min(|tree.Seq()|, size);
      values[..n] == Keys(tree.Seq())[..n] && values[n..] == old(values[n..])
  {
    if size <= 0 { return; }
    AtRoot(tree.mem, Top, tree.shape, tree.E());
    if tree.root != tree.nil {
      var cur := Travel(tree, tree.root, values, size, 0, tree.shape);
    }
  }
}
