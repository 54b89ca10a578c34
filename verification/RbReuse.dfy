/** What happens to the tree of conhash/util_rbtree.c when the memory of a removed root is used again while
    the new root's parent pointer still names it. */
module RbReuse {
  import opened RbShape
  import opened RbTree

  /** The assignments of `util_rbtree_insert` that hang a node below `y` (conhash/util_rbtree.c:72-80). */
  method Hang(y: Node, node: Node, nil: Node)
    requires y != node
    modifies y, node
    ensures node.parent == y && node.left == nil && node.right == nil && node.red
    ensures y.right == node && y.left == old(y.left) && y.parent == old(y.parent) && y.red == old(y.red)
  {
    node.parent := y;
    y.right := node;
    node.left := nil;
    node.right := nil;
    node.red := true;
  }

  /** `rbtree_left_rotate` of the root. */
  method LeftRotateRoot(node: Node, rc: Node, nil: Node) returns (root: Node)
    requires node.right == rc && rc.left == nil && rc != node
    modifies node, rc
    ensures root == rc && rc.parent == old(node.parent)
    ensures node.parent == rc && rc.left == node && node.right == nil
    ensures node.left == old(node.left) && node.red == old(node.red) && rc.right == old(rc.right) && rc.red == old(rc.red)
  {
    rc.parent := node.parent;
    root := rc;
    node.parent := rc;
    rc.left := node;
    node.right := nil;
  }

  /** `r` is the only node, and its parent pointer names `x`, the root removed before.  The memory of `x`
      comes back as a new node and then two more are inserted, each with the greatest key so far.  Every
      branch that the source tests is asserted.  The red-red pair seems to reach beyond the root, and the
      tree ends unbalanced. */
  method InsertsAfterReuse(r: Node, x: Node, c: Node, d: Node, nil: Node) returns (root: Node)
    requires r != x && c !in {r, x} && d !in {r, x, c} && nil !in {r, x, c, d}
    requires r.key <= x.key <= c.key <= d.key
    requires r.left == nil && r.right == nil && r.parent == x && !r.red && !nil.red
    modifies r, x, c, d
    ensures root == c && c.left == x && c.right == d && x.left == r && x.right == nil
    ensures r.left == nil && r.right == nil && d.left == nil && d.right == nil
    ensures !c.red && x.red && !r.red && d.red
  {
    root := r;
    // the block of `x` is inserted: its parent is black, so nothing is fixed
    assert !(x.key < r.key) && r.right == nil;
    Hang(r, x, nil);
    assert !x.parent.red;
    root.red := false;
    // `c` goes below `x`: its parent is red, its uncle the sentinel, a rotation ends it
    assert !(c.key < r.key) && r.right == x && !(c.key < x.key) && x.right == nil;
    Hang(x, c, nil);
    assert c.parent.red;
    var p := c.parent;
    assert p != p.parent.left && !p.parent.left.red && p.left != c;
    p.red := false;
    r.red := true;
    root := LeftRotateRoot(r, x, nil);
    assert !c.parent.red;
    root.red := false;
    // now the root is its own parent
    assert root == x && x.parent == x;
    // `d` goes below `c`: case 1 makes the root red, and its parent then reads red
    assert !(d.key < x.key) && x.right == c && !(d.key < c.key) && c.right == nil;
    Hang(c, d, nil);
    assert d.parent.red;
    p := d.parent;
    assert p != p.parent.left && p.parent.left == r && r.red;
    r.red := false;
    p.red := false;
    x.red := true;
    // the loop goes on at the root, with the root as its own parent and grandparent
    assert x.parent.red;
    p := x.parent;
    assert p == x && p != p.parent.left && !p.parent.left.red && p.left != x;
    p.red := false;
    p.parent.red := true;
    root := LeftRotateRoot(x, c, nil);
    assert !x.parent.red;
    root.red := false;
  }

  /** The shape that this leaves is not balanced. */
  lemma Unbalanced(r: Node, x: Node, c: Node, d: Node, h: int)
    ensures !Balanced(Fork(Fork(Fork(Leaf, r, false, Leaf), x, true, Leaf), c, false, Fork(Leaf, d, true, Leaf)), h)
  {
    var l := Fork(Fork(Leaf, r, false, Leaf), x, true, Leaf);
    var t := Fork(l, c, false, Fork(Leaf, d, true, Leaf));
    assert Balanced(t, h) ==> Balanced(l, h - 1);
    assert Balanced(l, h - 1) ==> Balanced(l.left, h - 1) && Balanced(Leaf, h - 1);
    assert Balanced(l.left, h - 1) ==> Balanced(Leaf, h - 2);
  }

  /** A run that gets there, with keys 2 and 1 inserted and 2, the root, deleted. */
  method Reuse() returns (root: Node, r: Node, x: Node, c: Node, d: Node)
    ensures root == c && c.left == x && x.left == r && c.right == d && x.red && !r.red && d.red
    ensures x.right == r.left == r.right == d.left == d.right
  {
    var tree := new Tree();
    x := new Node(2, null);
    r := new Node(1, null);
    hide Tree.Valid, Tree.Seq;
    var defined, i := tree.Insert(x);
    tree.RootInSeq();
    assert tree.Seq() == [x];
    defined, i := tree.Insert(r);
    assert i == 0 && tree.Seq() == [r, x];
    i := tree.Delete(x);
    assert i == 1 && tree.Seq() == [r];
    tree.SingleNode();
    var nil := tree.nil;
    assert r.left == nil && r.right == nil && r.parent == x && !r.red && !nil.red;
    c := new Node(3, null);
    d := new Node(4, null);
    root := InsertsAfterReuse(r, x, c, d, nil);
  }
}
