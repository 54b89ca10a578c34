/** The red-black tree of conhash/util_rbtree.c on heap nodes with parent pointers and one
    shared sentinel. */
module RbTree {
  import opened RbShape
  import opened RbMemory
  import opened Sequences

  const U32 := 0x1_0000_0000

  /** A count as an unsigned 32-bit counter shows it. */
  function Wrap(n: int): nat { n % U32 }

  /** The counter is exact below 2^32, and starts again there. */
  lemma WrapIs(n: nat)
    ensures n < 0x1_0000_0000 ==> Wrap(n) == n
    ensures Wrap(n + 0x1_0000_0000) == Wrap(n)
  {
  }

  lemma WrapStep(n: int)
    ensures Wrap(Wrap(n) + 1) == Wrap(n + 1) && Wrap(Wrap(n) - 1) == Wrap(n - 1)
  {
  }

  /** An insertion or deletion: how many nodes it left, and whether it deleted the root of a tree of two. */
  datatype Change = Change(left: nat, rootOfTwo: bool)

  /** Some time the root of a tree of two nodes was deleted, and the tree has not been empty since. */
  ghost predicate RootDropped(past: seq<Change>) {
    exists i :: 0 <= i < |past| && past[i].rootOfTwo && forall j :: i <= j < |past| ==> past[j].left > 0
  }

  lemma RootDroppedStep(past: seq<Change>, c: Change)
    requires c.rootOfTwo ==> c.left > 0
    ensures RootDropped(past + [c]) <==> c.left > 0 && (c.rootOfTwo || RootDropped(past))
  {
    var next := past + [c];
    assert next[|past|] == c;
    if RootDropped(past) && c.left > 0 {
      var i :| 0 <= i < |past| && past[i].rootOfTwo && forall j :: i <= j < |past| ==> past[j].left > 0;
      assert next[i].rootOfTwo;
    }
    if RootDropped(next) && !c.rootOfTwo {
      var i :| 0 <= i < |next| && next[i].rootOfTwo && forall j :: i <= j < |next| ==> next[j].left > 0;
      assert past[i].rootOfTwo && forall j :: i <= j < |past| ==> past[j] == next[j];
    }
  }

  class Tree {
    var root: Node
    const nil: Node
    var size: nat
    /** Whether the node that the root's parent field names has been freed.  Not a field of the source, which
        cannot know: the model stops where the source would read that node. */
    var dangling: bool
    ghost var shape: Shape
    /** The sentinel and every node that was ever inserted and has not been freed. */
    ghost var nodes: set<Node>
    /** The nodes' fields as last recorded; `Sync` says that the record is up to date. */
    ghost var mem: Mem
    /** What the parent field of the root holds. */
    ghost var above: Node
    /** All insertions and deletions so far. */
    ghost var past: seq<Change>

    ghost predicate Sync()
      reads this, nodes
    {
      forall n :: n in mem ==> n in nodes && mem[n] == Cell(n.parent, n.left, n.right, n.red)
    }

    ghost function E(): Env
      reads this`root, this`above, this`dangling
    {
      Env(root, nil, above, !dangling)
    }

    ghost predicate Here(p: Path, t: Shape)
      reads this, nodes
    {
      Sync() && At(mem, p, t, E())
    }

    /** The nodes of the tree from the smallest key to the largest. */
    ghost function Seq(): seq<Node>
      reads this`shape
    {
      InOrder(shape)
    }

    /** The tree is a red-black search tree with a black root. */
    ghost predicate RedBlack()
      reads this`shape
    {
      Balanced(shape, BlackHeight(shape)) && !Red(shape) && Sorted(Seq())
    }

    /** What is above the root is the sentinel, unless the root of a tree of two was deleted. */
    ghost predicate Topped()
      reads this
    {
      && (above != nil <==> RootDropped(past)) && (Seq() == [] ==> above == nil)
      && (dangling ==> above !in nodes)
    }

    /** The tree is one, its links are right, and its size is counted in 32 bits. */
    ghost predicate Sound()
      reads this, nodes
    {
      Here(Top, shape) && RedBlack() && size == Wrap(|Seq()|)
    }

    ghost predicate Valid()
      reads this, nodes
    {
      Sound() && Topped()
    }

    /** The root's parent field names a removed node exactly when at some time the root of a tree of two
        nodes was deleted and the tree has not been empty since; otherwise it names the sentinel. */
    lemma RootParent()
      requires Valid()
      ensures root != nil ==> root.parent == above
      ensures above != nil <==> RootDropped(past)
      ensures above !in Seq() && (dangling <==> above !in nodes)
    {
      InOrderNodes(shape);
      Owned();
    }

    lemma Owned()
      requires Valid()
      ensures nil in nodes && nil !in Seq()
      ensures forall x :: x in Seq() ==> x in nodes
    {
      LinkedNodes(mem, shape, nil);
      InOrderNodes(shape);
      forall x | x in Seq() ensures x in nodes {
        InOrderMember(shape, x);
      }
    }

    lemma SoundRoot()
      requires Sound()
      ensures root == nil <==> Seq() == []
      ensures root != nil ==> root in Seq()
    {
    }

    /** The fields of a lonely root. */
    lemma SingleNode()
      requires Valid() && |Seq()| == 1
      ensures var r := Seq()[0];
        root == r && r.left == nil && r.right == nil && r.parent == above && !r.red && !nil.red && r != nil
    {
      var l, r := InOrder(shape.left), InOrder(shape.right);
      assert InOrder(shape) == l + [shape.node] + r;
      assert |l| == 0 && |r| == 0;
      assert shape.left.Leaf? && shape.right.Leaf? && Seq()[0] == shape.node;
    }

    lemma RootInSeq()
      requires Valid()
      ensures root == nil <==> Seq() == []
      ensures root != nil ==> root in Seq()
    {
      SoundRoot();
    }

    /** An empty tree (conhash/util_rbtree.c:25-33). */
    constructor ()
      ensures Valid() && Seq() == [] && !dangling
      ensures fresh(nodes) && nodes == {nil}
    {
      var n := new Node(0, null);
      n.red := false;
      nil := n;
      root := n;
      size := 0;
      above := n;
      dangling := false;
      nodes := {n};
      shape := Leaf;
      past := [];
      mem := map[n := Cell(n.parent, n.left, n.right, n.red)];
    }

    static function Kid(n: Node, s: Side): Node?
      reads n
    {
      if s.L? then n.left else n.right
    }

    // ---------- single assignments ----------

    method SetKid(n: Node, s: Side, k: Node?)
      requires Sync() && n in mem
      modifies n, this`mem
      ensures Sync() && mem == old(mem)[n := old(mem)[n].WithKid(s, k)]
    {
      if s.L? { n.left := k; } else { n.right := k; }
      mem := mem[n := mem[n].WithKid(s, k)];
    }

    method SetParent(n: Node, k: Node?)
      requires Sync() && n in mem
      modifies n, this`mem
      ensures Sync() && mem == old(mem)[n := old(mem)[n].(parent := k)]
    {
      n.parent := k;
      mem := mem[n := mem[n].(parent := k)];
    }

    method SetRed(n: Node, red: bool)
      requires Sync() && n in mem
      modifies n, this`mem
      ensures Sync() && mem == old(mem)[n := old(mem)[n].(red := red)]
    {
      n.red := red;
      mem := mem[n := mem[n].(red := red)];
    }

    // ---------- recolouring ----------

    method Paint(x: Node, red: bool, ghost p: Path, ghost t: Shape)
      requires Here(p, t) && t.Fork? && t.node == x
      modifies this`mem, x
      ensures Here(p, t.(red := red)) && Order(p, t.(red := red)) == Order(p, t)
      ensures nil in old(mem) && nil in mem && mem[nil] == old(mem)[nil]
    {
      Recolour(mem, p, t, E(), red);
      SetRed(x, red);
    }

    method PaintParent(x: Node, red: bool, ghost p: Path, ghost t: Shape)
      requires Here(p, t) && p.Step? && p.node == x
      modifies this`mem, x
      ensures Here(p.(red := red), t) && Order(p.(red := red), t) == Order(p, t)
      ensures nil in old(mem) && nil in mem && mem[nil] == old(mem)[nil]
    {
      RecolourParent(mem, p, t, E(), red);
      SetRed(x, red);
    }

    method PaintSibling(u: Node, red: bool, ghost p: Path, ghost t: Shape)
      requires Here(p, t) && p.Step? && p.sib.Fork? && p.sib.node == u
      modifies this`mem, u
      ensures Here(p.(sib := p.sib.(red := red)), t) && Order(p.(sib := p.sib.(red := red)), t) == Order(p, t)
      ensures nil in old(mem) && nil in mem && mem[nil] == old(mem)[nil]
    {
      RecolourSibling(mem, p, t, E(), red);
      SetRed(u, red);
    }

    /** The pointer that leads to `x`, a child pointer or `root`, leads to `y` from now on. */
    method Rehang(x: Node, y: Node, ghost p: Path)
      requires Sync() && Hung(mem, p, x, E())
      modifies this`root, this`mem, nodes
      ensures Sync() && mem == Redirected(old(mem), p, y)
      ensures E() == Rerooted(p, old(E()), y)
    {
      if x == root {
        root := y;
      } else if x.parent.left == x {
        SetKid(x.parent, L, y);
      } else {
        SetKid(x.parent, R, y);
      }
    }

    /** The assignments of a rotation. */
    method Turn(s: Side, x: Node, ghost p: Path, ghost y': Node, ghost b: Shape)
      requires Sync() && Pivot(mem, p, s, x, y', b, E())
      modifies this`root, this`mem, nodes
      ensures Sync() && mem == Spun(old(mem), p, s, x, y', b, old(E()))
      ensures E() == Rerooted(p, old(E()), y')
    {
      var y := Kid(x, s.Other());
      var z := Kid(y, s);
      assert y == y' && z == Ref(b, nil);
      hide Tree.Kid;
      SetParent(y, x.parent);
      assert Hung(mem, p, x, E());
      Rehang(x, y, p);
      Cross(s, x, y, z, b);
    }

    method Cross(s: Side, x: Node, y: Node, z: Node, ghost b: Shape)
      requires Sync() && x in mem && y in mem && x != y && z == Ref(b, nil)
      requires b.Fork? ==> b.node in mem && b.node != nil
      modifies this`mem, nodes
      ensures x in old(mem) && y in old(mem) && (b.Fork? ==> b.node in old(mem))
      ensures Sync() && mem == Crossed(old(mem), s, x, y, b, nil)
    {
      SetParent(x, y);
      SetKid(y, s, x);
      SetKid(x, s.Other(), z);
      if z != nil {
        SetParent(z, x);
      }
    }

    /** `rbtree_left_rotate` for side L, `rbtree_right_rotate` for side R: `x`'s child on the other
        side takes `x`'s place and `x` becomes its child on side `s`. */
    method Rotate(s: Side, x: Node, ghost p: Path, ghost t: Shape)
      requires Here(p, t) && t.Fork? && t.node == x && t.Sub(s.Other()).Fork?
      modifies this`root, this`mem, nodes
      ensures Here(p, Turned(s, t)) && Order(p, Turned(s, t)) == Order(p, t)
      ensures p.Step? ==> root == old(root)
      ensures nil in old(mem) && nil in mem && mem[nil] == old(mem)[nil]
    {
      ghost var e, m := E(), mem;
      ghost var u := t.Sub(s.Other());
      ghost var a, y, b, c := t.Sub(s), u.node, u.Sub(s), u.Sub(s.Other());
      assert t == Join(s, a, x, t.red, Join(s, b, y, u.red, c));
      AtPivot(mem, p, s, a, x, t.red, b, y, u.red, c, e);
      Turn(s, x, p, y, b);
      SpunRotated(m, p, s, x, y, b, e);
      RbMemory.Rotate(m, mem, p, s, a, x, t.red, b, y, u.red, c, e);
      RotateOrder(p, s, a, x, t.red, b, y, u.red, c);
    }

    // ---------- insertion ----------

    /** Case 1: parent and uncle red. */
    method Lift(n: Node, u: Node, ghost p: Path, ghost t: Shape) returns (g: Node)
      requires Here(p, t) && t.Fork? && t.node == n && p.Step? && p.up.Step? && p.up.sib.Fork? && u == p.up.sib.node
      modifies this`mem, nodes
      ensures g == p.up.node && Here(p.up.up, Lifted(p, t)) && Order(p.up.up, Lifted(p, t)) == Order(p, t)
    {
      hide At;
      LiftAt(mem, p, t, E());
      AtHung(mem, p, t, E());
      Ascend(mem, p, t, E());
      AtHung(mem, p.up, Join(p.side, t, p.node, p.red, p.sib), E());
      var q := n.parent;
      g := q.parent;
      SetRed(u, false);
      SetRed(q, false);
      SetRed(g, true);
      assert mem == LiftedMem(old(mem), p);
    }

    /** Case 3: parent red, uncle black, all on one side. */
    method Settle(s: Side, n: Node, ghost p: Path, ghost t: Shape)
      requires Here(p, t) && t.Fork? && t.node == n && p.Step? && p.up.Step? && p.side == p.up.side == s
      modifies this`root, this`mem, nodes
      ensures Here(Settled(p), t) && Order(Settled(p), t) == Order(p, t)
    {
      hide At, Order;
      LeanAt(mem, p, t, E());
      AtHung(mem, p, t, E());
      Ascend(mem, p, t, E());
      AtHung(mem, p.up, Join(p.side, t, p.node, p.red, p.sib), E());
      LeaningTurned(p, t);
      var q := n.parent;
      var g := q.parent;
      SetRed(q, false);
      SetRed(g, true);
      Rotate(s.Other(), g, p.up.up, Leaning(p, t));
      Ascend(mem, Settled(p), t, E());
    }

    /** Case 2: the node is on its parent's inner side. */
    method Unbend(s: Side, q: Node, ghost p: Path, ghost t: Shape)
      requires Here(p, t) && t.Fork? && p.Step? && p.node == q && p.side == s.Other()
      modifies this`root, this`mem, nodes
      ensures Here(UnbentPath(p, t), Unbent(p, t)) && Order(UnbentPath(p, t), Unbent(p, t)) == Order(p, t)
    {
      hide At, Order;
      Ascend(mem, p, t, E());
      UnbentTurned(p, t);
      Rotate(s, q, p.up, Join(p.side, t, p.node, p.red, p.sib));
      Ascend(mem, UnbentPath(p, t), Unbent(p, t), E());
    }

    /** One iteration of `rbtree_insert_fixup` with the parent a red `s` child. */
    method InsertStep(s: Side, n: Node, ghost p: Path, ghost t: Shape, ghost h: int)
      returns (n': Node, ghost p': Path, ghost t': Shape, ghost h': int)
      requires Here(p, t) && OneRed(p, t, h) && t.node == n && PathRed(p) && p.up.Step? && p.up.side == s
      modifies this`root, this`mem, nodes
      ensures Here(p', t') && OneRed(p', t', h') && t'.node == n'
      ensures Order(p', t') == Order(p, t) && Depth(p') < Depth(p)
      ensures h' + Blacks(p') == h + Blacks(p) && (Climbs(p') <==> Climbs(p))
    {
      hide At, Order, InOrder, Balanced, PathBalanced;
      Around(mem, p, t, E());
      Around(mem, p.up, Join(p.side, t, p.node, p.red, p.sib), E());
      var q := n.parent;
      var u := Kid(q.parent, s.Other());
      p', t', h' := p, t, h;
      if u.red {
        LiftedOneRed(p, t, h);
        n' := Lift(n, u, p, t);
        p', t', h' := p.up.up, Lifted(p, t), h + 1;
      } else {
        n' := n;
        if n == Kid(q, s.Other()) {
          UnbentOneRed(p, t, h);
          Unbend(s, q, p, t);
          p', t', n' := UnbentPath(p, t), Unbent(p, t), q;
        }
        SettledOneRed(p', t', h);
        Settle(s, n', p', t');
        p' := Settled(p');
      }
    }

    /** `rbtree_insert_fixup`.  The loop test reads the colour of the node's parent; `defined` is false when
        that has been freed, and then nothing is said of what follows. */
    method InsertFixup(n0: Node, ghost p0: Path, ghost t0: Shape, ghost h0: int) returns (defined: bool, ghost t': Shape)
      requires Here(p0, t0) && OneRed(p0, t0, h0) && t0.node == n0
      modifies this`root, this`mem, nodes
      ensures defined <==> !dangling || !Climbs(p0)
      ensures defined ==>
        && Here(Top, t') && InOrder(t') == Order(p0, t0)
        && Balanced(t', BlackHeight(t')) && !Red(t')
        && BlackHeight(t') == h0 + Blacks(p0) + (if Climbs(p0) then 1 else 0)
        && (!PathRed(p0) ==> root == old(root))
    {
      hide At, Order;
      var n := n0;
      ghost var p, t, h := p0, t0, h0;
      AboveReads(mem, p, t, E());
      AtRoot(mem, p, t, E());
      defined := n != root || !dangling;
      while defined && n.parent.red
        invariant Here(p, t) && OneRed(p, t, h) && t.node == n
        invariant Order(p, t) == Order(p0, t0)
        invariant h + Blacks(p) == h0 + Blacks(p0) && (Climbs(p) <==> Climbs(p0))
        invariant defined <==> p.Step? || !dangling
        invariant n.parent != null && (defined ==> n.parent.red == PathRed(p))
        invariant !PathRed(p0) ==> p == p0 && root == old(root)
        decreases Depth(p)
      {
        AboveReads(mem, p, t, E());
        var q := n.parent;
        if q == q.parent.left {
          n, p, t, h := InsertStep(L, n, p, t, h);
        } else {
          n, p, t, h := InsertStep(R, n, p, t, h);
        }
        AboveReads(mem, p, t, E());
        AtRoot(mem, p, t, E());
        defined := n != root || !dangling;
      }
      t' := t;
      if defined {
        t' := BlackenRoot(p, t, h);
      }
    }

    /** The last assignment of `rbtree_insert_fixup`. */
    method BlackenRoot(ghost p: Path, ghost t: Shape, ghost h: int) returns (ghost t': Shape)
      requires Here(p, t) && OneRed(p, t, h) && !PathRed(p)
      modifies this`mem, nodes
      ensures Here(Top, t') && InOrder(t') == Order(p, t)
      ensures Balanced(t', BlackHeight(t')) && !Red(t')
      ensures BlackHeight(t') == h + Blacks(p) + (if p.Top? then 1 else 0)
    {
      hide At, Order;
      OneRedBlackened(p, t, h);
      ToTop(mem, p, t, E());
      OrderPlug(p, t);
      AboveReads(mem, Top, Plug(p, t), E());
      AtRoot(mem, Top, Plug(p, t), E());
      Paint(root, false, Top, Plug(p, t));
      t' := Blacken(Plug(p, t));
      OrderPlug(Top, t');
    }

    /** The place where `util_rbtree_insert` hangs a node of key `key`: after every key that is not
        larger, before every key that is. */
    ghost predicate Slot(p: Path, key: int) {
      && (forall z :: z in Before(p) ==> z.key <= key)
      && (forall z :: z in After(p) ==> key < z.key)
      && (p.Step? ==> (p.side.L? <==> key < p.node.key))
    }

    /** The place that the descent from `t` comes to. */
    static ghost function Descent(p: Path, t: Shape, key: int): Path
      decreases t
    {
      if t.Leaf? then p else
      var s := if key < t.node.key then L else R;
      Descent(Step(p, s, t.node, t.red, t.Sub(s.Other())), t.Sub(s), key)
    }

    /** Inserting the key recolours all the way up to the root: the new place is below a red node with a red
        sibling, their parent again, and so on. */
    ghost predicate Reddens(key: int)
      reads this`shape
    {
      Climbs(Descent(Top, shape, key))
    }

    /** A black root with red leaves at most. */
    lemma Low()
      requires Valid()
      ensures 1 <= |Seq()| <= 2 ==> BlackHeight(shape) == 1
      ensures BlackHeight(shape) == 1 ==> 1 <= |Seq()| <= 3
    {
      if shape.Fork? {
        HeightNat(shape.left, BlackHeight(shape) - 1);
        BalancedHeight(shape, BlackHeight(shape));
        if BlackHeight(shape) >= 2 {
          Pow2Monotone(2, BlackHeight(shape));
          assert Pow2(2) == 4;
        } else {
          LowSide(shape.left);
          LowSide(shape.right);
        }
      }
    }

    lemma LowSide(t: Shape)
      requires Balanced(t, 0)
      ensures t.Fork? ==> t.red && t.left.Leaf? && t.right.Leaf?
      ensures |InOrder(t)| == if t.Leaf? then 0 else 1
    {
      if t.Fork? {
        HeightNat(t, 0);
        HeightNat(t.left, 0);
        HeightNat(t.right, 0);
      }
    }

    /** In a tree so low an insertion recolours up to the root exactly when there are three nodes. */
    lemma LowReddens(key: int)
      requires Valid() && BlackHeight(shape) == 1
      ensures Reddens(key) <==> |Seq()| == 3
    {
      var t := shape;
      LowSide(t.left);
      LowSide(t.right);
      assert |InOrder(t)| == |InOrder(t.left)| + 1 + |InOrder(t.right)|;
      var s := if key < t.node.key then L else R;
      var p, u := Step(Top, s, t.node, t.red, t.Sub(s.Other())), t.Sub(s);
      assert Descent(Top, t, key) == Descent(p, u, key);
      if u.Fork? {
        var s' := if key < u.node.key then L else R;
        var p' := Step(p, s', u.node, u.red, u.Sub(s'.Other()));
        assert Descent(p, u, key) == Descent(p', u.Sub(s'), key) == p';
        assert Climbs(p') <==> Red(p.sib) && Climbs(Top);
      }
    }

    lemma SlotTop(key: int)
      ensures Slot(Top, key)
    {
    }

    lemma SlotDown(p: Path, t: Shape, key: int)
      requires Slot(p, key) && t.Fork? && Sorted(Order(p, t))
      ensures var s := if key < t.node.key then L else R;
              Slot(Step(p, s, t.node, t.red, t.Sub(s.Other())), key)
    {
      SortedAround(p, t);
    }

    /** The descent of `util_rbtree_insert`. */
    method FindSlot(key: int) returns (y: Node, ghost p: Path)
      requires Sound() && root != nil
      ensures At(mem, p, Leaf, E()) && Slot(p, key) && p.Step? && y == p.node
      ensures Plug(p, Leaf) == shape && p == Descent(Top, shape, key)
    {
      hide At, Order, Before, After, Sorted;
      var x := root;
      y := root;
      ghost var t := shape;
      p := Top;
      AtRoot(mem, p, t, E());
      assert Slot(p, key) by { SlotTop(key); }
      while x != nil
        invariant At(mem, p, t, E()) && x == Ref(t, nil) && Slot(p, key)
        invariant p.Step? ==> y == p.node
        invariant (p.Top? ==> x == root) && (x == nil <==> t.Leaf?)
        invariant Plug(p, t) == shape && Descent(p, t, key) == Descent(Top, shape, key)
        decreases t
      {
        OrderPlug(p, t);
        SlotDown(p, t, key);
        y := x;
        var s := if key < x.key then L else R;
        Descend(mem, p, t, s, E());
        p, t := Step(p, s, t.node, t.red, t.Sub(s.Other())), t.Sub(s);
        Around(mem, p, t, E());
        x := Kid(x, s);
      }
    }

    /** `util_rbtree_insert`.  The node goes in after the nodes of the same or a smaller key; `i` is its
        position.  Null and the sentinel are ignored.  `defined` is false when the node above the root is read
        although it has been freed: exactly when it has, and the insertion recolours up to the root, which is
        when the black height grows. */
    method Insert(node: Node?) returns (defined: bool, ghost i: nat)
      requires Valid()
      requires node != null && node != nil ==> node !in Seq() && node != above
      modifies this`root, this`size, this`dangling, this`mem, this`above, this`shape, this`nodes, this`past, nodes, node
      ensures defined <==> node == null || node == nil || !old(dangling) || !old(Reddens(node.key))
      ensures defined ==>
        && Valid() && above == old(above) && dangling == old(dangling)
        && (|old(Seq())| == 1 ==> root == old(root))
      ensures node == null || node == nil ==> Seq() == old(Seq()) && nodes == old(nodes) && past == old(past)
      ensures defined && node != null && node != nil ==>
        && nodes == old(nodes) + {node} && past == old(past) + [Change(|Seq()|, false)]
        && i <= |old(Seq())| && Seq() == old(Seq())[..i] + [node] + old(Seq())[i..]
        && (forall k :: 0 <= k < i ==> old(Seq())[k].key <= node.key)
        && (forall k :: i <= k < |old(Seq())| ==> node.key < old(Seq())[k].key)
        && BlackHeight(shape) == old(BlackHeight(shape)) + (if old(Reddens(node.key)) then 1 else 0)
    {
      hide RootDropped, At, Balanced, Sorted, InOrder, Wrap, Climbs, BlackHeight;
      i, defined := 0, true;
      if node != null && node != nil {
        Owned();
        defined, i := InsertNode(node);
        if defined {
          RootDroppedStep(past, Change(|Seq()|, false));
          past := past + [Change(|Seq()|, false)];
        }
      }
    }

    method InsertNode(node: Node) returns (defined: bool, ghost i: nat)
      requires Sound() && node !in Seq() && node != above && node != nil && (Seq() == [] ==> !dangling)
      modifies this`root, this`size, this`dangling, this`mem, this`above, this`shape, this`nodes, nodes, node
      ensures defined <==> !old(dangling) || !old(Reddens(node.key))
      ensures above == if old(Seq()) == [] then nil else old(above)
      ensures dangling == old(dangling)
      ensures defined ==> Sound() && nodes == old(nodes) + {node}
      ensures defined && |old(Seq())| == 1 ==> root == old(root)
      ensures defined ==> i <= |old(Seq())| && Seq() == old(Seq())[..i] + [node] + old(Seq())[i..]
      ensures defined ==> forall k :: 0 <= k < i ==> old(Seq())[k].key <= node.key
      ensures defined ==> forall k :: i <= k < |old(Seq())| ==> node.key < old(Seq())[k].key
      ensures defined ==> BlackHeight(shape) == old(BlackHeight(shape)) + (if old(Reddens(node.key)) then 1 else 0)
    {
      hide At, Order, InOrder, Before, After, Nodes, PathNodes, Balanced, PathBalanced, Sorted, Wrap, Climbs, BlackHeight;
      ghost var p: Path := Top;
      ghost var s := Seq();
      var y := nil;
      AtRoot(mem, Top, shape, E());
      SoundRoot();
      if root == nil {
        SlotTop(node.key);
      } else {
        y, p := FindSlot(node.key);
        Around(mem, p, Leaf, E());
      }
      OrderPlug(p, Leaf);
      i := SlotOrder(p, node, s);
      SlotFits(p, node);
      LonelyParent(p);
      defined := Attach(node, y, p);
      size := Wrap(size + 1);
      WrapStep(|s|);
    }

    lemma OnPath(p: Path)
      ensures p.Step? ==> p.node in PathNodes(p)
    {
    }

    /** Hangs the node at its place and restores the colours. */
    method Attach(node: Node, y: Node, ghost p: Path) returns (defined: bool)
      requires Here(p, Leaf) && OneRed(p, Fork(Leaf, node, true, Leaf), 0)
      requires node != nil && node != above && node !in PathNodes(p) && (p.Top? ==> y == nil && !dangling)
      requires p.Step? ==> y == p.node && (p.side.L? <==> node.key < y.key)
      modifies this`root, this`dangling, this`mem, this`above, this`shape, this`nodes, nodes, node
      ensures nodes == old(nodes) + {node} && dangling == old(dangling)
      ensures above == if p.Top? then nil else old(above)
      ensures defined <==> !dangling || !Climbs(p)
      ensures defined ==>
        && Here(Top, shape) && InOrder(shape) == Before(p) + [node] + After(p)
        && Balanced(shape, BlackHeight(shape)) && !Red(shape)
        && BlackHeight(shape) == Blacks(p) + (if Climbs(p) then 1 else 0)
        && (!PathRed(p) && p.Step? ==> root == old(root))
    {
      hide At, Order, InOrder, Before, After, PathNodes, Balanced, PathBalanced, Climbs, BlackHeight, Blacks, OneRed;
      OnPath(p);
      ghost var m, e := mem, E();
      AtRoot(mem, p, Leaf, e);
      if p.Step? { Around(mem, p, Leaf, e); }
      Link(node, y, p);
      GraftAt(m, mem, p, node, e);
      defined, shape := InsertFixup(node, p, Fork(Leaf, node, true, Leaf), 0);
    }

    /** Below the only node of a tree. */
    lemma LonelyParent(p: Path)
      requires !Red(Plug(p, Leaf))
      ensures |InOrder(Plug(p, Leaf))| == 1 ==> !PathRed(p)
    {
      if p.Step? && p.up.Step? {
        OrderPlug(p, Leaf);
        assert |Before(p.up)| + |After(p.up)| >= 1;
        assert |Before(p)| + |After(p)| >= 2;
      }
    }

    /** What the node's place means for the order. */
    lemma SlotOrder(p: Path, x: Node, s: seq<Node>) returns (i: nat)
      requires Slot(p, x.key) && Sorted(s) && Order(p, Leaf) == s && x !in s
      ensures x !in PathNodes(p) && (p.Step? ==> p.node != x)
      ensures i <= |s| && Before(p) + [x] + After(p) == s[..i] + [x] + s[i..] && Sorted(s[..i] + [x] + s[i..])
      ensures forall k :: 0 <= k < i ==> s[k].key <= x.key
      ensures forall k :: i <= k < |s| ==> x.key < s[k].key
    {
      OrderNodes(p, Leaf);
      i := |Before(p)|;
      assert s == Before(p) + After(p);
      assert s[..i] == Before(p) && s[i..] == After(p);
      InsertSorted(Before(p), x, After(p));
    }

    /** Links a new red node below `y`, or as the root of an empty tree. */
    method Link(node: Node, y: Node, ghost p: Path)
      requires Sync() && (p.Top? <==> root == nil) && node != nil && (p.Top? ==> y == nil)
      requires p.Step? ==> y == p.node && y in mem && y != node && (p.side.L? <==> node.key < y.key)
      modifies this`root, this`dangling, this`mem, this`above, this`nodes, nodes, node
      ensures nodes == old(nodes) + {node}
      ensures Sync() && Grafted(old(mem), mem, p, node, nil)
      ensures E() == if p.Top? then Env(node, nil, nil, true) else old(E())
    {
      NewLeaf(node, y);
      if root == nil {
        root := node;
        above := nil;
        dangling := false;
      } else if node.key < y.key {
        SetKid(y, L, node);
      } else {
        SetKid(y, R, node);
      }
    }

    method NewLeaf(node: Node, y: Node)
      requires Sync()
      modifies this`mem, this`nodes, node
      ensures nodes == old(nodes) + {node}
      ensures Sync() && mem == old(mem)[node := Cell(y, nil, nil, true)]
    {
      node.parent := y;
      node.left := nil;
      node.right := nil;
      node.red := true;
      nodes := nodes + {node};
      mem := mem[node := Cell(y, nil, nil, true)];
    }

    // ---------- deletion ----------

    /** `Here`, and the node's parent field is right even when the node is the sentinel. */
    ghost predicate Hangs(p: Path, t: Shape)
      reads this, nodes
    {
      Here(p, t) && (p.Step? ==> Ref(t, nil) in mem && mem[Ref(t, nil)].parent == p.node)
    }

    /** Case 1 of `rbtree_delete_fixup`: the sibling `w` is red. */
    method RedSibling(s: Side, n: Node, w: Node, ghost p: Path, ghost t: Shape)
      requires Hangs(p, t) && n == Ref(t, nil) && p.Step? && p.side == s && p.sib.Fork? && p.sib.node == w
      modifies this`root, this`mem, nodes
      ensures Hangs(Nearer(p), t) && Order(Nearer(p), t) == Order(p, t)
    {
      hide At, Order;
      Around(mem, p, t, E());
      var x := n.parent;
      PaintSibling(w, false, p, t);
      ghost var p1 := p.(sib := p.sib.(red := false));
      PaintParent(x, true, p1, t);
      ghost var p2 := p1.(red := true);
      Around(mem, p2, t, E());
      Ascend(mem, p2, t, E());
      Rotate(s, n.parent, p2.up, Join(s, t, x, true, p2.sib));
      NearerTurned(p, t);
      Ascend(mem, Nearer(p), t, E());
      Ascend(mem, Nearer(p).up, Join(s, t, x, true, Nearer(p).sib), E());
      Around(mem, Nearer(p), t, E());
    }

    /** Case 2: the black sibling `w` has two black children. */
    method BlackNephews(n: Node, w: Node, ghost p: Path, ghost t: Shape) returns (x: Node)
      requires Hangs(p, t) && n == Ref(t, nil) && p.Step? && p.sib.Fork? && p.sib.node == w
      modifies this`mem, nodes
      ensures var t' := Join(p.side, t, p.node, p.red, p.sib.(red := true));
        Hangs(p.up, t') && x == p.node == t'.node && Order(p.up, t') == Order(p, t)
    {
      hide At, Order;
      Around(mem, p, t, E());
      PaintSibling(w, true, p, t);
      ghost var p1 := p.(sib := p.sib.(red := true));
      Ascend(mem, p1, t, E());
      AboveReads(mem, p1.up, Join(p.side, t, p.node, p.red, p1.sib), E());
      Around(mem, p1, t, E());
      x := n.parent;
    }

    /** Case 3: of the sibling's children only the near one is red. */
    method NearNephew(s: Side, n: Node, w: Node, ghost p: Path, ghost t: Shape)
      requires Hangs(p, t) && n == Ref(t, nil) && p.Step? && p.side == s
      requires p.sib.Fork? && p.sib.node == w && p.sib.Sub(s).Fork?
      modifies this`root, this`mem, nodes
      ensures Hangs(Straight(p), t) && Order(Straight(p), t) == Order(p, t)
    {
      hide At, Order;
      Around(mem, p, t, E());
      ghost var pw, u := Step(p.up, s.Other(), p.node, p.red, t), p.sib;
      Across(mem, p, t, E());
      ghost var pv, v := Step(pw, s, u.node, u.red, u.Sub(s.Other())), u.Sub(s);
      Descend(mem, pw, u, s, E());
      Around(mem, pv, v, E());
      Paint(Kid(w, s), false, pv, v);
      PaintParent(w, true, pv, v.(red := false));
      ghost var pv2 := pv.(red := true);
      Ascend(mem, pv2, v.(red := false), E());
      ghost var u2 := Join(s, v.(red := false), u.node, true, u.Sub(s.Other()));
      Rotate(s.Other(), w, pw, u2);
      Across(mem, pw, Turned(s.Other(), u2), E());
      Around(mem, Straight(p), t, E());
    }

    /** The recolouring of case 4. */
    method FarColours(s: Side, n: Node, w: Node, ghost p: Path, ghost t: Shape)
      requires Hangs(p, t) && n == Ref(t, nil) && p.Step? && p.side == s
      requires p.sib.Fork? && p.sib.node == w && p.sib.Sub(s.Other()).Fork?
      modifies this`mem, nodes
      ensures Here(Coloured(p), t) && Order(Coloured(p), t) == Order(p, t) && n.parent == p.node
    {
      hide At, Order;
      Around(mem, p, t, E());
      var x := n.parent;
      PaintSibling(w, x.red, p, t);
      ghost var p1 := p.(sib := p.sib.(red := p.red));
      PaintParent(n.parent, false, p1, t);
      PaintFar(s, w, p1.(red := false), t);
      Around(mem, Coloured(p), t, E());
    }

    /** The sibling's far child becomes black. */
    method PaintFar(s: Side, w: Node, ghost p: Path, ghost t: Shape)
      requires Here(p, t) && p.Step? && p.side == s
      requires p.sib.Fork? && p.sib.node == w && p.sib.Sub(s.Other()).Fork?
      modifies this`mem, nodes
      ensures var u := p.sib;
        var p' := p.(sib := Join(s.Other(), Blacken(u.Sub(s.Other())), u.node, u.red, u.Sub(s)));
        Here(p', t) && Order(p', t) == Order(p, t)
      ensures nil in old(mem) && nil in mem && mem[nil] == old(mem)[nil]
    {
      hide At, Order;
      ghost var pw, u := Step(p.up, s.Other(), p.node, p.red, t), p.sib;
      Across(mem, p, t, E());
      ghost var pv, v := Step(pw, s.Other(), u.node, u.red, u.Sub(s)), u.Sub(s.Other());
      Descend(mem, pw, u, s.Other(), E());
      Around(mem, pv, v, E());
      Paint(Kid(w, s.Other()), false, pv, v);
      Ascend(mem, pv, v.(red := false), E());
      Across(mem, pw, Join(s.Other(), v.(red := false), u.node, u.red, u.Sub(s)), E());
    }

    /** Case 4: the sibling's far child is red. */
    method FarNephew(s: Side, n: Node, w: Node, ghost p: Path, ghost t: Shape)
      requires Hangs(p, t) && n == Ref(t, nil) && p.Step? && p.side == s
      requires p.sib.Fork? && p.sib.node == w && p.sib.Sub(s.Other()).Fork?
      modifies this`root, this`mem, nodes
      ensures Here(p.up, Filled(p, t)) && Order(p.up, Filled(p, t)) == Order(p, t)
    {
      hide At, Order;
      FarColours(s, n, w, p, t);
      ghost var q := Coloured(p);
      Ascend(mem, q, t, E());
      FilledTurned(p, t);
      Rotate(s, n.parent, p.up, Join(s, t, p.node, false, q.sib));
    }

    /** One iteration of `rbtree_delete_fixup` with the node an `s` child. */
    method DeleteStep(s: Side, n: Node, ghost p0: Path, ghost t: Shape, ghost h: int)
      returns (n': Node, ghost p': Path, ghost t': Shape, ghost h': int)
      requires Hangs(p0, t) && n == Ref(t, nil) && Short(p0, t, h) && !Red(t) && p0.Step? && p0.side == s
      modifies this`root, this`mem, nodes
      ensures Hangs(p', t') && n' == Ref(t', nil) && Short(p', t', h') && t'.Fork?
      ensures Order(p', t') == Order(p0, t)
      ensures Depth(p') < Depth(p0) || (Depth(p') == Depth(p0) && Red(t'))
    {
      hide At, Order, Short, InOrder;
      ghost var p := p0;
      Around(mem, p, t, E());
      ShortSibling(p, t, h);
      var w := Kid(n.parent, s.Other());
      if w.red {
        NearerShort(p, t, h);
        RedSibling(s, n, w, p, t);
        p := Nearer(p);
        Around(mem, p, t, E());
        w := Kid(n.parent, s.Other());
      }
      Nephews(mem, p, t, E());
      if !w.left.red && !w.right.red {
        h' := HandedUp(p, t, h);
        t' := Join(p.side, t, p.node, p.red, p.sib.(red := true));
        n' := BlackNephews(n, w, p, t);
        p' := p.up;
      } else {
        n', t', h' := Repair(s, n, w, p, t, h);
        p' := Top;
      }
    }

    /** Cases 3 and 4; `n'` is the root, to end the loop. */
    method Repair(s: Side, n: Node, w0: Node, ghost p0: Path, ghost t: Shape, ghost h: int)
      returns (n': Node, ghost t': Shape, ghost h': int)
      requires Hangs(p0, t) && n == Ref(t, nil) && Short(p0, t, h) && !Red(t) && p0.Step? && p0.side == s
      requires p0.sib.Fork? && !Red(p0.sib) && w0 == p0.sib.node && (Red(p0.sib.left) || Red(p0.sib.right))
      modifies this`root, this`mem, nodes
      ensures Hangs(Top, t') && n' == Ref(t', nil) && Short(Top, t', h') && t'.Fork?
      ensures Order(Top, t') == Order(p0, t)
    {
      hide At, Order, Short, InOrder, Balanced;
      ghost var p := p0;
      Nephews(mem, p, t, E());
      var w := w0;
      if !Kid(w, s.Other()).red {
        StraightShort(p, t, h);
        NearNephew(s, n, w, p, t);
        p := Straight(p);
        Around(mem, p, t, E());
        w := Kid(n.parent, s.Other());
      }
      FilledBalanced(p, t, h);
      FarNephew(s, n, w, p, t);
      t' := Plug(p.up, Filled(p, t));
      h' := BlackHeight(t');
      ToTop(mem, p.up, Filled(p, t), E());
      OrderPlug(p.up, Filled(p, t));
      OrderPlug(Top, t');
      PlugFork(p.up, Filled(p, t));
      ShortTop(t', h');
      AtRoot(mem, Top, t', E());
      n' := root;
    }

    /** `rbtree_delete_fixup`; the node may be the sentinel at first. */
    method DeleteFixup(n0: Node, ghost p0: Path, ghost t0: Shape, ghost h0: int) returns (ghost t': Shape)
      requires Hangs(p0, t0) && n0 == Ref(t0, nil) && Short(p0, t0, h0) && p0.Step?
      modifies this`root, this`mem, nodes
      ensures Here(Top, t') && InOrder(t') == Order(p0, t0)
      ensures Balanced(t', BlackHeight(t')) && !Red(t')
    {
      hide At, Order, Short, InOrder, Balanced;
      var n := n0;
      ghost var p, t, h := p0, t0, h0;
      FocusReads(mem, p, t, E());
      while n != root && !n.red
        invariant Hangs(p, t) && n == Ref(t, nil) && Short(p, t, h) && (p.Step? || t.Fork?)
        invariant (n == root <==> p.Top?) && n in mem && n.red == Red(t)
        invariant Order(p, t) == Order(p0, t0)
        decreases Depth(p), if Red(t) then 0 else 1
      {
        ShortSibling(p, t, h);
        Around(mem, p, t, E());
        if n == n.parent.left {
          n, p, t, h := DeleteStep(L, n, p, t, h);
        } else {
          n, p, t, h := DeleteStep(R, n, p, t, h);
        }
        FocusReads(mem, p, t, E());
      }
      ShortBlackened(p, t, h);
      Paint(n, false, p, t);
      t' := Plug(p, Blacken(t));
      ToTop(mem, p, Blacken(t), E());
      OrderPlug(p, Blacken(t));
    }

    method ClearLinks(node: Node)
      requires Sync() && node in mem
      modifies node, this`mem
      ensures Sync() && mem == old(mem)[node := Cell(null, null, null, old(mem)[node].red)]
    {
      node.left := null;
      node.right := null;
      node.parent := null;
      mem := mem[node := Cell(null, null, null, node.red)];
    }

    ghost predicate Cleared(node: Node)
      reads node
    {
      node.left == null && node.right == null && node.parent == null
    }

    /** `rbt_clear_node`, on a node that has left the tree. */
    method Clear(node: Node, ghost p: Path, ghost t: Shape)
      requires Hangs(p, t) && node in mem && node !in Nodes(t) && node !in PathNodes(p) && node != nil
      modifies this`mem, node
      ensures Hangs(p, t) && Cleared(node)
    {
      hide At, Nodes, PathNodes;
      ghost var m := mem;
      ClearLinks(node);
      FrameAt(m, mem, p, t, E());
      if p.Step? { Around(mem, p, t, E()); }
    }

    /** `subst` takes `temp`'s place below its parent.  When that parent is the node to be deleted, the
        parent field of `subst` names `temp`, which is about to take that node's place. */
    method Unhook(temp: Node, node: Node, subst: Node, ghost p: Path)
      requires Sync() && Hung(mem, p, temp, E()) && p.Step? && subst in mem && subst != p.node && subst != temp
      modifies this`mem, nodes
      ensures Sync() && Spliced(old(mem), mem, p, subst, if p.node == node then temp else p.node)
    {
      if temp.parent == node {
        SetParent(subst, temp);
      } else {
        SetParent(subst, temp.parent);
      }
      if temp == temp.parent.left {
        SetKid(temp.parent, L, subst);
      } else {
        SetKid(temp.parent, R, subst);
      }
    }

    method CopyLinks(temp: Node, node: Node)
      requires Sync() && temp in mem && node in mem
      modifies temp, this`mem
      ensures Sync() && mem == old(mem)[temp := old(mem)[node].(parent := old(mem)[temp].parent)]
    {
      temp.right := node.right;
      temp.left := node.left;
      temp.red := node.red;
      mem := mem[temp := mem[node].(parent := mem[temp].parent)];
    }

    /** `temp`, already taken out, takes `node`'s place, links and colour. */
    method TakePlace(temp: Node, node: Node, ghost p: Path, ghost l: Shape, ghost c: bool, ghost r: Shape)
      requires Sync() && Hung(mem, p, node, E()) && Spread(mem, p, l, node, r, temp, E())
      requires mem[node] == Cell(Parent(p, E()), Ref(l, nil), Ref(r, nil), c)
      modifies this`root, this`mem, nodes
      ensures Sync() && mem == Taken(old(mem), p, l, node, r, temp, old(E()))
      ensures E() == Rerooted(p, old(E()), temp)
    {
      SetParent(temp, node.parent);
      Rehang(node, temp, p);
      CopyLinks(temp, node);
      assert mem[temp] == Cell(Parent(p, old(E())), Ref(l, nil), Ref(r, nil), c);
      Adopt(temp, l, r);
    }

    /** The children of `x` get it for a parent. */
    method Adopt(x: Node, ghost l: Shape, ghost r: Shape)
      requires Sync() && x in mem && mem[x].left == Ref(l, nil) && mem[x].right == Ref(r, nil)
      requires l.Fork? ==> l.node in mem && l.node != nil && l.node != x
      requires r.Fork? ==> r.node in mem && r.node != nil && r.node != x
      modifies this`mem, nodes
      ensures (l.Fork? ==> l.node in old(mem)) && (r.Fork? ==> r.node in old(mem))
      ensures Sync() && mem == Reparented(Reparented(old(mem), l, x), r, x)
    {
      if x.left != nil {
        SetParent(x.left, x);
      }
      if x.right != nil {
        SetParent(x.right, x);
      }
    }

    /** `temp` is `node` itself, with at most one child. */
    method TakeOut(s: Side, node: Node, subst: Node, ghost p: Path, ghost c: bool, ghost sub: Shape)
      requires Here(p, Join(s, Leaf, node, c, sub)) && subst == Ref(sub, nil) && p.Step?
      modifies this`mem, nodes
      ensures Hangs(p, sub)
      ensures node in mem && node !in Nodes(sub) && node !in PathNodes(p) && node != nil
    {
      hide Order;
      ghost var m, e := mem, E();
      AtHung(m, p, Join(s, Leaf, node, c, sub), e);
      JoinLinked(m, s, Leaf, node, c, sub, nil);
      JoinNodes(s, Leaf, node, c, sub);
      assert p.node in PathNodes(p);
      Unhook(node, node, subst, p);
      SpliceAt(m, mem, p, s, node, c, sub, e);
    }

    /** `temp` is the successor of `node`, which has two children. */
    method TakeOutSuccessor(node: Node, temp: Node, subst: Node,
        ghost p: Path, ghost l: Shape, ghost c: bool, ghost q: Path, ghost cy: bool, ghost sub: Shape)
      requires Here(p, Fork(l, node, c, Plug(q, Fork(Leaf, temp, cy, sub)))) && subst == Ref(sub, nil)
      modifies this`root, this`mem, nodes
      ensures Hangs(SuccPath(p, l, temp, c, q), sub)
      ensures node in mem && node !in Nodes(sub) && node !in PathNodes(SuccPath(p, l, temp, c, q)) && node != nil
    {
      hide At, Order, Loose, Nodes, PathNodes, Taken, Replaced;
      ghost var m, e, r := mem, E(), Plug(q, sub);
      SuccAt(m, p, l, node, c, q, Fork(Leaf, temp, cy, sub), e);
      SuccReads(m, p, l, node, c, q, temp, cy, sub, e);
      Unhook(temp, node, subst, SuccPath(p, l, node, c, q));
      ghost var m1 := mem;
      SpliceSucc(m, m1, p, l, node, c, q, temp, cy, sub, e);
      LooseReads(m1, p, l, node, c, r, temp, e);
      TakePlace(temp, node, p, l, c, r);
      TakenReplaced(m1, p, l, node, c, r, temp, e);
      SuccDone(m1, mem, p, l, node, c, q, temp, sub, e);
    }

    /** `util_rbsubtree_min`: null on the sentinel, else the end of the left spine, `steps` nodes long. */
    method SubtreeMin(node0: Node, ghost p: Path, ghost t: Shape)
      returns (r: Node?, ghost q: Path, ghost u: Shape, ghost steps: nat)
      requires Sync() && At(mem, p, t, E()) && node0 == Ref(t, nil)
      ensures r == null <==> node0 == nil
      ensures r != null ==> t == Plug(q, u) && u.Fork? && u.node == r && u.left.Leaf? && Before(q) == []
      ensures steps <= Height(t)
    {
      hide At;
      q, u, steps := Top, t, 0;
      FocusReads(mem, p, t, E());
      AtNil(mem, p, t, E());
      if node0 == nil { return null, q, u, 0; }
      var node := node0;
      KidReads(mem, p, t, E());
      while node.left != nil
        invariant At(mem, Over(p, q), u, E()) && u.Fork? && u.node == node
        invariant t == Plug(q, u) && Before(q) == [] && steps + Height(u) <= Height(t)
        invariant node.left == Ref(u.left, nil) && (u.left.Leaf? <==> node.left == nil)
        decreases u
      {
        Descend(mem, Over(p, q), u, L, E());
        q, u := Step(q, L, u.node, u.red, u.right), u.left;
        node := node.left;
        steps := steps + 1;
        KidReads(mem, Over(p, q), u, E());
      }
      steps := steps + 1;
      r := node;
    }

    /** The root has at most one child and goes: `temp == root`. */
    method DropRoot(s: Side, node: Node, subst: Node, ghost c: bool, ghost sub: Shape)
      requires Here(Top, Join(s, Leaf, node, c, sub)) && subst == Ref(sub, nil) && !c
      modifies this`root, this`dangling, this`above, this`mem, nodes
      ensures Here(Top, Blacken(sub))
      ensures above == (if sub.Leaf? then nil else node) && (sub.Fork? ==> root.parent == node) && !dangling
      ensures Cleared(node)
    {
      ghost var m, e := mem, E();
      JoinLinked(m, s, Leaf, node, c, sub, nil);
      JoinNodes(s, Leaf, node, c, sub);
      DroppedAt(m, s, node, sub, e);
      root := subst;
      above := if sub.Leaf? then nil else node;
      dangling := false;
      RecolourAny(mem, sub, E());
      SetRed(subst, false);
      Clear(node, Top, Blacken(sub));
    }

    /** The end of the deletion: a removed red node leaves nothing to fix. */
    method Mend(isBlack: bool, subst: Node, ghost p: Path, ghost sub: Shape)
      requires Hangs(p, sub) && subst == Ref(sub, nil) && p.Step?
      requires if isBlack then Short(p, sub, 0) else sub.Leaf? && PathBalanced(p, 0)
      modifies this`root, this`mem, this`shape, nodes
      ensures Here(Top, shape) && Balanced(shape, BlackHeight(shape)) && !Red(shape)
      ensures InOrder(shape) == Order(p, sub)
    {
      hide At, Order, Balanced, PathBalanced, Short;
      if isBlack {
        shape := DeleteFixup(subst, p, sub, 0);
      } else {
        ToTop(mem, p, Leaf, E());
        OrderPlug(p, Leaf);
        ghost var H := PlugBalanced(p, Leaf, 0);
        shape := Plug(p, Leaf);
        BlackHeightUnique(shape, H);
      }
    }

    /** The node that has left the tree is cleared, and then the tree is mended without it. */
    method ClearAndMend(node: Node, isBlack: bool, subst: Node, ghost p: Path, ghost sub: Shape)
      requires Hangs(p, sub) && subst == Ref(sub, nil) && p.Step?
      requires if isBlack then Short(p, sub, 0) else sub.Leaf? && PathBalanced(p, 0)
      requires node in mem && node in nodes && node !in Nodes(sub) && node !in PathNodes(p) && node != nil
      requires !dangling ==> node != above
      modifies this`root, this`mem, this`nodes, this`shape, nodes
      ensures nodes == old(nodes) && Cleared(node)
      ensures Here(Top, shape) && Balanced(shape, BlackHeight(shape)) && !Red(shape)
      ensures InOrder(shape) == Order(p, sub)
    {
      hide At, Order, Balanced, PathBalanced, Short, Nodes, PathNodes, InOrder, BlackHeight, Tree.Hangs, Tree.Here;
      Detach(node, p, sub);
      Mend(isBlack, subst, p, sub);
      Record(node);
    }

    ghost method Record(node: Node)
      requires Here(Top, shape) && node !in nodes && Cleared(node)
      modifies this`mem, this`nodes
      ensures Here(Top, shape) && nodes == old(nodes) + {node}
    {
      hide At;
      RecordedAt(mem, Top, shape, E(), node, Cell(null, null, null, node.red));
      nodes, mem := nodes + {node}, mem[node := Cell(null, null, null, node.red)];
    }

    method Detach(node: Node, ghost p: Path, ghost sub: Shape)
      requires Hangs(p, sub) && node in mem && node !in Nodes(sub) && node !in PathNodes(p) && node != nil
      requires !dangling ==> node != above
      modifies this`mem, this`nodes, node
      ensures Hangs(p, sub) && Cleared(node) && node in old(nodes) && nodes == old(nodes) - {node}
    {
      hide At, Nodes, PathNodes;
      Clear(node, p, sub);
      SubstStays(sub, node);
      FreedAt(mem, p, sub, E(), node);
      nodes, mem := nodes - {node}, mem - {node};
    }

    lemma SubstStays(sub: Shape, node: Node)
      requires node !in Nodes(sub) && node != nil
      ensures Ref(sub, nil) != node
    {
    }

    /** The node above the root is not in the tree. */
    lemma NotAbove(p: Path, t: Shape)
      requires Here(p, t) && t.Fork?
      ensures !dangling ==> t.node != above
    {
    }

    /** Deleting a node with at most one child, `subst`. */
    method DeleteSlim(s: Side, node: Node, subst: Node, ghost p: Path, ghost t: Shape)
      requires Here(p, t) && Plug(p, t) == shape && t.Fork? && t.node == node
      requires Balanced(shape, BlackHeight(shape)) && !Red(shape)
      requires t.Sub(s).Leaf? && subst == Ref(t.Sub(s.Other()), nil)
      modifies this`root, this`dangling, this`above, this`mem, this`nodes, this`shape, nodes
      ensures nodes == old(nodes) && Cleared(node)
      ensures Here(Top, shape) && Balanced(shape, BlackHeight(shape)) && !Red(shape)
      ensures InOrder(shape) == Before(p) + (InOrder(t.left) + InOrder(t.right)) + After(p)
      ensures above == if node != old(root) then old(above) else if t.Sub(s.Other()).Leaf? then nil else node
      ensures dangling == (old(dangling) && node != old(root))
      ensures node == old(root) ==> |InOrder(t)| == if t.Sub(s.Other()).Leaf? then 1 else 2
      ensures node == old(root) ==> p.Top?
    {
      hide At, Order, Balanced, PathBalanced, Short, Linked, Nodes, PathNodes;
      ghost var sub, c := t.Sub(s.Other()), t.red;
      assert t == Join(s, Leaf, node, c, sub);
      SlimOrder(p, s, node, c, sub);
      UnhookedBalanced(p, s, node, c, sub);
      FocusReads(mem, p, t, E());
      KidReads(mem, p, t, E());
      NotAbove(p, t);
      if node == root {
        SlimRoot(t, s);
        OrderPlug(Top, Blacken(sub));
        DropRoot(s, node, subst, c, sub);
        shape := Blacken(sub);
      } else {
        var isBlack := !node.red;
        TakeOut(s, node, subst, p, c, sub);
        ClearAndMend(node, isBlack, subst, p, sub);
      }
    }

    /** Deleting a node with two children: its successor takes its place. */
    method DeleteFull(node: Node, ghost p: Path, ghost t: Shape)
      requires Here(p, t) && Plug(p, t) == shape && t.Fork? && t.node == node
      requires Balanced(shape, BlackHeight(shape)) && !Red(shape)
      requires t.left.Fork? && t.right.Fork?
      modifies this`root, this`mem, this`nodes, this`shape, nodes
      ensures nodes == old(nodes) && Cleared(node)
      ensures Here(Top, shape) && Balanced(shape, BlackHeight(shape)) && !Red(shape)
      ensures InOrder(shape) == Before(p) + (InOrder(t.left) + InOrder(t.right)) + After(p)
    {
      hide At, Order, Balanced, PathBalanced, Short, Linked, Nodes, PathNodes, InOrder, Before, After, Hung, PathRed;
      ghost var l, c, pr := t.left, t.red, Step(p, R, node, t.red, t.left);
      KidReads(mem, p, t, E());
      NotAbove(p, t);
      Descend(mem, p, t, R, E());
      ghost var q, u, steps;
      var temp;
      temp, q, u, steps := SubtreeMin(node.right, pr, t.right);
      ghost var sub, cy := u.right, u.red;
      OverAt(mem, pr, q, u, E());
      KidReads(mem, Over(pr, q), u, E());
      // the minimum has no left child, so the left-child branch of the source is never taken
      if temp.left != nil { assert false; }
      var subst := temp.right;
      var isBlack := !temp.red;
      SuccOrder(p, l, node, c, q, temp, cy, sub);
      OverPlug(pr, q, u);
      UnhookedBalanced(Over(pr, q), L, temp, cy, sub);
      ghost var P := SuccPath(p, l, temp, c, q);
      SuccBalanced(p, l, node, c, q, temp, cy, sub);
      TakeOutSuccessor(node, temp, subst, p, l, c, q, cy, sub);
      ClearAndMend(node, isBlack, subst, P, sub);
    }

    /** What is above the root after a deletion: the deleted node itself when it was the root of a tree of
        two, the sentinel when the tree is empty, and else what it was. */
    ghost predicate Undone(node: Node, n: nat, root0: Node, above0: Node, dangling0: bool, past0: seq<Change>)
      reads this
    {
      && dangling == (dangling0 && !(n == 1 || (n == 2 && node == root0)))
      && above == (if n == 1 then nil else if n == 2 && node == root0 then node else above0)
      && past == past0 + [Change(|Seq()|, n == 2 && node == root0)]
    }

    /** `util_rbtree_delete`.  Null and the sentinel are ignored; any other node must be in the tree, and
        `i` is its position. */
    method Delete(node: Node?) returns (ghost i: nat)
      requires Valid() && (node != null && node != nil ==> node in Seq())
      modifies this`root, this`size, this`dangling, this`above, this`mem, this`nodes, this`shape, this`past, nodes
      ensures Valid() && nodes == old(nodes)
      ensures node != null && node != nil ==> Cleared(node)
      ensures node == null || node == nil ==> Seq() == old(Seq())
      ensures node == null || node == nil ==> above == old(above) && dangling == old(dangling) && past == old(past)
      ensures node != null && node != nil ==>
        && i < |old(Seq())| && old(Seq())[i] == node && Seq() == Without(old(Seq()), i)
        && Undone(node, |old(Seq())|, old(root), old(above), old(dangling), old(past))
    {
      hide RootDropped, At, Balanced, Sorted, InOrder, Wrap, Without;
      i := 0;
      if node != null && node != nil {
        ghost var c := Change(|Seq()| - 1, |Seq()| == 2 && node == root);
        SoundRoot();
        i := DeleteNode(node);
        RootDroppedStep(past, c);
        past := past + [c];
      }
    }

    method DeleteNode(node: Node) returns (ghost i: nat)
      requires Sound() && node in Seq()
      modifies this`root, this`size, this`dangling, this`above, this`mem, this`nodes, this`shape, nodes
      ensures Sound() && |Seq()| == |old(Seq())| - 1 && nodes == old(nodes) && Cleared(node)
      ensures above ==
        if |old(Seq())| == 1 then nil
        else if |old(Seq())| == 2 && node == old(root) then node
        else old(above)
      ensures dangling == (old(dangling) && !(|old(Seq())| == 1 || (|old(Seq())| == 2 && node == old(root))))
      ensures i < |old(Seq())| && old(Seq())[i] == node && Seq() == Without(old(Seq()), i)
    {
      hide At, Order, Balanced, Linked, Nodes, PathNodes, Before, After, Wrap, Sorted, Without, InOrder;
      ghost var s := Seq();
      SoundRoot();
      size := Wrap(size - 1);
      WrapStep(|s|);
      InOrderNodes(shape);
      ghost var p, t := Locate(shape, node);
      ToTop(mem, p, t, E());
      OrderPlug(p, t);
      i := RootWithout(p, t);
      WithoutSorted(s, i);
      WithoutSize(s, i);
      KidReads(mem, p, t, E());
      SlotCount(p, t);
      if node.left == nil {
        DeleteSlim(L, node, node.right, p, t);
      } else if node.right == nil {
        DeleteSlim(R, node, node.left, p, t);
      } else {
        DeleteFull(node, p, t);
      }
    }

    /** How many nodes there must be. */
    lemma SlotCount(p: Path, t: Shape)
      requires t.Fork?
      ensures |Order(p, t)| >= |InOrder(t)| && (p.Top? ==> Order(p, t) == InOrder(t))
      ensures t.left.Fork? && t.right.Fork? ==> |InOrder(t)| >= 3
    {
    }

    /** The caller's `free` of a node that it has deleted. */
    method Free(x: Node)
      requires Valid() && x in nodes && x !in Seq() && x != nil
      modifies this`dangling, this`mem, this`nodes
      ensures Valid() && nodes == old(nodes) - {x}
      ensures dangling == (old(dangling) || x == above)
    {
      hide RootDropped, At, Balanced, Sorted, InOrder, Wrap;
      RootParent();
      SoundRoot();
      InOrderNodes(shape);
      FreedAt(mem, Top, shape, E(), x);
      dangling := dangling || (root != nil && root.parent == x);
      nodes := nodes - {x};
      mem := mem - {x};
    }

    // ---------- looking up ----------

    /** `util_rbtree_search`; `steps` counts the nodes visited. */
    method Search(key: int) returns (r: Node?, ghost steps: nat)
      requires Valid()
      ensures r == null ==> forall z :: z in Seq() ==> z.key != key
      ensures r != null ==> r in Seq() && r.key == key
      ensures Pow2(steps) <= (|Seq()| + 1) * (|Seq()| + 1)
    {
      hide At, Order, Sorted, Balanced, Pow2, InOrder, Nodes, PathNodes, Between;
      var node := root;
      ghost var p: Path, t := Top, shape;
      steps := 0;
      BetweenTop(key);
      FocusReads(mem, p, t, E());
      AtNil(mem, p, t, E());
      while node != nil
        invariant At(mem, p, t, E()) && node == Ref(t, nil) && (t.Leaf? <==> node == nil)
        invariant Plug(p, t) == shape && steps + Height(t) <= Height(shape)
        invariant Between(p, key)
        decreases t
      {
        OrderPlug(p, t);
        KidReads(mem, p, t, E());
        if key == node.key {
          FocusInOrder(p, t);
          LogHeight(shape, steps + 1);
          return node, steps + 1;
        }
        var s := if key < node.key then L else R;
        Descend(mem, p, t, s, E());
        BetweenDown(p, t, key, s);
        p, t := Step(p, s, t.node, t.red, t.Sub(s.Other())), t.Sub(s);
        node := Kid(node, s);
        steps := steps + 1;
      }
      LogHeight(shape, steps);
      OrderPlug(p, Leaf);
      NotOrdered(p, key);
      r := null;
    }

    /** Everything before the place has a smaller key, everything after it a greater one. */
    ghost predicate Between(p: Path, key: int) {
      Divides(p, key) && forall z :: z in After(p) ==> z.key != key
    }

    lemma FocusInOrder(p: Path, t: Shape)
      requires t.Fork?
      ensures t.node in Order(p, t)
    {
      assert t.node in InOrder(t);
    }

    lemma BetweenTop(key: int)
      ensures Between(Top, key)
    {
    }

    lemma BetweenDown(p: Path, t: Shape, key: int, s: Side)
      requires Between(p, key) && t.Fork? && key != t.node.key && s == if key < t.node.key then L else R
      requires Sorted(Order(p, t))
      ensures Between(Step(p, s, t.node, t.red, t.Sub(s.Other())), key)
    {
      DividesDown(p, t, key);
      SortedAround(p, t);
    }

    lemma NotOrdered(p: Path, key: int)
      requires Between(p, key)
      ensures forall z :: z in Order(p, Leaf) ==> z.key != key
    {
    }

    /** `util_rbtree_lookup`: the first node at or after the key, going round to the smallest.  The descent
        visits `steps` nodes, and finding the smallest `back` more. */
    method Lookup(key: int) returns (r: Node?, ghost i: nat, ghost steps: nat, ghost back: nat)
      requires Valid()
      ensures r == null <==> Seq() == []
      ensures r != null ==> IsCeiling(Seq(), key, i) && Seq()[i] == r
      ensures Pow2(steps) <= (|Seq()| + 1) * (|Seq()| + 1) && Pow2(back) <= (|Seq()| + 1) * (|Seq()| + 1)
    {
      hide At, Order, Sorted, Balanced, Pow2, Divides, IsCeiling;
      FocusReads(mem, Top, shape, E());
      AtNil(mem, Top, shape, E());
      i, steps, back := 0, 0, 0;
      if root == nil {
        LogHeight(shape, 0);
        return null, 0, 0, 0;
      }
      var node: Node? := null;
      var temp := root;
      ghost var p: Path, t := Top, shape;
      assert Divides(p, key) by { DividesTop(key); }
      while temp != nil
        invariant At(mem, p, t, E()) && temp == Ref(t, nil) && (t.Leaf? <==> temp == nil)
        invariant Plug(p, t) == shape && steps + Height(t) <= Height(shape)
        invariant Divides(p, key) && (node == null <==> After(p) == []) && (node != null ==> After(p)[0] == node)
        decreases t
      {
        OrderPlug(p, t);
        DividesDown(p, t, key);
        KidReads(mem, p, t, E());
        var s := R;
        if key <= temp.key {
          node := temp;
          s := L;
        }
        Descend(mem, p, t, s, E());
        p, t := Step(p, s, t.node, t.red, t.Sub(s.Other())), t.Sub(s);
        temp := Kid(temp, s);
        steps := steps + 1;
      }
      LogHeight(shape, steps);
      OrderPlug(p, Leaf);
      DividedCeiling(p, key);
      if node != null {
        i := |Before(p)|;
        r := node;
      } else {
        ghost var q, u;
        r, q, u, back := SubtreeMin(root, Top, shape);
        OrderPlug(q, u);
        LeftmostFirst(q, u);
      }
      LogHeight(shape, back);
    }

    lemma DividesTop(key: int)
      ensures Divides(Top, key)
    {
    }

    lemma LeftmostFirst(q: Path, u: Shape)
      requires Before(q) == [] && u.Fork? && u.left.Leaf?
      ensures Order(q, u) != [] && Order(q, u)[0] == u.node
    {
      assert InOrder(u) == [] + [u.node] + InOrder(u.right);
      assert Order(q, u) == InOrder(u) + After(q);
    }
  }
}
