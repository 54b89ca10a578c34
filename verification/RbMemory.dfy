/** How the fields of the nodes spell out a shape.

    `Mem` is a picture of the nodes' mutable fields.  `At` says that the picture shows the shape
    `t` in the surroundings `p`, with every parent pointer the inverse of a child pointer.  The
    lemmas follow the pointer surgery of conhash/util_rbtree.c: recolouring, rotating, putting one
    node in the place of another, taking a node with at most one child out. */
module RbMemory {
  import opened RbShape

  datatype Cell = Cell(parent: Node?, left: Node?, right: Node?, red: bool) {
    function Kid(s: Side): Node? { if s.L? then left else right }
    function WithKid(s: Side, n: Node?): Cell {
      if s.L? then this.(left := n) else this.(right := n)
    }
  }

  type Mem = map<Node, Cell>

  /** `root` is the tree's root pointer, `nil` its sentinel, and `above` what the root's own
      parent field holds: the sentinel, or a node removed earlier that was the root.  `kept` says that
      this node has not been freed. */
  datatype Env = Env(root: Node, nil: Node, above: Node, kept: bool)

  function Ref(t: Shape, nil: Node): Node {
    if t.Leaf? then nil else t.node
  }

  function Parent(p: Path, e: Env): Node {
    if p.Top? then e.above else p.node
  }

  ghost predicate ParentIs(m: Mem, t: Shape, n: Node) {
    t.Fork? ==> t.node in m && m[t.node].parent == n
  }

  /** The fields of `t`'s nodes are what the shape says; the parent field of `t`'s own root is left open. */
  ghost predicate Linked(m: Mem, t: Shape, nil: Node) {
    t.Fork? ==>
      && t.node in m && t.node != nil
      && m[t.node].left == Ref(t.left, nil) && m[t.node].right == Ref(t.right, nil)
      && m[t.node].red == t.red
      && Linked(m, t.left, nil) && ParentIs(m, t.left, t.node)
      && Linked(m, t.right, nil) && ParentIs(m, t.right, t.node)
  }

  ghost predicate PathLinked(m: Mem, p: Path, hole: Node, e: Env) {
    match p
    case Top => hole == e.root
    case Step(up, s, x, c, u) =>
      && x in m && x != e.nil
      && m[x].Kid(s) == hole && m[x].Kid(s.Other()) == Ref(u, e.nil)
      && m[x].red == c && m[x].parent == Parent(up, e)
      && Linked(m, u, e.nil) && ParentIs(m, u, x)
      && PathLinked(m, up, x, e)
  }

  /** The sentinel and, unless it has been freed, the node above the root read black and are not nodes of
      the tree. */
  ghost predicate Ends(m: Mem, p: Path, t: Shape, e: Env) {
    && e.nil in m && !m[e.nil].red && e.nil !in Nodes(t) && e.nil !in PathNodes(p)
    && (e.kept ==> e.above in m && !m[e.above].red && e.above !in Nodes(t) && e.above !in PathNodes(p))
  }

  ghost predicate At(m: Mem, p: Path, t: Shape, e: Env) {
    && Apart(p, t) && Ends(m, p, t, e)
    && Linked(m, t, e.nil) && ParentIs(m, t, Parent(p, e))
    && PathLinked(m, p, Ref(t, e.nil), e)
  }

  ghost predicate Agree(m: Mem, m': Mem, s: set<Node>) {
    forall n :: n in s && n in m ==> n in m' && m'[n] == m[n]
  }

  // ---------- framing ----------

  lemma {:induction false} FrameShape(m: Mem, m': Mem, t: Shape, nil: Node)
    requires Linked(m, t, nil) && Agree(m, m', Nodes(t))
    ensures Linked(m', t, nil)
    ensures forall n :: ParentIs(m, t, n) ==> ParentIs(m', t, n)
  {
    if t.Fork? {
      FrameShape(m, m', t.left, nil);
      FrameShape(m, m', t.right, nil);
    }
  }

  lemma {:induction false} FramePath(m: Mem, m': Mem, p: Path, hole: Node, e: Env)
    requires PathLinked(m, p, hole, e) && Agree(m, m', PathNodes(p))
    ensures PathLinked(m', p, hole, e)
    decreases p
  {
    if p.Step? {
      FrameShape(m, m', p.sib, e.nil);
      FramePath(m, m', p.up, p.node, e);
    }
  }

  lemma {:induction false} LinkedNodes(m: Mem, t: Shape, nil: Node)
    requires Linked(m, t, nil)
    ensures Nodes(t) <= m.Keys
  {
    if t.Fork? {
      LinkedNodes(m, t.left, nil);
      LinkedNodes(m, t.right, nil);
    }
  }

  // ---------- moving the place ----------

  lemma Ascend(m: Mem, p: Path, t: Shape, e: Env)
    requires p.Step?
    ensures At(m, p, t, e) <==> At(m, p.up, Join(p.side, t, p.node, p.red, p.sib), e)
    ensures Order(p, t) == Order(p.up, Join(p.side, t, p.node, p.red, p.sib))
  {
    OrderStep(p, t);
  }

  lemma {:induction false} ToTop(m: Mem, p: Path, t: Shape, e: Env)
    ensures At(m, p, t, e) <==> At(m, Top, Plug(p, t), e)
    decreases p
  {
    if p.Step? {
      Ascend(m, p, t, e);
      ToTop(m, p.up, Join(p.side, t, p.node, p.red, p.sib), e);
    }
  }

  lemma {:induction false} RootOnPath(m: Mem, p: Path, hole: Node, e: Env)
    requires PathLinked(m, p, hole, e) && p.Step?
    ensures e.root in PathNodes(p)
    decreases p
  {
    if p.up.Step? { RootOnPath(m, p.up, p.node, e); }
  }

  /** The place is the whole tree exactly when the pointer to it is the root pointer. */
  lemma AtRoot(m: Mem, p: Path, t: Shape, e: Env)
    requires At(m, p, t, e)
    ensures p.Top? <==> Ref(t, e.nil) == e.root
    ensures t.Leaf? <==> Ref(t, e.nil) == e.nil
  {
    if p.Step? { RootOnPath(m, p, Ref(t, e.nil), e); }
  }

  /** The place may move across to the sibling. */
  lemma Across(m: Mem, p: Path, t: Shape, e: Env)
    requires At(m, p, t, e) && p.Step?
    ensures At(m, Step(p.up, p.side.Other(), p.node, p.red, t), p.sib, e)
    ensures Order(Step(p.up, p.side.Other(), p.node, p.red, t), p.sib) == Order(p, t)
  {
    hide At, Order;
    Ascend(m, p, t, e);
    Ascend(m, Step(p.up, p.side.Other(), p.node, p.red, t), p.sib, e);
  }

  // ---------- recolouring ----------

  lemma Recolour(m: Mem, p: Path, t: Shape, e: Env, red: bool)
    requires At(m, p, t, e) && t.Fork?
    ensures t.node in m && At(m[t.node := m[t.node].(red := red)], p, t.(red := red), e)
    ensures Order(p, t.(red := red)) == Order(p, t)
  {
    var m' := m[t.node := m[t.node].(red := red)];
    FrameShape(m, m', t.left, e.nil);
    FrameShape(m, m', t.right, e.nil);
    FramePath(m, m', p, t.node, e);
  }

  lemma RecolourParent(m: Mem, p: Path, t: Shape, e: Env, red: bool)
    requires At(m, p, t, e) && p.Step?
    ensures p.node in m && At(m[p.node := m[p.node].(red := red)], p.(red := red), t, e)
    ensures Order(p.(red := red), t) == Order(p, t)
  {
    var m' := m[p.node := m[p.node].(red := red)];
    FrameShape(m, m', t, e.nil);
    FrameShape(m, m', p.sib, e.nil);
    FramePath(m, m', p.up, p.node, e);
  }

  lemma RecolourSibling(m: Mem, p: Path, t: Shape, e: Env, red: bool)
    requires At(m, p, t, e) && p.Step? && p.sib.Fork?
    ensures p.sib.node in m
    ensures At(m[p.sib.node := m[p.sib.node].(red := red)], p.(sib := p.sib.(red := red)), t, e)
    ensures Order(p.(sib := p.sib.(red := red)), t) == Order(p, t)
  {
    var u := p.sib;
    var m' := m[u.node := m[u.node].(red := red)];
    FrameShape(m, m', t, e.nil);
    FrameShape(m, m', u.left, e.nil);
    FrameShape(m, m', u.right, e.nil);
    FramePath(m, m', p.up, p.node, e);
  }

  /** Case 1 of `rbtree_insert_fixup`: parent and uncle turn black, the grandparent red. */
  function LiftedMem(m: Mem, p: Path): Mem
    requires p.Step? && p.up.Step? && p.up.sib.Fork?
    requires p.node in m && p.up.node in m && p.up.sib.node in m
  {
    var m1 := m[p.up.sib.node := m[p.up.sib.node].(red := false)];
    var m2 := m1[p.node := m1[p.node].(red := false)];
    m2[p.up.node := m2[p.up.node].(red := true)]
  }

  lemma LiftAt(m: Mem, p: Path, t: Shape, e: Env)
    requires At(m, p, t, e) && p.Step? && p.up.Step? && p.up.sib.Fork?
    ensures p.node in m && p.up.node in m && p.up.sib.node in m
    ensures At(LiftedMem(m, p), p.up.up, Lifted(p, t), e) && Order(p.up.up, Lifted(p, t)) == Order(p, t)
  {
    hide At, Order;
    var pg, tq := p.up, Join(p.side, t, p.node, p.red, p.sib);
    Ascend(m, p, t, e);
    RecolourSibling(m, pg, tq, e, false);
    var m1, pg1 := m[pg.sib.node := m[pg.sib.node].(red := false)], pg.(sib := pg.sib.(red := false));
    Recolour(m1, pg1, tq, e, false);
    var m2, tq2 := m1[p.node := m1[p.node].(red := false)], tq.(red := false);
    RecolourParent(m2, pg1, tq2, e, true);
    Ascend(LiftedMem(m, p), pg1.(red := true), tq2, e);
  }

  function LeaningMem(m: Mem, p: Path): Mem
    requires p.Step? && p.up.Step? && p.node in m && p.up.node in m
  {
    var m1 := m[p.node := m[p.node].(red := false)];
    m1[p.up.node := m1[p.up.node].(red := true)]
  }

  lemma LeanAt(m: Mem, p: Path, t: Shape, e: Env)
    requires At(m, p, t, e) && p.Step? && p.up.Step?
    ensures p.node in m && p.up.node in m
    ensures At(LeaningMem(m, p), p.up.up, Leaning(p, t), e) && Order(p.up.up, Leaning(p, t)) == Order(p, t)
  {
    hide At, Order;
    var pg, tq := p.up, Join(p.side, t, p.node, p.red, p.sib);
    Ascend(m, p, t, e);
    Recolour(m, pg, tq, e, false);
    var m1, tq1 := m[p.node := m[p.node].(red := false)], tq.(red := false);
    RecolourParent(m1, pg, tq1, e, true);
    Ascend(LeaningMem(m, p), pg.(red := true), tq1, e);
  }

  // ---------- pointing the surroundings at another node ----------

  /** The memory after the child pointer that led to the place leads to `n` instead. */
  function Redirected(m: Mem, p: Path, n: Node): Mem
    requires p.Step? ==> p.node in m
  {
    if p.Top? then m else m[p.node := m[p.node].WithKid(p.side, n)]
  }

  function Rerooted(p: Path, e: Env, n: Node): Env {
    if p.Top? then e.(root := n) else e
  }

  lemma Redirect(m: Mem, m': Mem, p: Path, hole: Node, n: Node, e: Env)
    requires PathLinked(m, p, hole, e) && PathDistinct(p)
    requires Agree(Redirected(m, p, n), m', PathNodes(p))
    ensures PathLinked(m', p, n, Rerooted(p, e, n))
  {
    if p.Step? {
      FrameShape(m, m', p.sib, e.nil);
      FramePath(m, m', p.up, p.node, e);
    }
  }

  function Reparented(m: Mem, t: Shape, n: Node): Mem
    requires t.Fork? ==> t.node in m
  {
    if t.Leaf? then m else m[t.node := m[t.node].(parent := n)]
  }

  lemma Reparent(m: Mem, m': Mem, t: Shape, n: Node, nil: Node)
    requires Linked(m, t, nil) && Distinct(t)
    requires Agree(Reparented(m, t, n), m', Nodes(t))
    ensures Linked(m', t, nil) && ParentIs(m', t, n)
  {
    if t.Fork? {
      FrameShape(m, m', t.left, nil);
      FrameShape(m, m', t.right, nil);
    }
  }

  // ---------- rotation ----------

  /** The four groups of assignments of a rotation towards `s` at `x`, where `y` is `x`'s other child
      and `b` the subtree that changes sides (conhash/util_rbtree.c:329-391). */
  ghost predicate Rotated(m: Mem, m': Mem, p: Path, s: Side, x: Node, y: Node, b: Shape, e: Env)
  {
    && x in m && y in m && m'.Keys == m.Keys
    && m'[y] == m[y].(parent := Parent(p, e)).WithKid(s, x)
    && m'[x] == m[x].(parent := y).WithKid(s.Other(), Ref(b, e.nil))
    && (p.Step? ==> p.node in m && m'[p.node] == m[p.node].WithKid(p.side, y))
    && (b.Fork? ==> b.node in m && m'[b.node] == m[b.node].(parent := x))
    && forall n :: n in m && n != x && n != y && !(p.Step? && n == p.node) && !(b.Fork? && n == b.node)
         ==> m'[n] == m[n]
  }

  /** The few fields a rotation reads, and that the nodes it writes are different ones. */
  ghost predicate Pivot(m: Mem, p: Path, s: Side, x: Node, y: Node, b: Shape, e: Env) {
    && Hung(m, p, x, e) && x != e.nil
    && x in m && y in m && x != y && m[x].Kid(s.Other()) == y && m[y].Kid(s) == Ref(b, e.nil)
    && !(p.Step? && p.node == y)
    && (b.Fork? ==> b.node in m && b.node != x && b.node != y && b.node != e.nil && !(p.Step? && p.node == b.node))
  }

  /** `x` hangs below `p`, and below `p`'s node on one side only. */
  ghost predicate Hung(m: Mem, p: Path, x: Node, e: Env) {
    && x in m && m[x].parent == Parent(p, e)
    && (p.Top? <==> x == e.root)
    && (p.Step? ==> p.node in m && p.node != x && m[p.node].Kid(p.side) == x && m[p.node].Kid(p.side.Other()) != x)
  }

  lemma AtHung(m: Mem, p: Path, t: Shape, e: Env)
    requires At(m, p, t, e) && t.Fork?
    ensures Hung(m, p, t.node, e)
  {
    AtRoot(m, p, t, e);
    assert p.Step? && p.sib.Fork? ==> p.sib.node in Nodes(p.sib) && p.sib.node in PathNodes(p);
  }

  lemma AtPivot(m: Mem, p: Path, s: Side, a: Shape, x: Node, cx: bool, b: Shape, y: Node, cy: bool, c: Shape, e: Env)
    requires At(m, p, Join(s, a, x, cx, Join(s, b, y, cy, c)), e)
    ensures Pivot(m, p, s, x, y, b, e)
  {
    var t := Join(s, a, x, cx, Join(s, b, y, cy, c));
    if s.L? { assert t.node == x; } else { assert t.node == x; }
    AtHung(m, p, t, e);
    RotateApart(p, s, a, x, cx, b, y, cy, c);
    JoinLinked(m, s, a, x, cx, Join(s, b, y, cy, c), e.nil);
    JoinLinked(m, s, b, y, cy, c, e.nil);
    assert b.Fork? ==> b.node in Nodes(b);
  }

  /** The assignments of a rotation below `y`. */
  function Crossed(m: Mem, s: Side, x: Node, y: Node, b: Shape, nil: Node): Mem
    requires x in m && y in m && (b.Fork? ==> b.node in m)
  {
    var m1 := m[x := m[x].(parent := y)];
    var m2 := m1[y := m1[y].WithKid(s, x)];
    var m3 := m2[x := m2[x].WithKid(s.Other(), Ref(b, nil))];
    Reparented(m3, b, x)
  }

  /** The assignments of a rotation, in the order they are made. */
  function Spun(m: Mem, p: Path, s: Side, x: Node, y: Node, b: Shape, e: Env): Mem
    requires x in m && y in m && (p.Step? ==> p.node in m) && (b.Fork? ==> b.node in m)
  {
    var m1 := m[y := m[y].(parent := Parent(p, e))];
    var m2 := Redirected(m1, p, y);
    Crossed(m2, s, x, y, b, e.nil)
  }

  lemma SpunRotated(m: Mem, p: Path, s: Side, x: Node, y: Node, b: Shape, e: Env)
    requires Pivot(m, p, s, x, y, b, e)
    ensures Rotated(m, Spun(m, p, s, x, y, b, e), p, s, x, y, b, e)
  {
  }

  lemma AboveReads(m: Mem, p: Path, t: Shape, e: Env)
    requires At(m, p, t, e) && t.Fork?
    ensures t.node in m && m[t.node].parent == Parent(p, e)
    ensures p.Step? || e.kept ==> Parent(p, e) in m && m[Parent(p, e)].red == PathRed(p)
    ensures PathRed(p) && p.up.Step? ==> m[p.node].parent == p.up.node && p.up.node in m
    ensures PathRed(p) && p.up.Step? ==> (m[p.up.node].left == p.node <==> p.up.side.L?)
  {
    if PathRed(p) && p.up.Step? {
      Around(m, p, t, e);
      Around(m, p.up, Join(p.side, t, p.node, p.red, p.sib), e);
    }
  }

  lemma FocusReads(m: Mem, p: Path, t: Shape, e: Env)
    requires At(m, p, t, e)
    ensures Ref(t, e.nil) in m && m[Ref(t, e.nil)].red == Red(t)
    ensures p.Top? <==> Ref(t, e.nil) == e.root
  {
    AtRoot(m, p, t, e);
  }

  /** What the code can read around the place. */
  lemma Around(m: Mem, p: Path, t: Shape, e: Env)
    requires At(m, p, t, e) && p.Step?
    ensures t.Fork? ==> t.node in m && m[t.node].parent == p.node && m[t.node].red == t.red
    ensures p.node in m && m[p.node].red == p.red && m[p.node].parent == Parent(p.up, e)
    ensures m[p.node].Kid(p.side) == Ref(t, e.nil) && m[p.node].Kid(p.side.Other()) == Ref(p.sib, e.nil)
    ensures t.Fork? || p.sib.Fork? ==> Ref(t, e.nil) != Ref(p.sib, e.nil)
    ensures Ref(p.sib, e.nil) in m && m[Ref(p.sib, e.nil)].red == Red(p.sib)
    ensures t.Leaf? <==> Ref(t, e.nil) == e.nil
    ensures p.Step? && p.up.Step? ==>
              At(m, p.up, Join(p.side, t, p.node, p.red, p.sib), e)
  {
    Ascend(m, p, t, e);
    assert p.sib.Fork? ==> p.sib.node in Nodes(p.sib) && p.sib.node in PathNodes(p);
  }

  lemma Nephews(m: Mem, p: Path, t: Shape, e: Env)
    requires At(m, p, t, e) && p.Step? && p.sib.Fork?
    ensures p.sib.node in m && m[p.sib.node].left == Ref(p.sib.left, e.nil) && m[p.sib.node].right == Ref(p.sib.right, e.nil)
    ensures Ref(p.sib.left, e.nil) in m && m[Ref(p.sib.left, e.nil)].red == Red(p.sib.left)
    ensures Ref(p.sib.right, e.nil) in m && m[Ref(p.sib.right, e.nil)].red == Red(p.sib.right)
  {
    assert Linked(m, p.sib.left, e.nil) && Linked(m, p.sib.right, e.nil);
  }

  /** A fork read side by side rather than left and right. */
  ghost predicate Joined(m: Mem, s: Side, t: Shape, x: Node, red: bool, u: Shape, nil: Node) {
    && x in m && x != nil && m[x].red == red
    && m[x].Kid(s) == Ref(t, nil) && m[x].Kid(s.Other()) == Ref(u, nil)
    && Linked(m, t, nil) && ParentIs(m, t, x)
    && Linked(m, u, nil) && ParentIs(m, u, x)
  }

  lemma JoinLinked(m: Mem, s: Side, t: Shape, x: Node, red: bool, u: Shape, nil: Node)
    ensures Linked(m, Join(s, t, x, red, u), nil) <==> Joined(m, s, t, x, red, u, nil)
  {
  }

  lemma JoinNodes(s: Side, t: Shape, x: Node, red: bool, u: Shape)
    ensures Nodes(Join(s, t, x, red, u)) == Nodes(t) + {x} + Nodes(u)
    ensures Distinct(Join(s, t, x, red, u)) <==>
            x !in Nodes(t) && x !in Nodes(u) && Nodes(t) !! Nodes(u) && Distinct(t) && Distinct(u)
  {
  }

  lemma RotateOrder(p: Path, s: Side, a: Shape, x: Node, cx: bool, b: Shape, y: Node, cy: bool, c: Shape)
    ensures Order(p, Join(s, Join(s, a, x, cx, b), y, cy, c)) == Order(p, Join(s, a, x, cx, Join(s, b, y, cy, c)))
  {
    var A, B, C := InOrder(a), InOrder(b), InOrder(c);
    var t, t' := Join(s, a, x, cx, Join(s, b, y, cy, c)), Join(s, Join(s, a, x, cx, b), y, cy, c);
    if s.L? {
      assert InOrder(t') == (A + [x] + B) + [y] + C == A + [x] + (B + [y] + C) == InOrder(t);
    } else {
      assert InOrder(t') == C + [y] + (B + [x] + A) == (C + [y] + B) + [x] + A == InOrder(t);
    }
  }

  /** The three subtrees, the two nodes and the surroundings of a rotation are apart. */
  ghost predicate Parts(p: Path, a: Shape, x: Node, b: Shape, y: Node, c: Shape) {
    && Distinct(b) && x != y
    && x !in Nodes(a) && x !in Nodes(b) && x !in Nodes(c) && x !in PathNodes(p)
    && y !in Nodes(a) && y !in Nodes(b) && y !in Nodes(c) && y !in PathNodes(p)
    && Nodes(b) !! Nodes(a) && Nodes(b) !! Nodes(c)
    && Nodes(a) !! PathNodes(p) && Nodes(b) !! PathNodes(p) && Nodes(c) !! PathNodes(p)
  }

  lemma RotateApart(p: Path, s: Side, a: Shape, x: Node, cx: bool, b: Shape, y: Node, cy: bool, c: Shape)
    requires Apart(p, Join(s, a, x, cx, Join(s, b, y, cy, c)))
    ensures Apart(p, Join(s, Join(s, a, x, cx, b), y, cy, c))
    ensures Nodes(Join(s, Join(s, a, x, cx, b), y, cy, c)) == Nodes(Join(s, a, x, cx, Join(s, b, y, cy, c)))
    ensures Parts(p, a, x, b, y, c)
  {
    JoinNodes(s, b, y, cy, c);
    JoinNodes(s, a, x, cx, Join(s, b, y, cy, c));
    JoinNodes(s, a, x, cx, b);
    JoinNodes(s, Join(s, a, x, cx, b), y, cy, c);
  }

  lemma RotateAgree(m: Mem, m': Mem, p: Path, s: Side, a: Shape, x: Node, b: Shape, y: Node, c: Shape, e: Env)
    requires Parts(p, a, x, b, y, c)
    requires Rotated(m, m', p, s, x, y, b, e)
    ensures Agree(m, m', Nodes(a)) && Agree(m, m', Nodes(c))
    ensures Agree(Reparented(m, b, x), m', Nodes(b))
    ensures Agree(Redirected(m, p, y), m', PathNodes(p))
  {
    assert b.Fork? ==> b.node in Nodes(b);
    assert p.Step? ==> p.node in PathNodes(p);
  }

  lemma RotateLinked(m: Mem, m': Mem, p: Path, s: Side, a: Shape, x: Node, cx: bool, b: Shape, y: Node, cy: bool, c: Shape, e: Env)
    requires Rotated(m, m', p, s, x, y, b, e) && Parts(p, a, x, b, y, c)
    requires Linked(m, Join(s, a, x, cx, Join(s, b, y, cy, c)), e.nil)
    ensures Linked(m', Join(s, Join(s, a, x, cx, b), y, cy, c), e.nil)
  {
    RotateAgree(m, m', p, s, a, x, b, y, c, e);
    JoinLinked(m, s, a, x, cx, Join(s, b, y, cy, c), e.nil);
    JoinLinked(m, s, b, y, cy, c, e.nil);
    FrameShape(m, m', a, e.nil);
    FrameShape(m, m', c, e.nil);
    Reparent(m, m', b, x, e.nil);
    JoinLinked(m', s, a, x, cx, b, e.nil);
    JoinLinked(m', s, Join(s, a, x, cx, b), y, cy, c, e.nil);
  }

  lemma RotateEnds(m: Mem, m': Mem, p: Path, s: Side, x: Node, y: Node, b: Shape, t: Shape, t': Shape, e: Env)
    requires Rotated(m, m', p, s, x, y, b, e) && Ends(m, p, t, e) && Nodes(t') == Nodes(t)
    ensures Ends(m', p, t', Rerooted(p, e, y))
  {
  }

  lemma RotatePath(m: Mem, m': Mem, p: Path, s: Side, a: Shape, x: Node, b: Shape, y: Node, c: Shape, e: Env)
    requires PathLinked(m, p, x, e) && PathDistinct(p)
    requires Rotated(m, m', p, s, x, y, b, e) && Parts(p, a, x, b, y, c)
    ensures PathLinked(m', p, y, Rerooted(p, e, y))
  {
    RotateAgree(m, m', p, s, a, x, b, y, c, e);
    Redirect(m, m', p, x, y, e);
  }

  /** Rotating keeps the links consistent in both directions, keeps the nodes and keeps their order. */
  lemma Rotate(m: Mem, m': Mem, p: Path, s: Side, a: Shape, x: Node, cx: bool, b: Shape, y: Node, cy: bool, c: Shape, e: Env)
    requires At(m, p, Join(s, a, x, cx, Join(s, b, y, cy, c)), e)
    requires Rotated(m, m', p, s, x, y, b, e)
    ensures At(m', p, Join(s, Join(s, a, x, cx, b), y, cy, c), Rerooted(p, e, y))
  {
    var t, t' := Join(s, a, x, cx, Join(s, b, y, cy, c)), Join(s, Join(s, a, x, cx, b), y, cy, c);
    if s.L? { assert Ref(t', e.nil) == y; } else { assert Ref(t', e.nil) == y; }
    RotateApart(p, s, a, x, cx, b, y, cy, c);
    RotateLinked(m, m', p, s, a, x, cx, b, y, cy, c, e);
    RotatePath(m, m', p, s, a, x, b, y, c, e);
    RotateEnds(m, m', p, s, x, y, b, t, t', e);
  }

  // ---------- putting a new node in ----------

  lemma Descend(m: Mem, p: Path, t: Shape, s: Side, e: Env)
    requires At(m, p, t, e) && t.Fork?
    ensures At(m, Step(p, s, t.node, t.red, t.Sub(s.Other())), t.Sub(s), e)
    ensures Order(Step(p, s, t.node, t.red, t.Sub(s.Other())), t.Sub(s)) == Order(p, t)
  {
    Ascend(m, Step(p, s, t.node, t.red, t.Sub(s.Other())), t.Sub(s), e);
  }

  ghost predicate Grafted(m: Mem, m': Mem, p: Path, x: Node, nil: Node) {
    && x in m' && m'[x] == Cell(if p.Top? then nil else p.node, nil, nil, true)
    && (p.Step? ==> p.node in m && p.node in m' && m'[p.node] == m[p.node].WithKid(p.side, x))
    && forall n :: n in m && n != x && !(p.Step? && n == p.node) ==> n in m' && m'[n] == m[n]
  }

  /** Hanging a new red node where the sentinel was.  In an empty tree it gets the sentinel for a parent. */
  lemma GraftAt(m: Mem, m': Mem, p: Path, x: Node, e: Env)
    requires At(m, p, Leaf, e) && x !in PathNodes(p) && x != e.nil && (e.kept ==> x != e.above)
    requires Grafted(m, m', p, x, e.nil)
    ensures At(m', p, Fork(Leaf, x, true, Leaf), if p.Top? then Env(x, e.nil, e.nil, true) else e)
    ensures Order(p, Fork(Leaf, x, true, Leaf)) == Before(p) + [x] + After(p)
  {
    var t := Fork(Leaf, x, true, Leaf);
    assert InOrder(t) == [x];
    if p.Step? {
      Redirect(m, m', p, e.nil, x, e);
    }
  }

  // ---------- taking a node out ----------

  lemma {:induction false} OverAt(m: Mem, p: Path, q: Path, t: Shape, e: Env)
    ensures At(m, Over(p, q), t, e) <==> At(m, p, Plug(q, t), e)
    decreases q
  {
    if q.Step? {
      Ascend(m, Over(p, q), t, e);
      OverAt(m, p, q.up, Join(q.side, t, q.node, q.red, q.sib), e);
    }
  }

  /** `h` is where `p` leads to from now on, and has `hp` for a parent. */
  ghost predicate Spliced(m: Mem, m': Mem, p: Path, h: Node, hp: Node) {
    && p.Step? && p.node in m && p.node in m' && h in m && h in m'
    && m'[h] == m[h].(parent := hp) && m'[p.node] == m[p.node].WithKid(p.side, h)
    && forall n :: n in m && n != h && n != p.node ==> n in m' && m'[n] == m[n]
  }

  lemma SpliceLinked(m: Mem, m': Mem, p: Path, s: Side, x: Node, c: bool, sub: Shape, hp: Node, e: Env)
    requires At(m, p, Join(s, Leaf, x, c, sub), e) && Spliced(m, m', p, Ref(sub, e.nil), hp)
    ensures Apart(p, sub) && Ends(m', p, sub, e)
    ensures Linked(m', sub, e.nil) && PathLinked(m', p, Ref(sub, e.nil), e)
    ensures x in m' && m'[x] == m[x]
  {
    JoinLinked(m, s, Leaf, x, c, sub, e.nil);
    JoinNodes(s, Leaf, x, c, sub);
    assert sub.Fork? ==> sub.node in Nodes(sub);
    Reparent(m, m', sub, hp, e.nil);
    Redirect(m, m', p, x, Ref(sub, e.nil), e);
  }

  lemma SpliceAt(m: Mem, m': Mem, p: Path, s: Side, x: Node, c: bool, sub: Shape, e: Env)
    requires p.Step? && At(m, p, Join(s, Leaf, x, c, sub), e) && Spliced(m, m', p, Ref(sub, e.nil), p.node)
    ensures At(m', p, sub, e) && m'[Ref(sub, e.nil)].parent == p.node
  {
    SpliceLinked(m, m', p, s, x, c, sub, p.node, e);
  }

  /** `At(m, p, Fork(l, x, c, r), e)`, but for the parent fields of `x`'s two children. */
  ghost predicate Loose(m: Mem, p: Path, l: Shape, x: Node, c: bool, r: Shape, e: Env) {
    && Apart(p, Fork(l, x, c, r)) && Ends(m, p, Fork(l, x, c, r), e)
    && x in m && x != e.nil && m[x] == Cell(Parent(p, e), Ref(l, e.nil), Ref(r, e.nil), c)
    && Linked(m, l, e.nil) && Linked(m, r, e.nil)
    && PathLinked(m, p, x, e)
  }

  lemma AtLoose(m: Mem, p: Path, l: Shape, x: Node, c: bool, r: Shape, e: Env)
    requires At(m, p, Fork(l, x, c, r), e)
    ensures Loose(m, p, l, x, c, r, e)
  {
  }

  /** Taking out `x`'s right child `y`, when its parent field points at `y` meanwhile. */
  lemma SpliceLoose(m: Mem, m': Mem, p: Path, l: Shape, x: Node, c: bool, y: Node, cy: bool, sub: Shape, e: Env)
    requires At(m, Step(p, R, x, c, l), Fork(Leaf, y, cy, sub), e)
    requires Spliced(m, m', Step(p, R, x, c, l), Ref(sub, e.nil), y)
    ensures Loose(m', p, l, x, c, sub, e) && y in m' && m'[y] == m[y]
  {
    SpliceLinked(m, m', Step(p, R, x, c, l), L, y, cy, sub, y, e);
  }

  /** `y` has taken `x`'s place, with `x`'s links and colour. */
  ghost predicate Replaced(m: Mem, m': Mem, p: Path, l: Shape, x: Node, c: bool, r: Shape, y: Node, e: Env) {
    && y in m' && m'[y] == Cell(Parent(p, e), Ref(l, e.nil), Ref(r, e.nil), c)
    && x in m && x in m'
    && (p.Step? ==> p.node in m && p.node in m' && m'[p.node] == m[p.node].WithKid(p.side, y))
    && (l.Fork? ==> l.node in m && l.node in m' && m'[l.node] == m[l.node].(parent := y))
    && (r.Fork? ==> r.node in m && r.node in m' && m'[r.node] == m[r.node].(parent := y))
    && forall n ::
      (n in m && n != x && n != y && !(p.Step? && n == p.node) && !(l.Fork? && n == l.node) && !(r.Fork? && n == r.node)
       ==> n in m' && m'[n] == m[n])
  }

  /** The nodes a replacement writes are different ones. */
  ghost predicate Spread(m: Mem, p: Path, l: Shape, x: Node, r: Shape, y: Node, e: Env) {
    && x in m && y in m && x != y && !(p.Step? && p.node == y)
    && (p.Step? ==> p.node in m && p.node != x)
    && (l.Fork? ==> l.node in m && l.node != e.nil && l.node != y && l.node != x && !(p.Step? && p.node == l.node))
    && (r.Fork? ==> r.node in m && r.node != e.nil && r.node != y && r.node != x && !(p.Step? && p.node == r.node))
    && (l.Fork? && r.Fork? ==> l.node != r.node)
  }

  /** The assignments of a replacement, in the order they are made. */
  function Taken(m: Mem, p: Path, l: Shape, x: Node, r: Shape, y: Node, e: Env): Mem
    requires x in m && y in m && (p.Step? ==> p.node in m) && (l.Fork? ==> l.node in m) && (r.Fork? ==> r.node in m)
  {
    var m1 := m[y := m[y].(parent := m[x].parent)];
    var m2 := Redirected(m1, p, y);
    var m3 := m2[y := m2[x].(parent := m2[y].parent)];
    Reparented(Reparented(m3, l, y), r, y)
  }

  lemma TakenReplaced(m: Mem, p: Path, l: Shape, x: Node, c: bool, r: Shape, y: Node, e: Env)
    requires Spread(m, p, l, x, r, y, e) && m[x] == Cell(Parent(p, e), Ref(l, e.nil), Ref(r, e.nil), c)
    ensures Replaced(m, Taken(m, p, l, x, r, y, e), p, l, x, c, r, y, e)
  {
  }

  lemma ReplaceAt(m: Mem, m': Mem, p: Path, l: Shape, x: Node, c: bool, r: Shape, y: Node, e: Env)
    requires Loose(m, p, l, x, c, r, e) && Replaced(m, m', p, l, x, c, r, y, e)
    requires y !in Nodes(l) && y !in Nodes(r) && y !in PathNodes(p) && y != x && y != e.nil && (e.kept ==> y != e.above)
    ensures At(m', p, Fork(l, y, c, r), Rerooted(p, e, y)) && m'[e.nil] == m[e.nil]
  {
    assert l.Fork? ==> l.node in Nodes(l);
    assert r.Fork? ==> r.node in Nodes(r);
    assert p.Step? ==> p.node in PathNodes(p);
    assert Linked(m', l, e.nil) && ParentIs(m', l, y) by { Reparent(m, m', l, y, e.nil); }
    assert Linked(m', r, e.nil) && ParentIs(m', r, y) by { Reparent(m, m', r, y, e.nil); }
    assert PathLinked(m', p, y, Rerooted(p, e, y)) by { Redirect(m, m', p, x, y, e); }
  }

  lemma FrameAt(m: Mem, m': Mem, p: Path, t: Shape, e: Env)
    requires At(m, p, t, e) && Agree(m, m', Nodes(t) + PathNodes(p))
    requires forall n :: n in m ==> n in m' && m'[n].red == m[n].red
    ensures At(m', p, t, e)
  {
    FrameShape(m, m', t, e.nil);
    FramePath(m, m', p, Ref(t, e.nil), e);
  }

  /** The place of the successor `y`, the leftmost node on the right of `x`, seen from the root. */
  function SuccPath(p: Path, l: Shape, x: Node, c: bool, q: Path): Path {
    Over(Step(p, R, x, c, l), q)
  }

  lemma SuccAt(m: Mem, p: Path, l: Shape, x: Node, c: bool, q: Path, t: Shape, e: Env)
    ensures At(m, p, Fork(l, x, c, Plug(q, t)), e) <==> At(m, SuccPath(p, l, x, c, q), t, e)
  {
    hide At;
    Ascend(m, Step(p, R, x, c, l), Plug(q, t), e);
    OverAt(m, Step(p, R, x, c, l), q, t, e);
  }

  lemma SuccApart(p: Path, l: Shape, x: Node, c: bool, q: Path, y: Node, cy: bool, sub: Shape)
    requires Apart(SuccPath(p, l, x, c, q), Fork(Leaf, y, cy, sub))
    ensures y != x && y !in Nodes(l) && y !in Nodes(Plug(q, sub)) && y !in PathNodes(p)
    ensures var P := SuccPath(p, l, x, c, q);
      && P.Step? && P.node != y && P.node !in Nodes(sub)
      && (P.node == x <==> q.Top?)
    ensures PathNodes(SuccPath(p, l, y, c, q)) + Nodes(sub) == PathNodes(p) + {y} + Nodes(l) + Nodes(Plug(q, sub))
  {
    var P := SuccPath(p, l, x, c, q);
    OverNodes(Step(p, R, x, c, l), q, sub);
    OverNodes(Step(p, R, y, c, l), q, sub);
    assert P.node in PathNodes(P);
    if q.Step? {
      OverApart(Step(p, R, x, c, l), q);
    }
  }

  lemma {:induction false} OverApart(p: Path, q: Path)
    requires PathDistinct(Over(p, q)) && q.Step? && p.Step?
    ensures q.node != p.node && p.node in PathNodes(Over(p, q.up))
    decreases q
  {
    var P := Over(p, q);
    assert P.up == Over(p, q.up) && P.node == q.node;
    if q.up.Step? {
      OverApart(p, q.up);
      assert P.up.up == Over(p, q.up.up);
    }
    assert p.node in PathNodes(P.up) && PathDistinct(P);
  }

  lemma SpliceSucc(m: Mem, m': Mem, p: Path, l: Shape, x: Node, c: bool, q: Path, y: Node, cy: bool, sub: Shape, e: Env)
    requires At(m, SuccPath(p, l, x, c, q), Fork(Leaf, y, cy, sub), e)
    requires var P := SuccPath(p, l, x, c, q);
      P.Step? && Spliced(m, m', P, Ref(sub, e.nil), if P.node == x then y else P.node)
    ensures Loose(m', p, l, x, c, Plug(q, sub), e) && y in m'
  {
    SuccApart(p, l, x, c, q, y, cy, sub);
    var P := SuccPath(p, l, x, c, q);
    if q.Top? {
      SpliceLoose(m, m', p, l, x, c, y, cy, sub, e);
    } else {
      SpliceAt(m, m', P, L, y, cy, sub, e);
      SuccAt(m', p, l, x, c, q, sub, e);
      AtLoose(m', p, l, x, c, Plug(q, sub), e);
      assert y in m;
    }
  }

  lemma LooseReads(m: Mem, p: Path, l: Shape, x: Node, c: bool, r: Shape, y: Node, e: Env)
    requires Loose(m, p, l, x, c, r, e) && y in m
    requires y !in Nodes(l) && y !in Nodes(r) && y !in PathNodes(p) && y != x
    ensures Hung(m, p, x, e) && Spread(m, p, l, x, r, y, e)
    ensures m[x] == Cell(Parent(p, e), Ref(l, e.nil), Ref(r, e.nil), c) && x != e.nil
    ensures x !in Nodes(l) && x !in Nodes(r) && x !in PathNodes(p)
  {
    assert l.Fork? ==> l.node in Nodes(l);
    assert r.Fork? ==> r.node in Nodes(r);
    assert p.Step? ==> p.node in PathNodes(p);
    if p.Step? { RootOnPath(m, p, x, e); }
    assert p.Step? && p.sib.Fork? ==> p.sib.node in Nodes(p.sib) && p.sib.node in PathNodes(p);
  }

  lemma SuccDone(m: Mem, m': Mem, p: Path, l: Shape, x: Node, c: bool, q: Path, y: Node, sub: Shape, e: Env)
    requires Loose(m, p, l, x, c, Plug(q, sub), e) && Replaced(m, m', p, l, x, c, Plug(q, sub), y, e)
    requires y !in Nodes(l) && y !in Nodes(Plug(q, sub)) && y !in PathNodes(p) && y != x && y != e.nil && (e.kept ==> y != e.above)
    requires var P := SuccPath(p, l, y, c, q);
      && PathNodes(P) + Nodes(sub) == PathNodes(p) + {y} + Nodes(l) + Nodes(Plug(q, sub))
      && P.Step? && (sub.Leaf? ==> e.nil in m && m[e.nil].parent == P.node)
    ensures var P, e' := SuccPath(p, l, y, c, q), Rerooted(p, e, y);
      && At(m', P, sub, e') && Ref(sub, e.nil) in m' && m'[Ref(sub, e.nil)].parent == P.node
      && x !in Nodes(sub) && x !in PathNodes(P)
    ensures x in m'
  {
    var P, e' := SuccPath(p, l, y, c, q), Rerooted(p, e, y);
    ReplaceAt(m, m', p, l, x, c, Plug(q, sub), y, e);
    SuccAt(m', p, l, y, c, q, sub, e');
    FocusReads(m', P, sub, e');
    Around(m', P, sub, e');
    assert x !in PathNodes(P) + Nodes(sub);
  }

  /** All that taking the successor out needs to know about it beforehand. */
  lemma SuccReads(m: Mem, p: Path, l: Shape, x: Node, c: bool, q: Path, y: Node, cy: bool, sub: Shape, e: Env)
    requires At(m, SuccPath(p, l, x, c, q), Fork(Leaf, y, cy, sub), e)
    ensures var P := SuccPath(p, l, x, c, q);
      && Hung(m, P, y, e) && P.Step? && (P.node == x <==> q.Top?) && P.node != y
      && Ref(sub, e.nil) in m && Ref(sub, e.nil) != P.node && Ref(sub, e.nil) != y
    ensures y in m && y != x && y != e.nil && (e.kept ==> y != e.above)
    ensures y !in Nodes(l) && y !in Nodes(Plug(q, sub)) && y !in PathNodes(p)
    ensures PathNodes(SuccPath(p, l, y, c, q)) + Nodes(sub) == PathNodes(p) + {y} + Nodes(l) + Nodes(Plug(q, sub))
  {
    var P := SuccPath(p, l, x, c, q);
    SuccApart(p, l, x, c, q, y, cy, sub);
    AtHung(m, P, Fork(Leaf, y, cy, sub), e);
    assert P.node in PathNodes(P);
    assert sub.Fork? ==> sub.node in Nodes(sub);
    assert Linked(m, sub, e.nil);
  }

  lemma AtNil(m: Mem, p: Path, t: Shape, e: Env)
    requires At(m, p, t, e)
    ensures t.Leaf? <==> Ref(t, e.nil) == e.nil
  {
  }

  lemma KidReads(m: Mem, p: Path, t: Shape, e: Env)
    requires At(m, p, t, e) && t.Fork?
    ensures t.node in m && m[t.node].red == t.red && t.node != e.nil
    ensures m[t.node].left == Ref(t.left, e.nil) && (t.left.Leaf? <==> m[t.node].left == e.nil)
    ensures m[t.node].right == Ref(t.right, e.nil) && (t.right.Leaf? <==> m[t.node].right == e.nil)
    ensures Ref(t.left, e.nil) in m && Ref(t.right, e.nil) in m
  {
  }

  /** The root `x`, black and with at most one child, may go; its parent field stays the new root's parent. */
  lemma DroppedAt(m: Mem, s: Side, x: Node, sub: Shape, e: Env)
    requires At(m, Top, Join(s, Leaf, x, false, sub), e)
    ensures At(m, Top, sub, Env(Ref(sub, e.nil), e.nil, if sub.Leaf? then e.nil else x, true))
    ensures x in m && x !in Nodes(sub) && x != e.nil
  {
  }

  /** Blackening the root pointer's target is right for the sentinel too. */
  lemma RecolourAny(m: Mem, t: Shape, e: Env)
    requires At(m, Top, t, e)
    ensures var x := Ref(t, e.nil); x in m && At(m[x := m[x].(red := false)], Top, Blacken(t), e)
  {
    if t.Fork? { Recolour(m, Top, t, e, false); }
  }

  /** A node that is not in the tree may be freed, even the one above the root. */
  lemma FreedAt(m: Mem, p: Path, t: Shape, e: Env, x: Node)
    requires At(m, p, t, e) && x !in Nodes(t) && x !in PathNodes(p) && x != e.nil
    ensures At(m - {x}, p, t, e.(kept := e.kept && x != e.above))
  {
    var e' := e.(kept := e.kept && x != e.above);
    FrameShape(m, m - {x}, t, e.nil);
    FramePath(m, m - {x}, p, Ref(t, e.nil), e);
    SamePath(m - {x}, p, Ref(t, e.nil), e, e');
  }

  lemma {:induction false} SamePath(m: Mem, p: Path, hole: Node, e: Env, e': Env)
    requires PathLinked(m, p, hole, e) && e' == e.(kept := e'.kept)
    ensures PathLinked(m, p, hole, e')
    decreases p
  {
    if p.Step? { SamePath(m, p.up, p.node, e, e'); }
  }

  /** Nor does a node that is not in the tree matter when it is recorded. */
  lemma RecordedAt(m: Mem, p: Path, t: Shape, e: Env, x: Node, c: Cell)
    requires At(m, p, t, e) && x !in m
    ensures At(m[x := c], p, t, e)
  {
    FrameShape(m, m[x := c], t, e.nil);
    FramePath(m, m[x := c], p, Ref(t, e.nil), e);
  }
}
