/** Shapes of the red-black tree of conhash/util_rbtree.c, as values.

    A `Shape` is the tree hanging below a pointer, a `Path` is what surrounds it: the chain of
    ancestors up to the root, each with the subtree on its other side.  A shape and a path
    together describe a whole tree with one place singled out, which is where an operation
    is at work.  Everything here is independent of the heap. */
module RbShape {
  import opened Sequences

  /** A tree node.  `key` and `data` are never assigned by the tree code. */
  class Node {
    const key: int
    const data: object?
    var parent: Node?
    var left: Node?
    var right: Node?
    var red: bool

    constructor (key: int, data: object?)
      ensures this.key == key && this.data == data
    {
      this.key := key;
      this.data := data;
    }
  }

  datatype Side = L | R {
    function Other(): Side { if L? then R else L }
  }

  datatype Shape = Leaf | Fork(left: Shape, node: Node, red: bool, right: Shape) {
    function Sub(s: Side): Shape
      requires Fork?
    {
      if s.L? then left else right
    }
  }

  /** `Step(up, side, ...)`: the place is the `side` child of `node`. */
  datatype Path = Top | Step(up: Path, side: Side, node: Node, red: bool, sib: Shape)

  /** The fork whose `s` subtree is `t` and whose other subtree is `u`. */
  function Join(s: Side, t: Shape, x: Node, red: bool, u: Shape): Shape {
    if s.L? then Fork(t, x, red, u) else Fork(u, x, red, t)
  }

  /** The shape after a rotation towards `s`. */
  function Turned(s: Side, t: Shape): Shape
    requires t.Fork? && t.Sub(s.Other()).Fork?
  {
    var u := t.Sub(s.Other());
    Join(s, Join(s, t.Sub(s), t.node, t.red, u.Sub(s)), u.node, u.red, u.Sub(s.Other()))
  }

  function Plug(p: Path, t: Shape): Shape {
    match p
    case Top => t
    case Step(up, s, x, c, u) => Plug(up, Join(s, t, x, c, u))
  }

  function Depth(p: Path): nat {
    if p.Top? then 0 else 1 + Depth(p.up)
  }

  // ---------- the nodes, as sets ----------

  function Nodes(t: Shape): set<Node> {
    if t.Leaf? then {} else Nodes(t.left) + {t.node} + Nodes(t.right)
  }

  function PathNodes(p: Path): set<Node> {
    if p.Top? then {} else PathNodes(p.up) + {p.node} + Nodes(p.sib)
  }

  /** No node occurs twice in the shape. */
  ghost predicate Distinct(t: Shape) {
    t.Fork? ==>
      && t.node !in Nodes(t.left) && t.node !in Nodes(t.right)
      && Nodes(t.left) !! Nodes(t.right)
      && Distinct(t.left) && Distinct(t.right)
  }

  ghost predicate PathDistinct(p: Path) {
    p.Step? ==>
      && p.node !in Nodes(p.sib) && p.node !in PathNodes(p.up)
      && Nodes(p.sib) !! PathNodes(p.up)
      && Distinct(p.sib) && PathDistinct(p.up)
  }

  ghost predicate Apart(p: Path, t: Shape) {
    Distinct(t) && PathDistinct(p) && PathNodes(p) !! Nodes(t)
  }

  // ---------- the nodes, in order ----------

  function InOrder(t: Shape): seq<Node> {
    if t.Leaf? then [] else InOrder(t.left) + [t.node] + InOrder(t.right)
  }

  /** The nodes that come before the place a path singles out. */
  function Before(p: Path): seq<Node> {
    if p.Top? then []
    else if p.side.L? then Before(p.up)
    else Before(p.up) + InOrder(p.sib) + [p.node]
  }

  function After(p: Path): seq<Node> {
    if p.Top? then []
    else if p.side.L? then [p.node] + InOrder(p.sib) + After(p.up)
    else After(p.up)
  }

  function Order(p: Path, t: Shape): seq<Node> {
    Before(p) + InOrder(t) + After(p)
  }

  /** Keys never decrease: the search order, duplicates allowed as `util_rbtree_insert` allows them. */
  ghost predicate Sorted(s: seq<Node>) {
    forall i, j :: 0 <= i < j < |s| ==> s[i].key <= s[j].key
  }

  lemma OrderStep(p: Path, t: Shape)
    requires p.Step?
    ensures Order(p, t) == Order(p.up, Join(p.side, t, p.node, p.red, p.sib))
  {
  }

  lemma {:induction false} OrderPlug(p: Path, t: Shape)
    ensures Order(p, t) == InOrder(Plug(p, t))
    decreases p
  {
    if p.Top? {
      assert [] + InOrder(t) + [] == InOrder(t);
    } else {
      OrderStep(p, t);
      OrderPlug(p.up, Join(p.side, t, p.node, p.red, p.sib));
    }
  }

  lemma {:induction false} InOrderNodes(t: Shape)
    ensures forall x :: x in InOrder(t) <==> x in Nodes(t)
  {
    if t.Fork? {
      InOrderNodes(t.left);
      InOrderNodes(t.right);
    }
  }

  lemma InOrderMember(t: Shape, x: Node)
    ensures x in InOrder(t) <==> x in Nodes(t)
  {
  }

  lemma {:induction false} PathOrderNodes(p: Path)
    ensures forall x :: x in PathNodes(p) <==> x in Before(p) || x in After(p)
    decreases p
  {
    if p.Step? {
      InOrderNodes(p.sib);
      PathOrderNodes(p.up);
    }
  }

  lemma OrderNodes(p: Path, t: Shape)
    ensures forall x :: x in Order(p, t) <==> x in PathNodes(p) || x in Nodes(t)
  {
    InOrderNodes(t);
    PathOrderNodes(p);
  }

  // ---------- balance ----------

  predicate Red(t: Shape) { t.Fork? && t.red }

  function Blacken(t: Shape): Shape {
    if t.Leaf? then t else t.(red := false)
  }

  /** `t` has no red node with a red child and every way down passes `h` black nodes. */
  ghost predicate Balanced(t: Shape, h: int) {
    if t.Leaf? then h == 0
    else
      && (t.red ==> !Red(t.left) && !Red(t.right))
      && Balanced(t.left, if t.red then h else h - 1)
      && Balanced(t.right, if t.red then h else h - 1)
  }

  predicate PathRed(p: Path) { p.Step? && p.red }

  /** What surrounds the place is in order, if the place receives a shape of black height `h`:
      the root is black, no red node on the path has a red parent or a red child off the path,
      and each subtree off the path has the height its position asks for. */
  ghost predicate PathBalanced(p: Path, h: int) {
    p.Step? ==>
      && Balanced(p.sib, h)
      && (p.red ==> !Red(p.sib) && !PathRed(p.up) && p.up.Step?)
      && PathBalanced(p.up, if p.red then h else h + 1)
  }

  function BlackHeight(t: Shape): nat {
    if t.Leaf? then 0 else BlackHeight(t.left) + if t.red then 0 else 1
  }

  lemma {:induction false} HeightNat(t: Shape, h: int)
    requires Balanced(t, h)
    ensures h >= 0 && (h == 0 && !Red(t) ==> t.Leaf?)
  {
    if t.Fork? {
      HeightNat(t.left, if t.red then h else h - 1);
    }
  }

  lemma {:induction false} BlackHeightUnique(t: Shape, h: int)
    requires Balanced(t, h)
    ensures h == BlackHeight(t)
  {
    if t.Fork? { BlackHeightUnique(t.left, if t.red then h else h - 1); }
  }

  /** The black nodes on the way from the root to the place. */
  function Blacks(p: Path): nat
    decreases p
  {
    if p.Top? then 0 else Blacks(p.up) + if p.red then 0 else 1
  }

  /** A shape that suits its surroundings gives a balanced whole with a black root. */
  lemma {:induction false} PlugBalanced(p: Path, t: Shape, h: int) returns (H: int)
    requires Balanced(t, h) && PathBalanced(p, h)
    requires !(Red(t) && PathRed(p)) && !(Red(t) && p.Top?)
    ensures Balanced(Plug(p, t), H) && !Red(Plug(p, t)) && H == h + Blacks(p)
    decreases p
  {
    if p.Top? {
      H := h;
    } else {
      var u := Join(p.side, t, p.node, p.red, p.sib);
      H := PlugBalanced(p.up, u, if p.red then h else h + 1);
    }
  }

  lemma JoinBalanced(s: Side, t: Shape, x: Node, red: bool, u: Shape, h: int)
    ensures Balanced(Join(s, t, x, red, u), h) <==>
            && (red ==> !Red(t) && !Red(u))
            && Balanced(t, if red then h else h - 1) && Balanced(u, if red then h else h - 1)
  {
  }

  /** Conversely, in a balanced tree every place suits its surroundings. */
  lemma {:induction false} UnplugBalanced(p: Path, t: Shape)
    requires var r := Plug(p, t); Balanced(r, BlackHeight(r)) && !Red(r)
    ensures Balanced(t, BlackHeight(t)) && PathBalanced(p, BlackHeight(t))
    ensures Red(t) ==> p.Step? && !PathRed(p)
    decreases p
  {
    if p.Step? {
      var u := Join(p.side, t, p.node, p.red, p.sib);
      UnplugBalanced(p.up, u);
      var h := if p.red then BlackHeight(u) else BlackHeight(u) - 1;
      JoinBalanced(p.side, t, p.node, p.red, p.sib, BlackHeight(u));
      BlackHeightUnique(t, h);
    }
  }

  /** A new red node may hang at any leaf of a balanced tree. */
  lemma SlotFits(p: Path, x: Node)
    requires var r := Plug(p, Leaf); Balanced(r, BlackHeight(r)) && !Red(r)
    ensures OneRed(p, Fork(Leaf, x, true, Leaf), 0) && BlackHeight(Plug(p, Leaf)) == Blacks(p)
  {
    UnplugBalanced(p, Leaf);
    var H := PlugBalanced(p, Leaf, 0);
    BlackHeightUnique(Plug(p, Leaf), H);
  }

  lemma InsertSorted(a: seq<Node>, x: Node, b: seq<Node>)
    requires Sorted(a + b)
    requires (forall z :: z in a ==> z.key <= x.key) && (forall z :: z in b ==> x.key < z.key)
    ensures Sorted(a + [x] + b)
    ensures forall k :: 0 <= k < |a| ==> (a + b)[k].key <= x.key
    ensures forall k :: |a| <= k < |a + b| ==> x.key < (a + b)[k].key
  {
    var s, s' := a + b, a + [x] + b;
    assert forall k :: 0 <= k < |a| ==> s[k] == a[k] == s'[k];
    assert forall k :: |a| < k < |s'| ==> s'[k] == s[k - 1] == b[k - |a| - 1];
    forall k | |a| <= k < |s| ensures x.key < s[k].key {
      assert s[k] == b[k - |a|];
    }
  }

  lemma SubBalanced(t: Shape, h: int)
    requires Balanced(t, h) && t.Fork?
    ensures forall s: Side :: Balanced(t.Sub(s), if t.red then h else h - 1) && (t.red ==> !Red(t.Sub(s)))
  {
  }

  /** The loop invariant of `rbtree_insert_fixup`: `t`'s root is red, and the edge above it is the only
      place where a red node may have a red parent. */
  ghost predicate OneRed(p: Path, t: Shape, h: int) {
    Red(t) && Balanced(t, h) && PathBalanced(p, h)
  }

  /** From this place on the loop of `rbtree_insert_fixup` takes case 1 all the way up to the root. */
  ghost predicate Climbs(p: Path)
    decreases p
  {
    p.Top? || (p.red && p.up.Step? && Red(p.up.sib) && Climbs(p.up.up))
  }

  /** The shape at the grandparent after case 1 of `rbtree_insert_fixup`. */
  function Lifted(p: Path, t: Shape): Shape
    requires p.Step? && p.up.Step?
  {
    Join(p.up.side, Join(p.side, t, p.node, false, p.sib), p.up.node, true, Blacken(p.up.sib))
  }

  lemma LiftedOneRed(p: Path, t: Shape, h: int)
    requires OneRed(p, t, h) && PathRed(p) && p.up.Step? && Red(p.up.sib)
    ensures OneRed(p.up.up, Lifted(p, t), h + 1)
    ensures Blacks(p.up.up) + 1 == Blacks(p) && (Climbs(p.up.up) <==> Climbs(p))
  {
    assert PathBalanced(p.up, h);
    JoinBalanced(p.side, t, p.node, false, p.sib, h + 1);
    JoinBalanced(p.up.side, Join(p.side, t, p.node, false, p.sib), p.up.node, true, Blacken(p.up.sib), h + 1);
  }

  /** The surroundings of the red node after case 3: its parent, now black, has taken the grandparent's
      place and has the grandparent, now red, on the other side. */
  function Settled(p: Path): Path
    requires p.Step? && p.up.Step?
  {
    var s := p.side;
    Step(p.up.up, s, p.node, false, Join(s, p.sib, p.up.node, true, p.up.sib))
  }

  lemma SettledOneRed(p: Path, t: Shape, h: int)
    requires OneRed(p, t, h) && PathRed(p) && p.up.Step? && !Red(p.up.sib) && p.side == p.up.side
    ensures OneRed(Settled(p), t, h) && !PathRed(Settled(p))
    ensures Blacks(Settled(p)) == Blacks(p) && !Climbs(Settled(p)) && !Climbs(p)
  {
    assert PathBalanced(p.up, h);
    JoinBalanced(p.side, p.sib, p.up.node, true, p.up.sib, h);
  }

  /** The grandparent's shape before the rotation of case 3, recoloured. */
  function Leaning(p: Path, t: Shape): Shape
    requires p.Step? && p.up.Step?
  {
    Join(p.up.side, Join(p.side, t, p.node, false, p.sib), p.up.node, true, p.up.sib)
  }

  lemma LeaningTurned(p: Path, t: Shape)
    requires p.Step? && p.up.Step? && p.side == p.up.side
    ensures Leaning(p, t).Sub(p.side) == Join(p.side, t, p.node, false, p.sib)
    ensures Turned(p.side.Other(), Leaning(p, t)) ==
            Join(Settled(p).side, t, Settled(p).node, Settled(p).red, Settled(p).sib)
  {
  }

  /** Case 2 of `rbtree_insert_fixup` makes the old parent, with what was below it, the place. */
  function UnbentPath(p: Path, t: Shape): Path
    requires p.Step? && t.Fork?
  {
    Step(p.up, p.side.Other(), t.node, t.red, t.Sub(p.side))
  }

  function Unbent(p: Path, t: Shape): Shape
    requires p.Step? && t.Fork?
  {
    Join(p.side.Other(), p.sib, p.node, p.red, t.Sub(p.side.Other()))
  }

  lemma UnbentTurned(p: Path, t: Shape)
    requires p.Step? && t.Fork?
    ensures Turned(p.side.Other(), Join(p.side, t, p.node, p.red, p.sib)) ==
            Join(p.side.Other(), Unbent(p, t), t.node, t.red, t.Sub(p.side))
  {
  }

  lemma UnbentOneRed(p: Path, t: Shape, h: int)
    requires OneRed(p, t, h) && PathRed(p)
    ensures OneRed(UnbentPath(p, t), Unbent(p, t), h) && PathRed(UnbentPath(p, t))
    ensures Blacks(UnbentPath(p, t)) == Blacks(p)
  {
  }

  lemma {:induction false} PlugFork(p: Path, t: Shape)
    requires p.Step? || t.Fork?
    ensures Plug(p, t).Fork?
    decreases p
  {
    if p.Step? { PlugFork(p.up, Join(p.side, t, p.node, p.red, p.sib)); }
  }

  /** Blackening the root at last leaves a balanced tree. */
  lemma OneRedBlackened(p: Path, t: Shape, h: int)
    requires OneRed(p, t, h) && !PathRed(p)
    ensures Plug(p, t).Fork?
    ensures var r := Blacken(Plug(p, t));
      && Balanced(r, BlackHeight(r)) && !Red(r)
      && BlackHeight(r) == h + Blacks(p) + if p.Top? then 1 else 0
  {
    PlugFork(p, t);
    var r := Blacken(Plug(p, t));
    var H := h + 1;
    if p.Step? {
      H := PlugBalanced(p, t, h);
      assert r == Plug(p, t);
    }
    assert Balanced(r, H);
    BlackHeightUnique(r, H);
  }

  /** In a sorted tree a key at or above `t`'s root key is above all on the left, and the mirror image. */
  lemma SortedAround(p: Path, t: Shape)
    requires t.Fork? && Sorted(Order(p, t))
    ensures forall z :: z in InOrder(t.left) ==> z.key <= t.node.key
    ensures forall z :: z in InOrder(t.right) ==> t.node.key <= z.key
  {
    var s, i := Order(p, t), |Before(p)| + |InOrder(t.left)|;
    assert s == Before(p) + InOrder(t.left) + [t.node] + (InOrder(t.right) + After(p));
    assert s[i] == t.node;
    forall z | z in InOrder(t.left) ensures z.key <= t.node.key {
      var k :| 0 <= k < |InOrder(t.left)| && InOrder(t.left)[k] == z;
      assert s[|Before(p)| + k] == z;
    }
    forall z | z in InOrder(t.right) ensures t.node.key <= z.key {
      var k :| 0 <= k < |InOrder(t.right)| && InOrder(t.right)[k] == z;
      assert s[i + 1 + k] == z;
    }
  }

  // ---------- deletion ----------

  /** The loop invariant of `rbtree_delete_fixup`: the place holds one black node fewer than its
      surroundings ask for, a lack that blackening a red root of `t` would make good. */
  ghost predicate Short(p: Path, t: Shape, h: int) {
    && PathBalanced(p, h + 1)
    && (if Red(t) then Balanced(Blacken(t), h + 1) else Balanced(t, h))
  }

  /** The surroundings after case 1: the red sibling has become the black grandparent. */
  function Nearer(p: Path): Path
    requires p.Step? && p.sib.Fork?
  {
    var s := p.side;
    Step(Step(p.up, s, p.sib.node, false, p.sib.Sub(s.Other())), s, p.node, true, p.sib.Sub(s))
  }

  lemma NearerTurned(p: Path, t: Shape)
    requires p.Step? && p.sib.Fork?
    ensures var s, q := p.side, Nearer(p);
            Turned(s, Join(s, t, p.node, true, p.sib.(red := false)))
            == Join(s, Join(s, t, p.node, true, q.sib), p.sib.node, false, q.up.sib)
  {
  }

  /** The surroundings after case 3: the red nephew, now black, is the sibling. */
  function Straight(p: Path): Path
    requires p.Step? && p.sib.Fork? && p.sib.Sub(p.side).Fork?
  {
    var s, u := p.side, p.sib;
    p.(sib := Turned(s.Other(), Join(s, Blacken(u.Sub(s)), u.node, true, u.Sub(s.Other()))))
  }

  /** The surroundings after the recolouring of case 4. */
  function Coloured(p: Path): Path
    requires p.Step? && p.sib.Fork?
  {
    var s, u := p.side, p.sib;
    p.(red := false, sib := Join(s.Other(), Blacken(u.Sub(s.Other())), u.node, p.red, u.Sub(s)))
  }

  /** The shape at the parent after case 4. */
  function Filled(p: Path, t: Shape): Shape
    requires p.Step? && p.sib.Fork?
  {
    var s, u := p.side, p.sib;
    Join(s, Join(s, t, p.node, false, u.Sub(s)), u.node, p.red, Blacken(u.Sub(s.Other())))
  }

  lemma FilledTurned(p: Path, t: Shape)
    requires p.Step? && p.sib.Fork?
    ensures Turned(p.side, Join(p.side, t, p.node, false, Coloured(p).sib)) == Filled(p, t)
  {
  }

  lemma ShortSibling(p: Path, t: Shape, h: int)
    requires Short(p, t, h) && !Red(t) && p.Step?
    ensures p.sib.Fork? && (Red(p.sib) ==> !p.red)
  {
    BlackHeightUnique(t, h);
  }

  lemma NearerShort(p: Path, t: Shape, h: int)
    requires Short(p, t, h) && !Red(t) && p.Step? && Red(p.sib)
    ensures Short(Nearer(p), t, h) && !Red(Nearer(p).sib) && Nearer(p).sib.Fork?
  {
    assert Balanced(p.sib.left, h + 1) && Balanced(p.sib.right, h + 1) && PathBalanced(p.up, h + 2);
    ShortSibling(Nearer(p), t, h);
  }

  /** Case 2 hands the lack of one black node to the parent. */
  lemma HandedUp(p: Path, t: Shape, h: int) returns (h': int)
    requires Short(p, t, h) && !Red(t) && p.Step? && p.sib.Fork? && !Red(p.sib)
    requires !Red(p.sib.left) && !Red(p.sib.right)
    ensures Short(p.up, Join(p.side, t, p.node, p.red, p.sib.(red := true)), h')
  {
    var u := p.sib.(red := true);
    h' := if p.red then h else h + 1;
    assert Balanced(u, h);
    JoinBalanced(p.side, t, p.node, false, u, h + 1);
  }

  lemma StraightShort(p: Path, t: Shape, h: int)
    requires Short(p, t, h) && !Red(t) && p.Step? && p.sib.Fork? && !Red(p.sib)
    requires Red(p.sib.Sub(p.side)) && !Red(p.sib.Sub(p.side.Other()))
    ensures Short(Straight(p), t, h) && !Red(Straight(p).sib) && Red(Straight(p).sib.Sub(p.side.Other()))
  {
    var s, u := p.side, p.sib;
    var v := u.Sub(s);
    SubBalanced(u, h + 1);
    SubBalanced(v, h);
    JoinBalanced(s.Other(), u.Sub(s.Other()), u.node, true, v.Sub(s.Other()), h);
    JoinBalanced(s.Other(), Join(s.Other(), u.Sub(s.Other()), u.node, true, v.Sub(s.Other())), v.node, false, v.Sub(s), h + 1);
  }

  /** After case 4 the whole tree is balanced again. */
  lemma FilledBalanced(p: Path, t: Shape, h: int)
    requires Short(p, t, h) && !Red(t) && p.Step? && p.sib.Fork? && !Red(p.sib)
    requires Red(p.sib.Sub(p.side.Other()))
    ensures var r := Plug(p.up, Filled(p, t)); Balanced(r, BlackHeight(r)) && !Red(r)
  {
    var s, u := p.side, p.sib;
    var h' := if p.red then h + 1 else h + 2;
    SubBalanced(u, h + 1);
    SubBalanced(u.Sub(s.Other()), h);
    assert Red(Filled(p, t)) == p.red && PathBalanced(p.up, h');
    JoinBalanced(s, t, p.node, false, u.Sub(s), h + 1);
    JoinBalanced(s, Join(s, t, p.node, false, u.Sub(s)), u.node, p.red, Blacken(u.Sub(s.Other())), h');
    var H := PlugBalanced(p.up, Filled(p, t), h');
    BlackHeightUnique(Plug(p.up, Filled(p, t)), H);
  }

  /** Blackening the place at last leaves a balanced tree. */
  lemma ShortBlackened(p: Path, t: Shape, h: int)
    requires Short(p, t, h) && (Red(t) || p.Top?)
    ensures var r := Plug(p, Blacken(t)); Balanced(r, BlackHeight(r)) && !Red(r)
  {
    var H := h;
    if Red(t) {
      H := PlugBalanced(p, Blacken(t), h + 1);
    }
    BlackHeightUnique(Plug(p, Blacken(t)), H);
  }

  lemma ShortTop(t: Shape, h: int)
    requires Balanced(t, h) && !Red(t)
    ensures Short(Top, t, h)
  {
  }

  /** The path `q` continued upwards by `p`. */
  function Over(p: Path, q: Path): Path
    decreases q
  {
    if q.Top? then p else q.(up := Over(p, q.up))
  }

  lemma {:induction false} OverPlug(p: Path, q: Path, t: Shape)
    ensures Plug(Over(p, q), t) == Plug(p, Plug(q, t))
    decreases q
  {
    if q.Step? { OverPlug(p, q.up, Join(q.side, t, q.node, q.red, q.sib)); }
  }

  lemma {:induction false} Locate(t: Shape, x: Node) returns (p: Path, u: Shape)
    requires x in Nodes(t)
    ensures Plug(p, u) == t && u.Fork? && u.node == x
  {
    if t.node == x {
      p, u := Top, t;
    } else {
      var s := if x in Nodes(t.left) then L else R;
      var q;
      q, u := Locate(t.Sub(s), x);
      var top := Step(Top, s, t.node, t.red, t.Sub(s.Other()));
      OverPlug(top, q, u);
      p := Over(top, q);
    }
  }

  /** A node's name does not matter for balance. */
  lemma {:induction false} RenamedBalanced(p: Path, x: Node, y: Node, c: bool, l: Shape, q: Path, h: int)
    requires PathBalanced(Over(Step(p, R, x, c, l), q), h)
    ensures PathBalanced(Over(Step(p, R, y, c, l), q), h)
    ensures PathRed(Over(Step(p, R, x, c, l), q)) == PathRed(Over(Step(p, R, y, c, l), q))
    decreases q
  {
    if q.Step? { RenamedBalanced(p, x, y, c, l, q.up, if q.red then h else h + 1); }
  }

  /** Taking out a node with at most one child: below a black one the place falls short of one black
      node; a red one has no child at all. */
  lemma UnhookedBalanced(p: Path, s: Side, x: Node, c: bool, sub: Shape)
    requires var r := Plug(p, Join(s, Leaf, x, c, sub)); Balanced(r, BlackHeight(r)) && !Red(r)
    ensures !c ==> Short(p, sub, 0)
    ensures c ==> sub.Leaf? && p.Step? && !PathRed(p) && PathBalanced(p, 0)
    ensures p.Top? ==> Balanced(Blacken(sub), BlackHeight(Blacken(sub)))
  {
    var t := Join(s, Leaf, x, c, sub);
    UnplugBalanced(p, t);
    var h := BlackHeight(t);
    JoinBalanced(s, Leaf, x, c, sub, h);
    BlackHeightUnique(Blacken(sub), if Red(sub) then 1 else 0);
  }

  lemma {:induction false} OverNodes(p: Path, q: Path, t: Shape)
    ensures PathNodes(Over(p, q)) + Nodes(t) == PathNodes(p) + Nodes(Plug(q, t))
    decreases q
  {
    if q.Step? {
      var u := Join(q.side, t, q.node, q.red, q.sib);
      OverNodes(p, q.up, u);
      assert Nodes(u) == Nodes(t) + {q.node} + Nodes(q.sib);
    }
  }

  lemma WithoutSorted(s: seq<Node>, i: nat)
    requires i < |s| && Sorted(s)
    ensures Sorted(Without(s, i))
  {
  }

  lemma MiddleWithout<T>(a: seq<T>, b: seq<T>, x: T, c: seq<T>, d: seq<T>)
    ensures var s, i := a + (b + [x] + c) + d, |a| + |b|;
      i < |s| && s[i] == x && Without(s, i) == a + (b + c) + d
  {
  }

  /** Where `t`'s root is in the order of the whole, and what is left without it. */
  lemma RootWithout(p: Path, t: Shape) returns (i: nat)
    requires t.Fork?
    ensures i < |Order(p, t)| && Order(p, t)[i] == t.node
    ensures Without(Order(p, t), i) == Before(p) + (InOrder(t.left) + InOrder(t.right)) + After(p)
  {
    hide Without;
    i := |Before(p)| + |InOrder(t.left)|;
    MiddleWithout(Before(p), InOrder(t.left), t.node, InOrder(t.right), After(p));
  }

  lemma SuccTail(q: Path, y: Node, cy: bool, sub: Shape)
    requires Before(q) == []
    ensures InOrder(Plug(q, Fork(Leaf, y, cy, sub))) == [y] + InOrder(Plug(q, sub))
  {
    OrderPlug(q, sub);
    OrderPlug(q, Fork(Leaf, y, cy, sub));
    assert InOrder(Fork(Leaf, y, cy, sub)) == [] + [y] + InOrder(sub);
    assert [] + ([] + [y] + InOrder(sub)) + After(q) == [y] + ([] + InOrder(sub) + After(q));
  }

  /** `x` out and its successor `y` in its place: the order without `x`. */
  lemma SuccOrder(p: Path, l: Shape, x: Node, c: bool, q: Path, y: Node, cy: bool, sub: Shape)
    requires Before(q) == []
    ensures var r, P := Plug(q, Fork(Leaf, y, cy, sub)), Over(Step(p, R, y, c, l), q);
      Order(P, sub) == Before(p) + (InOrder(l) + InOrder(r)) + After(p)
  {
    hide Before, After, Plug, Over, Order, InOrder;
    var r, r', P := Plug(q, Fork(Leaf, y, cy, sub)), Plug(q, sub), Over(Step(p, R, y, c, l), q);
    SuccTail(q, y, cy, sub);
    OrderPlug(P, sub);
    OverPlug(Step(p, R, y, c, l), q, sub);
    OrderPlug(Step(p, R, y, c, l), r');
    OrderStep(Step(p, R, y, c, l), r');
    ForkOrder(p, l, y, c, r');
  }

  lemma ForkOrder(p: Path, l: Shape, y: Node, c: bool, r: Shape)
    ensures Order(p, Fork(l, y, c, r)) == Before(p) + (InOrder(l) + ([y] + InOrder(r))) + After(p)
  {
    var t := Fork(l, y, c, r);
    assert InOrder(t) == InOrder(l) + [y] + InOrder(r);
    hide InOrder, Before, After;
    Regrouped(InOrder(l), [y], InOrder(r));
  }

  lemma Regrouped<T>(a: seq<T>, b: seq<T>, c: seq<T>)
    ensures a + b + c == a + (b + c)
  {
  }

  /** A balanced tree whose black root has a missing child has at most two nodes. */
  lemma SlimRoot(t: Shape, s: Side)
    requires t.Fork? && !t.red && Balanced(t, BlackHeight(t)) && t.Sub(s).Leaf?
    ensures |InOrder(t)| == if t.Sub(s.Other()).Leaf? then 1 else 2
  {
    var u := t.Sub(s.Other());
    if u.Fork? {
      HeightNat(u, 0);
      HeightNat(u.left, 0);
      HeightNat(u.right, 0);
    }
  }

  lemma SlimOrder(p: Path, s: Side, x: Node, c: bool, sub: Shape)
    ensures var t := Join(s, Leaf, x, c, sub);
      Order(p, sub) == Before(p) + (InOrder(t.left) + InOrder(t.right)) + After(p)
    ensures p.Top? ==> InOrder(Blacken(sub)) == Order(p, sub)
  {
    assert InOrder(sub) + [] == InOrder(sub) == [] + InOrder(sub);
  }

  /** The successor's old surroundings with its new name in them. */
  lemma SuccBalanced(p: Path, l: Shape, x: Node, c: bool, q: Path, y: Node, cy: bool, sub: Shape)
    requires var P := Over(Step(p, R, x, c, l), q);
      && (!cy ==> Short(P, sub, 0))
      && (cy ==> sub.Leaf? && P.Step? && !PathRed(P) && PathBalanced(P, 0))
    ensures var P := Over(Step(p, R, y, c, l), q);
      && P.Step?
      && (!cy ==> Short(P, sub, 0))
      && (cy ==> sub.Leaf? && !PathRed(P) && PathBalanced(P, 0))
  {
    RenamedBalanced(p, x, y, c, l, q, if cy then 0 else 1);
  }

  // ---------- depth ----------

  function Height(t: Shape): nat {
    if t.Leaf? then 0 else 1 + if Height(t.left) < Height(t.right) then Height(t.right) else Height(t.left)
  }

  function Pow2(n: nat): nat {
    if n == 0 then 1 else 2 * Pow2(n - 1)
  }

  /** A balanced tree is at most twice as high as it has black nodes on a way down, and is full down to
      the black height. */
  lemma {:induction false} BalancedHeight(t: Shape, h: int)
    requires Balanced(t, h)
    ensures h >= 0 && Height(t) <= 2 * h + (if Red(t) then 1 else 0)
    ensures |InOrder(t)| + 1 >= Pow2(h)
  {
    if t.Fork? {
      BalancedHeight(t.left, if t.red then h else h - 1);
      BalancedHeight(t.right, if t.red then h else h - 1);
    }
  }

  lemma {:induction false} Pow2Monotone(a: nat, b: nat)
    requires a <= b
    ensures Pow2(a) <= Pow2(b)
    decreases b
  {
    if a < b { Pow2Monotone(a, b - 1); }
  }

  lemma {:induction false} Pow2Add(a: nat, b: nat)
    ensures Pow2(a + b) == Pow2(a) * Pow2(b)
    decreases b
  {
    if b > 0 {
      Pow2Add(a, b - 1);
      assert Pow2(a) * (2 * Pow2(b - 1)) == 2 * (Pow2(a) * Pow2(b - 1));
    }
  }

  /** No way down a red-black tree of `n` nodes is longer than 2 log2(n + 1). */
  lemma LogHeight(t: Shape, d: nat)
    requires Balanced(t, BlackHeight(t)) && !Red(t) && d <= Height(t)
    ensures Pow2(d) <= (|InOrder(t)| + 1) * (|InOrder(t)| + 1)
  {
    hide Balanced, InOrder, Pow2, Height;
    var h, n := BlackHeight(t), |InOrder(t)| + 1;
    BalancedHeight(t, h);
    Pow2Monotone(d, h + h);
    Pow2Add(h, h);
    SquareMonotone(Pow2(h), n);
  }

  lemma SquareMonotone(a: nat, b: nat)
    requires a <= b
    ensures a * a <= b * b
  {
  }

  // ---------- looking up ----------

  /** `s[i]` is the first node whose key is at least `key`, or the first of all if there is none. */
  ghost predicate IsCeiling(s: seq<Node>, key: int, i: nat) {
    && i < |s|
    && (s[i].key >= key || i == 0)
    && (forall k :: 0 <= k < i ==> s[k].key < key)
    && (s[i].key < key ==> forall k :: 0 <= k < |s| ==> s[k].key < key)
  }

  /** The place divides the nodes off the path into those below `key` and those at or above it. */
  ghost predicate Divides(p: Path, key: int) {
    (forall z :: z in Before(p) ==> z.key < key) && (forall z :: z in After(p) ==> key <= z.key)
  }

  lemma DividesDown(p: Path, t: Shape, key: int)
    requires Divides(p, key) && t.Fork? && Sorted(Order(p, t))
    ensures key <= t.node.key ==>
      var q := Step(p, L, t.node, t.red, t.right); Divides(q, key) && After(q) != [] && After(q)[0] == t.node
    ensures key > t.node.key ==>
      var q := Step(p, R, t.node, t.red, t.left); Divides(q, key) && After(q) == After(p)
  {
    SortedAround(p, t);
  }

  lemma DividedCeiling(p: Path, key: int)
    requires Divides(p, key)
    ensures var s := Order(p, Leaf);
      && |s| == |Before(p)| + |After(p)|
      && (After(p) != [] ==> IsCeiling(s, key, |Before(p)|) && s[|Before(p)|] == After(p)[0])
      && (After(p) == [] && s != [] ==> IsCeiling(s, key, 0))
  {
  }
}
