/** The consistent-hash ring of conhash/conhash.c and conhash/conhash_inter.c, kept in a red-black tree
    of virtual nodes. */
module ConHash {
  import opened RbShape
  import opened RbTree
  import opened Options
  import opened RingSpec
  import opened Sequences
  import opened Text

  // ---------- servers and their replicas ----------

  /** `node_s`.  Built by `conhash_set_node`, which keeps at most 63 characters of the name. */
  class Server {
    const iden: string
    const replicas: nat
    var init: bool
    var inRing: bool

    constructor (iden: string, replicas: nat)
      ensures this.iden == Truncated(iden) && this.replicas == replicas && init && !inRing
    {
      this.iden := Truncated(iden);
      this.replicas := replicas;
      init, inRing := true, false;
    }
  }

  class VirtualNode {
    const hash: int
    const node: Server

    constructor (hash: int, node: Server)
      ensures this.hash == hash && this.node == node
    {
      this.hash, this.node := hash, node;
    }
  }

  function Truncated(iden: string): (r: string)
    ensures r <= iden && |r| == if |iden| < 63 then |iden| else 63
  {
    if |iden| <= 63 then iden else iden[..63]
  }

  /** `__conhash_node2string`: the name, a dash and the number in at least three digits. */
  function ReplicaName(iden: string, i: nat): string {
    var d := Digits(i);
    iden + "-" + (if |d| == 1 then "00" + d else if |d| == 2 then "0" + d else d)
  }

  function Replicas(hash: string -> int, iden: string, n: nat): set<int> {
    set i | 0 <= i < n :: hash(ReplicaName(iden, i))
  }

  /** What follows the dash: the number, in three digits below 1000 and else in as many as it needs. */
  lemma ReplicaNumber(iden: string, i: nat) returns (rest: string)
    ensures ReplicaName(iden, i) == iden + "-" + rest
    ensures AllDigits(rest) && Number(rest) == i
    ensures |rest| >= 3 && (i < 1000 <==> |rest| == 3)
  {
    var d := Digits(i);
    DigitsPlain(i);
    DigitsBack(i);
    hide Digits;
    var z := if |d| == 1 then "00" else if |d| == 2 then "0" else "";
    rest := z + d;
    ZerosBefore(z, d);
    assert ReplicaName(iden, i) == iden + "-" + rest;
  }

  /** No two replicas have the same name, neither of one server nor of two. */
  lemma ReplicaNamesDiffer(a: string, i: nat, b: string, j: nat)
    requires ReplicaName(a, i) == ReplicaName(b, j)
    ensures a == b && i == j
  {
    var r := ReplicaNumber(a, i);
    var t := ReplicaNumber(b, j);
    hide ReplicaName, Number;
    LastDash(a, r, b, t);
  }

  /** How many digits a text ends with. */
  function Trailing(s: string): nat {
    if s == "" || !('0' <= s[|s| - 1] <= '9') then 0 else 1 + Trailing(s[..|s| - 1])
  }

  lemma {:induction false} TrailingIs(a: string, r: string)
    requires AllDigits(r)
    ensures Trailing(a + "-" + r) == |r|
    decreases |r|
  {
    var s := a + "-" + r;
    if r != "" {
      TrailingIs(a, r[..|r| - 1]);
      assert s[..|s| - 1] == a + "-" + r[..|r| - 1];
    }
  }

  lemma LastDash(a: string, r: string, b: string, t: string)
    requires a + "-" + r == b + "-" + t && AllDigits(r) && AllDigits(t)
    ensures a == b && r == t
  {
    TrailingIs(a, r);
    TrailingIs(b, t);
    assert a == (a + "-" + r)[..|a|] && b == (b + "-" + t)[..|b|];
    assert r == (a + "-" + r)[|a| + 1..] && t == (b + "-" + t)[|b| + 1..];
  }

  // ---------- the tree shows the ring ----------

  ghost predicate IsVnode(x: Node, m: map<int, Server>) {
    && x.data is VirtualNode && x.key in m
    && (x.data as VirtualNode).hash == x.key && (x.data as VirtualNode).node == m[x.key]
  }

  ghost predicate Rising(s: seq<Node>) {
    forall i, j :: 0 <= i < j < |s| ==> s[i].key < s[j].key
  }

  ghost predicate Shows(s: seq<Node>, m: map<int, Server>) {
    && Rising(s)
    && (forall x :: x in s ==> IsVnode(x, m))
    && (forall h :: h in m ==> exists x :: x in s && x.key == h)
  }

  /** The sentinel and the nodes of the tree are all that is allocated. */
  ghost predicate Live(nodes: set<Node>, nil: Node, s: seq<Node>) {
    nil !in s && nodes == Elements(s) + {nil}
  }

  lemma LiveInsert(nodes: set<Node>, nil: Node, s: seq<Node>, i: nat, x: Node)
    requires Live(nodes, nil, s) && i <= |s| && x != nil
    ensures Live(nodes + {x}, nil, s[..i] + [x] + s[i..])
  {
    var s' := s[..i] + [x] + s[i..];
    forall y | y in s ensures y in s' {
      var k :| 0 <= k < |s| && s[k] == y;
      assert s'[if k < i then k else k + 1] == y;
    }
    assert s'[i] == x;
  }

  lemma LiveDelete(nodes: set<Node>, nil: Node, s: seq<Node>, i: nat)
    requires Live(nodes, nil, s) && Rising(s) && i < |s|
    ensures s[i] in nodes && s[i] != nil && s[i] !in Without(s, i)
    ensures Live(nodes - {s[i]}, nil, Without(s, i))
  {
    RisingDelete(s, i);
  }

  lemma LiveNone(nodes: set<Node>, nil: Node)
    requires Live(nodes, nil, [])
    ensures nodes == {nil}
  {
  }

  lemma {:induction false} LiveSize(nodes: set<Node>, nil: Node, s: seq<Node>)
    requires Live(nodes, nil, s) && Rising(s)
    ensures |nodes| == |s| + 1
    decreases |s|
  {
    if s == [] {
      assert nodes == {nil};
    } else {
      var n := |s| - 1;
      LiveDelete(nodes, nil, s, n);
      assert Without(s, n) == s[..n];
      LiveSize(nodes - {s[n]}, nil, s[..n]);
    }
  }

  lemma RisingInsert(s: seq<Node>, i: nat, x: Node)
    requires Rising(s) && i <= |s|
    requires forall k :: 0 <= k < i ==> s[k].key < x.key
    requires forall k :: i <= k < |s| ==> x.key < s[k].key
    ensures Rising(s[..i] + [x] + s[i..])
  {
  }

  lemma RisingKeys(s: seq<Node>, x: Node, y: Node)
    requires Rising(s) && x in s && y in s
    ensures x == y <==> x.key == y.key
  {
  }

  lemma RisingDelete(s: seq<Node>, i: nat)
    requires Rising(s) && i < |s|
    ensures Rising(Without(s, i)) && s[i] !in Without(s, i)
    ensures forall x :: x in s ==> x == s[i] || x in Without(s, i)
  {
  }

  lemma InsertMembers<T>(s: seq<T>, i: nat, x: T)
    requires i <= |s|
    ensures forall y :: y in s[..i] + [x] + s[i..] <==> y == x || y in s
  {
  }

  lemma ShowInsert(s: seq<Node>, m: map<int, Server>, i: nat, x: Node, srv: Server)
    requires Shows(s, m) && i <= |s| && x.key !in m && IsVnode(x, m[x.key := srv])
    requires forall k :: 0 <= k < i ==> s[k].key <= x.key
    requires forall k :: i <= k < |s| ==> x.key < s[k].key
    ensures Shows(s[..i] + [x] + s[i..], m[x.key := srv])
  {
    var s', m' := s[..i] + [x] + s[i..], m[x.key := srv];
    assert Rising(s') by {
      assert forall k :: 0 <= k < i ==> s[k] in s;
      RisingInsert(s, i, x);
    }
    InsertMembers(s, i, x);
    forall h | h in m' ensures exists y :: y in s' && y.key == h {
      if h != x.key {
        var y :| y in s && y.key == h;
      } else {
        assert x in s';
      }
    }
  }

  lemma ShowDelete(s: seq<Node>, m: map<int, Server>, i: nat)
    requires Shows(s, m) && i < |s|
    ensures Shows(Without(s, i), m - {s[i].key})
  {
    var s', m' := Without(s, i), m - {s[i].key};
    RisingDelete(s, i);
    forall y | y in s' ensures IsVnode(y, m') {
      var k :| 0 <= k < |s'| && s'[k] == y;
      assert y == s[if k < i then k else k + 1];
      assert IsVnode(y, m);
    }
    forall h | h in m' ensures exists y :: y in s' && y.key == h {
      var y :| y in s && y.key == h;
      assert y in s';
    }
  }

  lemma {:induction false} ShowCount(s: seq<Node>, m: map<int, Server>)
    requires Shows(s, m)
    ensures |s| == |m|
    decreases |s|
  {
    if s == [] {
      assert forall h :: h !in m;
    } else {
      assert IsVnode(s[0], m);
      ShowDelete(s, m, 0);
      ShowCount(Without(s, 0), m - {s[0].key});
      assert m.Keys == (m - {s[0].key}).Keys + {s[0].key};
      assert |(m - {s[0].key}).Keys| == |m - {s[0].key}|;
    }
  }

  lemma VnodeAt(s: seq<Node>, m: map<int, Server>, k: int, i: nat)
    requires Shows(s, m) && IsCeiling(s, k, i)
    ensures i < |s| && s[i].data is VirtualNode && s[i].key in m
    ensures (s[i].data as VirtualNode).hash == s[i].key && (s[i].data as VirtualNode).node == m[s[i].key]
  {
    assert IsVnode(s[i], m);
  }

  lemma WrapZero(n: nat)
    ensures n == 0 ==> Wrap(n) == 0
  {
  }

  lemma ShowCeiling(s: seq<Node>, m: map<int, Server>, k: int, i: nat)
    requires Shows(s, m) && IsCeiling(s, k, i)
    ensures s[i].key in m && Owner(m, k) == Some(m[s[i].key])
  {
    assert IsVnode(s[i], m);
    forall g | g in m.Keys && (g >= k || s[i].key < k) ensures s[i].key <= g {
      var y :| y in s && y.key == g;
      var j :| 0 <= j < |s| && s[j] == y;
    }
    if s[i].key < k {
      forall g | g in m.Keys ensures g < k {
        var y :| y in s && y.key == g;
      }
    }
    OwnerIs(m, k, s[i].key);
  }

  // ---------- the ring ----------

  lemma ReplicasStep(hash: string -> int, iden: string, i: nat)
    ensures Replicas(hash, iden, i + 1) == Replicas(hash, iden, i) + {hash(ReplicaName(iden, i))}
  {
  }

  lemma NoReplicas(hash: string -> int, iden: string, m: map<int, Server>, s: Server)
    ensures Added(m, Replicas(hash, iden, 0), s) == m == Removed(m, Replicas(hash, iden, 0), s)
  {
  }

  lemma AddedMarks(m: map<int, Server>, hs: set<int>, s: Server)
    ensures forall h :: h in Added(m, hs, s) ==>
      (h in m && Added(m, hs, s)[h] == m[h] && m[h] in Owners(m)) || (h in hs && Added(m, hs, s)[h] == s)
  {
  }

  lemma RemovedMarks(m: map<int, Server>, hs: set<int>, s: Server)
    requires forall h :: h in m && m[h] == s ==> h in hs
    ensures s !in Owners(Removed(m, hs, s))
    ensures forall h :: h in Removed(m, hs, s) ==> h in m && Removed(m, hs, s)[h] == m[h] && m[h] in Owners(m)
  {
  }

  ghost predicate OwnersMarked(hash: string -> int, m: map<int, Server>)
    reads Owners(m)
  {
    forall h :: h in m ==> m[h].init && m[h].inRing && h in Replicas(hash, m[h].iden, m[h].replicas)
  }

  /** All but `node`, whose places are its replica hashes. */
  ghost predicate MarkedBut(hash: string -> int, m: map<int, Server>, node: Server)
    reads Owners(m)
  {
    forall h :: h in m ==>
      && h in Replicas(hash, m[h].iden, m[h].replicas)
      && (m[h] != node ==> m[h].init && m[h].inRing)
  }

  lemma MarkedRemoved(hash: string -> int, m: map<int, Server>, node: Server)
    requires MarkedBut(hash, m, node)
    ensures OwnersMarked(hash, Removed(m, Replicas(hash, node.iden, node.replicas), node))
    ensures node !in Owners(Removed(m, Replicas(hash, node.iden, node.replicas), node))
  {
    hide Replicas;
    RemovedMarks(m, Replicas(hash, node.iden, node.replicas), node);
  }

  lemma MarkedAdded(hash: string -> int, m: map<int, Server>, node: Server)
    requires OwnersMarked(hash, m) && node.init && node.inRing
    ensures OwnersMarked(hash, Added(m, Replicas(hash, node.iden, node.replicas), node))
  {
    hide Replicas;
    AddedMarks(m, Replicas(hash, node.iden, node.replicas), node);
  }

  /** `util_rbtree_delete` and `free`: the two calls that every deletion from the ring makes. */
  method Discard(tree: Tree, rbnode: Node) returns (ghost i: nat)
    requires tree.Valid() && rbnode in tree.Seq() && Rising(tree.Seq())
    modifies tree, tree.nodes
    ensures tree.Valid() && tree.nodes == old(tree.nodes) - {rbnode}
    ensures i < |old(tree.Seq())| && old(tree.Seq())[i] == rbnode && tree.Seq() == Without(old(tree.Seq()), i)
    ensures tree.dangling <==>
      |old(tree.Seq())| > 1 && (old(tree.dangling) || (|old(tree.Seq())| == 2 && rbnode == old(tree.root)))
  {
    hide Tree.Valid, Tree.Seq, Rising;
    ghost var s := tree.Seq();
    tree.Owned();
    tree.RootParent();
    i := tree.Delete(rbnode);
    RisingDelete(s, i);
    tree.Free(rbnode);
  }

  /** `conhash_s`. */
  class Ring {
    const hash: string -> int
    const tree: Tree
    var ivnodes: nat
    /** Who owns which place. */
    ghost var ring: map<int, Server>

    /** The tree shows the ring, `ivnodes` counts its places in 32 bits, and every node that is out of the
        tree has been freed.  While the root's parent field names one of these, the tree stays low. */
    ghost predicate Core()
      reads this, tree, tree.nodes
    {
      && tree.Valid() && Shows(tree.Seq(), ring) && ivnodes == Wrap(|ring|)
      && Live(tree.nodes, tree.nil, tree.Seq())
      && (tree.dangling ==> BlackHeight(tree.shape) == 1)
    }

    /** Every owner is flagged as in the ring and owns replica hashes of its own only. */
    ghost predicate Marked()
      reads this, Owners(ring)
    {
      OwnersMarked(hash, ring)
    }

    ghost predicate Valid()
      reads this, tree, tree.nodes, Owners(ring)
    {
      Core() && Marked()
    }

    /** `conhash_get_vnodes_num` reads this counter. */
    lemma Counted()
      requires Valid()
      ensures ivnodes == Wrap(|ring|) && |tree.Seq()| == |ring|
      ensures forall h :: h in ring ==> ring[h].init && ring[h].inRing
    {
      ShowCount(tree.Seq(), ring);
    }

    /** No node is leaked: there is one for each place, and the sentinel. */
    lemma NoLeak()
      requires Core()
      ensures |tree.nodes| == |ring| + 1
    {
      hide Tree.Valid, Live;
      ShowCount(tree.Seq(), ring);
      LiveSize(tree.nodes, tree.nil, tree.Seq());
    }

    lemma RootPlace()
      requires Core() && |ring| > 0
      ensures tree.root.key in ring
    {
      tree.RootInSeq();
      ShowCount(tree.Seq(), ring);
      SearchRing(tree.Seq(), ring, tree.root.key);
    }

    /** What the root's parent pointer names: a freed node exactly when the tree once went from two nodes to
        one by deleting its root and has not been empty since, and else the sentinel.  In the first case the
        ring has at most three places. */
    lemma RootParent()
      requires Core()
      ensures tree.root != tree.nil ==> tree.root.parent == tree.above
      ensures tree.dangling <==> tree.above != tree.nil
      ensures tree.dangling <==> RootDropped(tree.past)
      ensures tree.dangling <==> tree.above !in tree.nodes
      ensures tree.dangling ==> 1 <= |ring| <= 3
    {
      tree.RootParent();
      tree.Owned();
      ShowCount(tree.Seq(), ring);
      tree.Low();
    }

    /** `conhash_init` with a given hash function. */
    constructor (hash: string -> int)
      ensures Valid() && ring == map[] && this.hash == hash && !tree.dangling
      ensures fresh(tree) && fresh(tree.nodes)
    {
      this.hash := hash;
      ivnodes := 0;
      ring := map[];
      tree := new Tree();
    }

    /** `__conhash_add_replicas`.  It is `defined`, and reads no freed node, exactly when the root's parent
        field names none or the ring ends with at most three places. */
    method AddReplicas(node: Server) returns (defined: bool)
      requires Core()
      modifies this`ivnodes, this`ring, tree, tree.nodes
      ensures defined <==>
        !old(tree.dangling) || |old(ring).Keys + Replicas(hash, node.iden, node.replicas)| <= 3
      ensures defined ==> Core() && fresh(tree.nodes - old(tree.nodes)) && tree.dangling == old(tree.dangling)
      ensures defined ==> ring == Added(old(ring), Replicas(hash, node.iden, node.replicas), node)
    {
      hide Added, Replicas, ReplicaName, Core;
      NoReplicas(hash, node.iden, ring, node);
      ghost var all := Replicas(hash, node.iden, node.replicas);
      for i := 0 to node.replicas
        invariant Core() && fresh(tree.nodes - old(tree.nodes)) && tree.dangling == old(tree.dangling)
        invariant ring == Added(old(ring), Replicas(hash, node.iden, i), node)
      {
        ghost var m := ring;
        var h := hash(ReplicaName(node.iden, i));
        ReplicasStep(hash, node.iden, i);
        AddedStep(old(ring), Replicas(hash, node.iden, i), h, node);
        defined := AddReplica(node, h);
        if !defined {
          ReplicasWithin(hash, node.iden, i + 1, node.replicas);
          AddedMore(old(ring), Replicas(hash, node.iden, i + 1), all, node);
          AddedSize(old(ring), all, node);
          NewPlace(m, h, node);
          return;
        }
      }
      defined := true;
      RootParent();
      AddedSize(old(ring), all, node);
    }

    /** One replica.  A freed node is read exactly when the hash is free, the root's parent field names one,
        and the ring has three places. */
    method AddReplica(node: Server, h: int) returns (defined: bool)
      requires Core()
      modifies this`ivnodes, this`ring, tree, tree.nodes
      ensures defined <==> h in old(ring) || !old(tree.dangling) || |old(ring)| != 3
      ensures defined ==> Core() && fresh(tree.nodes - old(tree.nodes)) && tree.dangling == old(tree.dangling)
      ensures defined ==> ring == if h in old(ring) then old(ring) else old(ring)[h := node]
      ensures defined && |old(ring)| == 1 ==> tree.root == old(tree.root)
    {
      hide Wrap, IsVnode, Shows, Live, Tree.Valid, Tree.Seq, Tree.Reddens, BlackHeight;
      var found, _ := tree.Search(h);
      SearchRing(tree.Seq(), ring, h);
      defined := true;
      if found == null {
        defined := Place(node, h);
      }
    }

    /** Puts a new virtual node into the tree. */
    method Place(node: Server, h: int) returns (defined: bool)
      requires Core() && h !in ring
      modifies this`ivnodes, this`ring, tree, tree.nodes
      ensures defined <==> !old(tree.dangling) || |old(ring)| != 3
      ensures defined ==> Core() && fresh(tree.nodes - old(tree.nodes)) && tree.dangling == old(tree.dangling)
      ensures defined ==> ring == old(ring)[h := node]
      ensures defined && |old(ring)| == 1 ==> tree.root == old(tree.root)
    {
      hide Wrap, IsVnode, Shows, Live, Tree.Valid, Tree.Seq, Tree.Reddens, BlackHeight;
      var vnode := new VirtualNode(h, node);
      var rbnode := new Node(h, vnode);
      tree.Owned();
      MakesVnode(rbnode, vnode, ring);
      ghost var s, live := tree.Seq(), tree.nodes;
      SearchRing(s, ring, h);
      ShowCount(s, ring);
      if tree.dangling { tree.LowReddens(h); }
      ghost var i;
      defined, i := tree.Insert(rbnode);
      if defined {
        OneMore(s, ring, live, tree.nil, i, rbnode, node);
        ivnodes := Wrap(ivnodes + 1);
        ring := ring[h := node];
      }
    }

    /** What one insertion does to the ring. */
    lemma OneMore(s: seq<Node>, m: map<int, Server>, live: set<Node>, nil: Node, i: nat, x: Node, node: Server)
      requires Shows(s, m) && Live(live, nil, s) && i <= |s| && x != nil && x.key !in m
      requires forall k :: 0 <= k < i ==> s[k].key <= x.key
      requires forall k :: i <= k < |s| ==> x.key < s[k].key
      requires IsVnode(x, m[x.key := node])
      ensures var s', m' := s[..i] + [x] + s[i..], m[x.key := node];
        && Shows(s', m') && Live(live + {x}, nil, s') && Wrap(Wrap(|m|) + 1) == Wrap(|m'|)
    {
      hide Live, Wrap;
      SearchRing(s, m, x.key);
      ShowInsert(s, m, i, x, node);
      LiveInsert(live, nil, s, i, x);
      CountOne(m, x.key, node);
    }

    lemma CountOne(m: map<int, Server>, h: int, node: Server)
      requires h !in m
      ensures Wrap(Wrap(|m|) + 1) == Wrap(|m[h := node]|)
    {
    }

    lemma MakesVnode(x: Node, v: VirtualNode, m: map<int, Server>)
      requires x.data == v && v.hash == x.key
      ensures IsVnode(x, m[x.key := v.node])
    {
    }

    /** `__conhash_del_replicas`.  Each deleted node is freed at once. */
    method DelReplicas(node: Server)
      requires Core()
      modifies this`ivnodes, this`ring, tree, tree.nodes
      ensures Core() && tree.nodes <= old(tree.nodes)
      ensures tree.dangling ==> old(tree.dangling) || |ring| == 1
      ensures ring == Removed(old(ring), Replicas(hash, node.iden, node.replicas), node)
    {
      hide Removed, Replicas, ReplicaName, Shows, Wrap, Tree.Valid, Tree.Seq;
      NoReplicas(hash, node.iden, ring, node);
      for i := 0 to node.replicas
        invariant Core() && tree.nodes <= old(tree.nodes)
        invariant tree.dangling ==> old(tree.dangling) || |ring| == 1
        invariant ring == Removed(old(ring), Replicas(hash, node.iden, i), node)
      {
        DelReplica(node, hash(ReplicaName(node.iden, i)));
        ReplicasStep(hash, node.iden, i);
        RemovedStep(old(ring), Replicas(hash, node.iden, i), hash(ReplicaName(node.iden, i)), node);
      }
    }

    method DelReplica(node: Server, h: int)
      requires Core()
      modifies this`ivnodes, this`ring, tree, tree.nodes
      ensures Core() && tree.nodes <= old(tree.nodes)
      ensures ring == old(ring) ==> tree.dangling == old(tree.dangling)
      ensures ring != old(ring) ==>
        (tree.dangling <==> |ring| > 0 && (old(tree.dangling) || (|ring| == 1 && old(tree.root.key) == h)))
      ensures ring == if h in old(ring) && old(ring)[h] == node then old(ring) - {h} else old(ring)
    {
      hide Wrap, Shows, Tree.Valid, Tree.Seq;
      var rbnode, _ := tree.Search(h);
      SearchRing(tree.Seq(), ring, h);
      if rbnode != null {
        var vnode := rbnode.data as VirtualNode;
        if vnode.hash == h && vnode.node == node {
          tree.RootInSeq();
          ShowRises(tree.Seq(), ring);
          RisingKeys(tree.Seq(), rbnode, tree.root);
          Unplace(rbnode);
        }
      }
    }

    /** Takes a virtual node out of the tree and frees it. */
    method Unplace(rbnode: Node)
      requires Core() && rbnode in tree.Seq()
      modifies this`ivnodes, this`ring, tree, tree.nodes
      ensures Core() && tree.nodes <= old(tree.nodes)
      ensures rbnode.key in old(ring) && ring == old(ring) - {rbnode.key} && |ring| == |old(ring)| - 1
      ensures tree.dangling <==> |ring| > 0 && (old(tree.dangling) || (|ring| == 1 && rbnode == old(tree.root)))
    {
      hide Wrap, Shows, Live, Rising, Tree.Valid, Tree.Seq;
      ghost var s, live := tree.Seq(), tree.nodes;
      ShowRises(s, ring);
      tree.Low();
      ivnodes := Wrap(ivnodes - 1);
      ghost var i := Discard(tree, rbnode);
      OneLess(s, ring, live, tree.nil, i);
      ring := ring - {rbnode.key};
      tree.Low();
    }

    /** What one deletion does to the ring. */
    lemma OneLess(s: seq<Node>, m: map<int, Server>, live: set<Node>, nil: Node, i: nat)
      requires Shows(s, m) && Live(live, nil, s) && i < |s|
      ensures var h, m' := s[i].key, m - {s[i].key};
        && h in m && |s| == |m| && |m'| == |m| - 1 && Wrap(Wrap(|m|) - 1) == Wrap(|m'|)
        && Shows(Without(s, i), m') && Live(live - {s[i]}, nil, Without(s, i))
    {
      hide Wrap, Live;
      SearchRing(s, m, s[i].key);
      ShowCount(s, m);
      CountLess(m, s[i].key);
      ShowDelete(s, m, i);
      LiveDelete(live, nil, s, i);
    }

    lemma ShowRises(s: seq<Node>, m: map<int, Server>)
      requires Shows(s, m)
      ensures Rising(s) && |s| == |m|
    {
      ShowCount(s, m);
    }

    lemma CountLess(m: map<int, Server>, h: int)
      requires h in m
      ensures Wrap(Wrap(|m|) - 1) == Wrap(|m - {h}|) && |m - {h}| == |m| - 1
    {
      WrapStep(|m|);
      assert m.Keys == (m - {h}).Keys + {h};
      assert |(m - {h}).Keys| == |m - {h}|;
    }

    /** `conhash_add_node`. */
    method AddNode(node: Server?) returns (r: int, defined: bool)
      requires Valid()
      modifies this`ivnodes, this`ring, tree, tree.nodes, if node != null then {node} else {}
      ensures node == null || old(!node.init || node.inRing) ==> r == -1 && defined && ring == old(ring)
      ensures node != null && old(node.init && !node.inRing) ==>
        (defined <==>
          !old(tree.dangling) || |old(ring).Keys + Replicas(hash, node.iden, node.replicas)| <= 3)
      ensures defined ==> Valid() && fresh(tree.nodes - old(tree.nodes)) && tree.dangling == old(tree.dangling)
      ensures defined && node != null && old(node.init && !node.inRing) ==>
        && r == 0 && node.init && node.inRing && node !in Owners(old(ring))
        && ring == Added(old(ring), Replicas(hash, node.iden, node.replicas), node)
      ensures node != null && r == -1 ==> node.init == old(node.init) && node.inRing == old(node.inRing)
    {
      r, defined := -1, true;
      if node != null && node.init && !node.inRing {
        defined := AddInit(node);
        r := 0;
      }
    }

    method AddInit(node: Server) returns (defined: bool)
      requires Valid() && node.init && !node.inRing
      modifies this`ivnodes, this`ring, tree, tree.nodes, node
      ensures defined <==>
        !old(tree.dangling) || |old(ring).Keys + Replicas(hash, node.iden, node.replicas)| <= 3
      ensures defined ==> Valid() && fresh(tree.nodes - old(tree.nodes)) && tree.dangling == old(tree.dangling)
      ensures defined ==> node.init && node.inRing && node !in Owners(old(ring))
      ensures defined ==> ring == Added(old(ring), Replicas(hash, node.iden, node.replicas), node)
    {
      hide Added, Replicas, Valid;
      NotOwner(node);
      SetInRing(node);
      defined := AddMarked(node);
    }

    lemma NotOwner(node: Server)
      requires Valid() && !node.inRing
      ensures node !in Owners(ring)
    {
    }

    method SetInRing(node: Server)
      requires Valid() && node.init && node !in Owners(ring)
      modifies node`inRing
      ensures Valid() && node.init && node.inRing
    {
      hide Core;
      assert Core();
      node.inRing := true;
      assert Core();
    }

    method AddMarked(node: Server) returns (defined: bool)
      requires Valid() && node.init && node.inRing
      modifies this`ivnodes, this`ring, tree, tree.nodes
      ensures defined <==>
        !old(tree.dangling) || |old(ring).Keys + Replicas(hash, node.iden, node.replicas)| <= 3
      ensures defined ==> Valid() && fresh(tree.nodes - old(tree.nodes)) && tree.dangling == old(tree.dangling)
      ensures defined ==> ring == Added(old(ring), Replicas(hash, node.iden, node.replicas), node)
    {
      hide Added, Replicas, Core;
      ghost var m := ring;
      defined := AddReplicas(node);
      if defined {
        MarkedAdded(hash, m, node);
      }
    }

    /** `conhash_del_node`. */
    method DelNode(node: Server?) returns (r: int)
      requires Valid()
      modifies this`ivnodes, this`ring, tree, tree.nodes, if node != null then {node} else {}
      ensures Valid() && tree.nodes <= old(tree.nodes)
      ensures tree.dangling ==> old(tree.dangling) || |ring| == 1
      ensures node != null && old(node.init && node.inRing) ==>
        && r == 0 && node.init && !node.inRing && node !in Owners(ring)
        && ring == Removed(old(ring), Replicas(hash, node.iden, node.replicas), node)
      ensures node == null || old(!node.init || !node.inRing) ==> r == -1 && ring == old(ring)
      ensures node != null && r == -1 ==> node.init == old(node.init) && node.inRing == old(node.inRing)
    {
      r := -1;
      if node != null && node.init && node.inRing {
        DelIn(node);
        r := 0;
      }
    }

    method DelIn(node: Server)
      requires Valid() && node.init && node.inRing
      modifies this`ivnodes, this`ring, tree, tree.nodes, node
      ensures Valid() && tree.nodes <= old(tree.nodes)
      ensures tree.dangling ==> old(tree.dangling) || |ring| == 1
      ensures node.init && !node.inRing && node !in Owners(ring)
      ensures ring == Removed(old(ring), Replicas(hash, node.iden, node.replicas), node)
    {
      hide Removed, Replicas, Core, OwnersMarked, MarkedBut;
      ClearInRing(node);
      DelMarked(node);
    }

    method ClearInRing(node: Server)
      requires Valid() && node.init && node.inRing
      modifies node`inRing
      ensures Core() && node.init && !node.inRing && MarkedBut(hash, ring, node)
    {
      hide Core, Replicas;
      assert Core();
      node.inRing := false;
      assert Core();
    }

    method DelMarked(node: Server)
      requires Core() && node.init && !node.inRing && MarkedBut(hash, ring, node)
      modifies this`ivnodes, this`ring, tree, tree.nodes
      ensures Valid() && tree.nodes <= old(tree.nodes)
      ensures tree.dangling ==> old(tree.dangling) || |ring| == 1
      ensures node !in Owners(ring)
      ensures ring == Removed(old(ring), Replicas(hash, node.iden, node.replicas), node)
    {
      hide Removed, Replicas, Core, OwnersMarked;
      ghost var m := ring;
      DelReplicas(node);
      MarkedRemoved(hash, m, node);
    }

    /** `conhash_lookup`.  Null on a null object, and when the counter of places reads zero. */
    method Lookup(obj: Option<string>) returns (r: Server?)
      requires Valid()
      ensures r == null <==> obj.None? || Wrap(|ring|) == 0
      ensures r != null ==> Owner(ring, hash(obj.value)) == Some(r)
    {
      hide IsCeiling, Tree.Valid, Tree.Seq, Shows, Live, IsVnode, Wrap;
      WrapZero(|ring|);
      ShowCount(tree.Seq(), ring);
      r := null;
      if ivnodes == 0 || obj.None? { return; }
      var rbnode, i, _, _ := tree.Lookup(hash(obj.value));
      if rbnode != null {
        VnodeAt(tree.Seq(), ring, hash(obj.value), i);
        ShowCeiling(tree.Seq(), ring, hash(obj.value), i);
        var vnode := rbnode.data as VirtualNode;
        r := vnode.node;
      }
    }

    /** The loop of `conhash_fini`: deleting and freeing the root until none is left ends, with every node
        freed but the sentinel, which is part of the ring. */
    method Fini()
      requires Core()
      modifies tree, tree.nodes
      ensures tree.Valid() && tree.Seq() == [] && tree.nodes == {tree.nil}
    {
      assert Rising(tree.Seq());
      hide Tree.Valid, Tree.Seq, Shows, Rising, Live;
      tree.RootInSeq();
      while tree.root != tree.nil
        invariant tree.Valid() && Rising(tree.Seq()) && Live(tree.nodes, tree.nil, tree.Seq())
        invariant tree.nodes <= old(tree.nodes)
        invariant tree.root == tree.nil <==> tree.Seq() == []
        decreases |tree.Seq()|
      {
        tree.RootInSeq();
        var rbnode := tree.root;
        ghost var s := tree.Seq();
        ghost var live := tree.nodes;
        ghost var i := Discard(tree, rbnode);
        WithoutSize(s, i);
        RisingDelete(s, i);
        LiveDelete(live, tree.nil, s, i);
        tree.RootInSeq();
      }
      assert tree.nodes == {tree.nil} by { LiveNone(tree.nodes, tree.nil); }
    }
  }

  lemma ReplicasWithin(hash: string -> int, iden: string, i: nat, n: nat)
    requires i <= n
    ensures Replicas(hash, iden, i) <= Replicas(hash, iden, n)
  {
  }

  lemma AddedSize(m: map<int, Server>, hs: set<int>, s: Server)
    ensures |Added(m, hs, s)| == |m.Keys + hs|
  {
    assert Added(m, hs, s).Keys == m.Keys + hs;
    assert |Added(m, hs, s)| == |Added(m, hs, s).Keys|;
  }

  /** The replica hashes are all different, and none of them is taken. */
  ghost predicate Roomy(hash: string -> int, iden: string, n: nat, taken: set<int>) {
    && (forall i, j :: 0 <= i < j < n ==> hash(ReplicaName(iden, i)) != hash(ReplicaName(iden, j)))
    && (forall i :: 0 <= i < n ==> hash(ReplicaName(iden, i)) !in taken)
  }

  /** A joining server takes a place for each of its replicas exactly when no two of their hashes are equal
      and none is taken, and otherwise fewer. */
  lemma {:induction false} PlacesTaken(hash: string -> int, iden: string, n: nat, taken: set<int>)
    ensures |taken + Replicas(hash, iden, n)| <= |taken| + n
    ensures |taken + Replicas(hash, iden, n)| == |taken| + n <==> Roomy(hash, iden, n, taken)
  {
    hide ReplicaName, Replicas, Roomy;
    RoomyStep(hash, iden, n, taken);
    if n > 0 {
      var before, h := taken + Replicas(hash, iden, n - 1), hash(ReplicaName(iden, n - 1));
      PlacesTaken(hash, iden, n - 1, taken);
      assert taken + Replicas(hash, iden, n) == before + {h};
    }
  }

  lemma RoomyStep(hash: string -> int, iden: string, n: nat, taken: set<int>)
    ensures n == 0 ==> Roomy(hash, iden, n, taken) && taken + Replicas(hash, iden, n) == taken
    ensures n > 0 ==> var h := hash(ReplicaName(iden, n - 1));
      && Replicas(hash, iden, n) == Replicas(hash, iden, n - 1) + {h}
      && (Roomy(hash, iden, n, taken) <==> Roomy(hash, iden, n - 1, taken) && h !in taken + Replicas(hash, iden, n - 1))
  {
    hide ReplicaName;
  }

  /** No two texts have one hash. */
  ghost predicate Injective(hash: string -> int) {
    forall x, y :: hash(x) == hash(y) ==> x == y
  }

  /** So with such a hash, and none of its hashes taken, a server gets all of its places. */
  lemma JoinTakesAll(hash: string -> int, m: map<int, Server>, s: Server)
    requires Injective(hash) && forall i :: 0 <= i < s.replicas ==> hash(ReplicaName(s.iden, i)) !in m
    ensures |Added(m, Replicas(hash, s.iden, s.replicas), s)| == |m| + s.replicas
  {
    forall i, j | 0 <= i < j < s.replicas ensures hash(ReplicaName(s.iden, i)) != hash(ReplicaName(s.iden, j)) {
      if ReplicaName(s.iden, i) == ReplicaName(s.iden, j) {
        ReplicaNamesDiffer(s.iden, i, s.iden, j);
      }
    }
    AddedSize(m, Replicas(hash, s.iden, s.replicas), s);
    PlacesTaken(hash, s.iden, s.replicas, m.Keys);
    assert |m| == |m.Keys|;
  }

  /** Such a join on an empty ring. */
  method FirstJoin(hash: string -> int, iden: string, replicas: nat) returns (r: Ring, s: Server)
    requires Injective(hash)
    ensures r.Valid() && |r.ring| == replicas && forall h :: h in r.ring ==> r.ring[h] == s
    ensures forall i :: 0 <= i < replicas ==> hash(ReplicaName(Truncated(iden), i)) in r.ring
  {
    hide Ring.Valid, ReplicaName, Injective, Truncated;
    r := new Ring(hash);
    s := new Server(iden, replicas);
    JoinTakesAll(hash, map[], s);
    var code, defined := r.AddNode(s);
  }

  /** And no two servers collide. */
  lemma InjectiveApart(hash: string -> int, a: string, m: nat, b: string, n: nat)
    requires Injective(hash) && a != b
    ensures Replicas(hash, a, m) !! Replicas(hash, b, n)
  {
    forall h | h in Replicas(hash, a, m) ensures h !in Replicas(hash, b, n) {
      var i :| 0 <= i < m && hash(ReplicaName(a, i)) == h;
      forall j | 0 <= j < n ensures hash(ReplicaName(b, j)) != h {
        if hash(ReplicaName(b, j)) == h {
          ReplicaNamesDiffer(a, i, b, j);
        }
      }
    }
  }

  lemma AddedMore(m: map<int, Server>, hs: set<int>, hs': set<int>, s: Server)
    requires hs <= hs'
    ensures |Added(m, hs, s)| <= |Added(m, hs', s)|
  {
    var a, b := Added(m, hs, s), Added(m, hs', s);
    assert b.Keys == a.Keys + (b.Keys - a.Keys);
    assert |a| == |a.Keys| && |b| == |b.Keys|;
  }

  lemma NewPlace(m: map<int, Server>, h: int, s: Server)
    requires h !in m
    ensures |m[h := s]| == |m| + 1
  {
  }

  lemma SearchRing(s: seq<Node>, m: map<int, Server>, h: int)
    requires Shows(s, m)
    ensures h in m <==> exists x :: x in s && x.key == h
    ensures forall x :: x in s ==> IsVnode(x, m)
  {
  }

  /** Adding a server that is not in the ring and deleting it again leaves the ring and its counter as
      they were, whatever its replica hashes collide with, and no node more allocated. */
  method AddThenDelete(r: Ring, node: Server) returns (defined: bool)
    requires r.Valid() && node.init && !node.inRing
    modifies r`ivnodes, r`ring, r.tree, r.tree.nodes, node
    ensures defined <==>
      !old(r.tree.dangling) || |old(r.ring).Keys + Replicas(r.hash, node.iden, node.replicas)| <= 3
    ensures defined ==> r.Valid() && r.ring == old(r.ring) && r.ivnodes == old(r.ivnodes)
    ensures defined ==> node.init && !node.inRing && |r.tree.nodes| == old(|r.tree.nodes|)
  {
    r.Counted();
    r.NoLeak();
    hide Replicas, Ring.Core, Ring.Marked;
    defined := r.AddInit(node);
    if !defined { return; }
    AddThenRemove(old(r.ring), Replicas(r.hash, node.iden, node.replicas), node);
    r.DelIn(node);
    r.Counted();
    r.NoLeak();
  }

  /** Two places, of which the first, the root, is given up: its node is freed and named above the root. */
  method GiveUpRoot(hash: string -> int) returns (r: Ring, s: Server)
    ensures fresh(r) && fresh(r.tree) && fresh(r.tree.nodes)
    ensures r.Core() && r.ring == map[2 := s] && |r.ring| == 1 && r.tree.dangling
  {
    hide Ring.Core;
    r := new Ring(hash);
    s := new Server("a", 5);
    var defined := r.AddReplica(s, 1);
    r.RootPlace();
    NewPlace(map[], 1, s);
    defined := r.AddReplica(s, 2);
    NewPlace(map[1 := s], 2, s);
    r.DelReplica(s, 1);
    assert r.ring == map[2 := s];
    NewPlace(map[], 2, s);
  }

  /** Two more places, and the ring has as many as it can have in this state. */
  method ThreeLeft(hash: string -> int) returns (r: Ring, s: Server)
    ensures fresh(r) && fresh(r.tree) && fresh(r.tree.nodes)
    ensures r.Core() && r.ring == map[2 := s, 3 := s, 4 := s] && |r.ring| == 3 && r.tree.dangling
  {
    hide Ring.Core;
    r, s := GiveUpRoot(hash);
    var defined := r.AddReplica(s, 3);
    NewPlace(map[2 := s], 3, s);
    defined := r.AddReplica(s, 4);
    NewPlace(map[2 := s][3 := s], 4, s);
    assert r.ring == map[2 := s][3 := s][4 := s] == map[2 := s, 3 := s, 4 := s];
  }

  /** The next one reads the freed node: the insertion recolours up to the root. */
  method ReadsFreed(hash: string -> int) returns (r: Ring, defined: bool)
    ensures !defined
  {
    hide Ring.Core;
    var s;
    r, s := ThreeLeft(hash);
    defined := r.AddReplica(s, 5);
  }
}
