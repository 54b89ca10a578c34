/** The doubly linked list with two sentinels that cache_server/lru.h and master_server/serverList.h
    both define. */
module LinkedList {
  import opened Sequences

  class Node<T> {
    var data: T
    var next: Node?<T>
    var prev: Node?<T>

    constructor (data: T)
      ensures this.data == data && next == null && prev == null
    {
      this.data := data;
      next, prev := null, null;
    }
  }

  /** The part between the two ends. */
  function Inner<T>(s: seq<T>): seq<T> {
    if |s| < 2 then [] else s[1..|s| - 1]
  }

  lemma InnerWithout<T>(s: seq<T>, i: nat)
    requires i + 2 < |s| && Distinct(s)
    ensures Inner(Without(s, i + 1)) == Without(Inner(s), i)
    ensures var s' := Without(s, i + 1);
      && |s'| == |s| - 1 && Distinct(s') && s[i + 1] !in s'
      && (forall j :: 0 <= j <= i ==> s'[j] == s[j])
      && (forall j :: i < j < |s'| ==> s'[j] == s[j + 1])
  {
  }

  lemma InnerAt<T>(s: seq<T>, i: nat)
    requires i < |Inner(s)|
    ensures i + 2 < |s| && Inner(s)[i] == s[i + 1]
  {
  }

  lemma DistinctAt<T>(s: seq<T>, i: nat)
    requires Distinct(s) && i < |s|
    ensures forall j :: 0 <= j < |s| && j != i ==> s[j] != s[i]
  {
  }

  lemma InnerAppend<T>(s: seq<T>, x: T)
    requires |s| >= 2 && Distinct(s) && x !in s
    ensures var n := |s| - 1;
      var s' := s[..n] + [x, s[n]];
      && Inner(s') == Inner(s) + [x] && Distinct(s')
      && (forall y :: y in s' ==> y in s || y == x)
      && forall j :: 0 <= j < n ==> s'[j] == s[j]
  {
  }

  /** The index finds each listed node by its key, and nothing else. */
  ghost predicate Indexed<K, T>(items: seq<Node<T>>, keys: seq<K>, index: map<K, Node<T>>) {
    && |keys| == |items|
    && (forall i :: 0 <= i < |items| ==> keys[i] in index && index[keys[i]] == items[i])
    && (forall t :: t in index ==> t in keys)
  }

  lemma IndexedAppend<K, T>(items: seq<Node<T>>, keys: seq<K>, index: map<K, Node<T>>, n: Node<T>, t: K)
    requires Indexed(items, keys, index) && t !in keys
    ensures Indexed(items + [n], keys + [t], index[t := n]) && |items| == |keys|
  {
  }

  lemma IndexedWithout<K, T>(items: seq<Node<T>>, keys: seq<K>, index: map<K, Node<T>>, i: nat)
    requires Indexed(items, keys, index) && i < |items| && Distinct(items)
    ensures Indexed(Without(items, i), Without(keys, i), index - {keys[i]}) && Distinct(keys)
  {
    var s', k' := Without(items, i), Without(keys, i);
    assert forall j :: 0 <= j < |s'| ==> k'[j] == keys[if j < i then j else j + 1] && s'[j] == items[if j < i then j else j + 1];
    forall t | t in index - {keys[i]} ensures t in k' {
      var j :| 0 <= j < |keys| && keys[j] == t;
      assert k'[if j < i then j else j - 1] == t;
    }
  }

  class List<T> {
    var head: Node<T>
    var tail: Node<T>
    var size: int
    /** The nodes in order, with the sentinels at both ends. */
    ghost var spine: seq<Node<T>>
    /** All nodes the list has had. */
    ghost var nodes: set<Node<T>>

    /** One chain from sentinel to sentinel, `prev` the inverse of `next`, nothing twice. */
    ghost predicate Valid()
      reads this, nodes
    {
      && |spine| >= 2 && spine[0] == head && spine[|spine| - 1] == tail
      && Distinct(spine)
      && (forall i :: 0 <= i < |spine| ==> spine[i] in nodes)
      && (forall i :: 0 <= i < |spine| - 1 ==> spine[i].next == spine[i + 1])
      && (forall i :: 0 < i < |spine| ==> spine[i].prev == spine[i - 1])
      && size == |spine| - 2
    }

    ghost function Items(): seq<Node<T>>
      reads this
    {
      Inner(spine)
    }

    constructor (blank: T)
      ensures Valid() && Items() == [] && fresh(nodes)
    {
      head := new Node(blank);
      tail := new Node(blank);
      size := 0;
      new;
      head.next := tail;
      tail.prev := head;
      spine := [head, tail];
      assert spine[0] == head && spine[1] == tail;
      nodes := {head, tail};
    }

    /** `addLast`. */
    method AddLast(x: Node<T>)
      requires Valid() && x !in spine
      modifies this`size, this`spine, this`nodes, nodes`next, nodes`prev, x`next, x`prev
      ensures Valid() && Items() == old(Items()) + [x]
      ensures nodes == old(nodes) + {x}
    {
      ghost var n := |spine| - 1;
      assert spine[n].prev == spine[n - 1] && spine[n - 1] in nodes && tail in nodes;
      x.prev := tail.prev;
      x.next := tail;
      tail.prev.next := x;
      tail.prev := x;
      size := size + 1;
      InnerAppend(spine, x);
      hide Inner, Distinct;
      spine := spine[..n] + [x, tail];
      nodes := nodes + {x};
    }

    /** `remove` and `delNode`.  The node keeps its own links. */
    method Remove(x: Node<T>, ghost i: nat)
      requires Valid() && i < |Items()| && Items()[i] == x
      modifies this`size, this`spine, nodes`next, nodes`prev
      ensures Valid() && Items() == Without(old(Items()), i)
      ensures x !in spine
    {
      hide Without, Inner, Distinct;
      InnerAt(spine, i);
      InnerWithout(spine, i);
      DistinctAt(spine, i);
      DistinctAt(spine, i + 2);
      assert spine[i] in nodes && spine[i + 2] in nodes;
      assert spine[i + 1].prev == spine[i] && spine[i + 1].next == spine[i + 2];
      x.prev.next := x.next;
      x.next.prev := x.prev;
      size := size - 1;
      spine := Without(spine, i + 1);
      assert spine[0] == head && spine[|spine| - 1] == tail;
      assert forall j :: 0 <= j < |spine| ==> spine[j] in nodes;
    }

    /** `removeFirst`: null on an empty list. */
    method RemoveFirst() returns (x: Node?<T>)
      requires Valid()
      modifies this`size, this`spine, nodes`next, nodes`prev
      ensures Valid()
      ensures old(Items()) == [] ==> x == null && Items() == [] && spine == old(spine)
      ensures old(Items()) != [] ==> x == old(Items()[0]) && Items() == old(Items())[1..]
    {
      if head.next == tail {
        assert spine[0].next == spine[1];
        return null;
      }
      assert spine[0].next == spine[1];
      x := head.next;
      Remove(x, 0);
    }
  }
}
