/** The ring of registered servers of master_server/serverList.h: a linked list with an index. */
module ServerList {
  import opened LinkedList
  import opened Sequences

  /** Where `t` is in `s`. */
  function IndexOf<T(==)>(s: seq<T>, t: T): (i: nat)
    requires t in s
    ensures i < |s| && s[i] == t
  {
    if s[0] == t then 0 else 1 + IndexOf(s[1..], t)
  }

  function NextOf<T(==)>(s: seq<T>, t: T): T
    requires t in s
  {
    var i := IndexOf(s, t);
    if i + 1 == |s| then s[0] else s[i + 1]
  }

  function PrevOf<T(==)>(s: seq<T>, t: T): T
    requires t in s
  {
    var i := IndexOf(s, t);
    if i == 0 then s[|s| - 1] else s[i - 1]
  }

  lemma IndexUnique<T>(s: seq<T>, i: nat)
    requires i < |s| && Distinct(s)
    ensures IndexOf(s, s[i]) == i
  {
  }

  /** Going `k` places on from `t`. */
  function Hops<T(==)>(s: seq<T>, t: T, k: nat): (r: T)
    requires t in s
    ensures r in s
  {
    if k == 0 then t else NextOf(s, Hops(s, t, k - 1))
  }

  predicate Hits<T(==)>(s: seq<T>, t: T, k: nat, u: T)
    requires t in s
  {
    Hops(s, t, k) == u
  }

  /** `k` places on from place `i` of `n`, round the end. */
  function Along(i: nat, k: nat, n: nat): nat
    requires i < n && k <= n
  {
    if i + k < n then i + k else i + k - n
  }

  lemma {:induction false} HopsIndex<T>(s: seq<T>, t: T, k: nat)
    requires Distinct(s) && t in s && k <= |s|
    ensures Hops(s, t, k) == s[Along(IndexOf(s, t), k, |s|)]
  {
    if k > 0 {
      HopsIndex(s, t, k - 1);
      IndexUnique(s, Along(IndexOf(s, t), k - 1, |s|));
    }
  }

  lemma Reaches<T>(s: seq<T>, t: T, u: T) returns (k: nat)
    requires Distinct(s) && t in s && u in s
    ensures k < |s| && Hits(s, t, k, u)
  {
    var i, j := IndexOf(s, t), IndexOf(s, u);
    k := if i <= j then j - i else j + |s| - i;
    HopsIndex(s, t, k);
  }

  /** `getNext` goes round all the members once before it comes back, and `getPrev` undoes it. */
  lemma OneCycle<T>(s: seq<T>, t: T)
    requires Distinct(s) && t in s
    ensures forall u :: u in s ==> exists k :: 0 <= k < |s| && Hits(s, t, k, u)
    ensures Hops(s, t, |s|) == t
    ensures forall k :: 0 < k < |s| ==> Hops(s, t, k) != t
    ensures PrevOf(s, NextOf(s, t)) == t && NextOf(s, PrevOf(s, t)) == t
  {
    forall u | u in s ensures exists k :: 0 <= k < |s| && Hits(s, t, k, u) {
      var k := Reaches(s, t, u);
    }
    HopsIndex(s, t, |s|);
    forall k | 0 < k < |s| ensures Hops(s, t, k) != t {
      HopsIndex(s, t, k);
    }
    NextPrev(s, t);
  }

  lemma NextPrev<T>(s: seq<T>, t: T)
    requires Distinct(s) && t in s
    ensures PrevOf(s, NextOf(s, t)) == t && NextOf(s, PrevOf(s, t)) == t
  {
  }

  /** `ServerList`; the caller must have asked `isExisted` before `add`, `del`, `getNext` and `getPrev`. */
  class Members {
    const list: List<string>
    var index: map<string, Node<string>>
    /** The addresses in order. */
    ghost var contents: seq<string>

    ghost predicate Valid()
      reads this, list, list.nodes
    {
      && list.Valid() && Indexed(list.Items(), contents, index)
      && (forall i :: 0 <= i < |contents| ==> list.Items()[i].data == contents[i])
    }

    ghost function Repr(): set<object>
      reads this, list
    {
      {this, list} + list.nodes
    }

    constructor ()
      ensures Valid() && contents == [] && fresh(Repr())
    {
      list := new List("");
      index := map[];
      contents := [];
    }

    /** No address is listed twice. */
    lemma ContentsDistinct()
      requires Valid()
      ensures Distinct(contents) && Distinct(list.Items()) && forall n :: n in list.Items() ==> n in list.nodes
      ensures |list.Items()| == |contents|
      ensures forall i :: 0 <= i < |contents| ==> list.Items()[i] in list.nodes && list.Items()[i].data == contents[i]
    {
    }

    method IsExisted(t: string) returns (r: bool)
      requires Valid()
      ensures r <==> t in contents
    {
      r := t in index;
    }

    method Size() returns (n: int)
      requires Valid()
      ensures n == |contents|
    {
      n := list.size;
    }

    method Add(t: string)
      requires Valid() && t !in contents
      modifies this, list, list.nodes
      ensures Valid() && contents == old(contents) + [t] && fresh(list.nodes - old(list.nodes))
    {
      hide Inner, Indexed;
      ghost var s := list.Items();
      ContentsDistinct();
      var node := new Node(t);
      IndexedAppend(s, contents, index, node, t);
      list.AddLast(node);
      index := index[t := node];
      contents := contents + [t];
      forall i | 0 <= i < |contents| ensures list.Items()[i].data == contents[i] {
        assert list.Items()[i] == (s + [node])[i];
      }
    }

    method Del(t: string)
      requires Valid() && t in contents
      modifies this, list, list.nodes
      ensures Valid() && list.nodes == old(list.nodes)
      ensures contents == Without(old(contents), IndexOf(old(contents), t))
    {
      hide Inner;
      ghost var s, i := list.Items(), IndexOf(contents, t);
      ContentsDistinct();
      var node := index[t];
      IndexedWithout(s, contents, index, i);
      list.Remove(node, i);
      index := index - {t};
      contents := Without(contents, i);
    }

    method GetNext(t: string) returns (r: string)
      requires Valid() && t in contents
      ensures r == NextOf(contents, t)
    {
      Find(t);
      var node := index[t];
      node := node.next;
      if node == list.tail {
        r := list.head.next.data;
      } else {
        r := node.data;
      }
    }

    method GetPrev(t: string) returns (r: string)
      requires Valid() && t in contents
      ensures r == PrevOf(contents, t)
    {
      Find(t);
      var node := index[t];
      node := node.prev;
      if node == list.head {
        r := list.tail.prev.data;
      } else {
        r := node.data;
      }
    }

    /** What the links around a member say. */
    lemma Find(t: string)
      requires Valid() && t in contents
      ensures var i := IndexOf(contents, t);
        && t in index && |contents| == |list.spine| - 2
        && index[t] == list.spine[i + 1] && index[t].next == list.spine[i + 2] && index[t].prev == list.spine[i]
        && (list.spine[i + 2] == list.tail <==> i + 1 == |contents|)
        && (list.spine[i] == list.head <==> i == 0)
      ensures list.head.next == list.spine[1] && list.tail.prev == list.spine[|list.spine| - 2]
      ensures forall k :: 0 <= k < |contents| ==> list.spine[k + 1].data == contents[k]
    {
    }
  }
}
