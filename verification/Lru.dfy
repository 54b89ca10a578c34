/** The cache of cache_server/lru.h: a linked list in the order of use with an index by key. */
module Lru {
  import opened LinkedList
  import opened LruSpec
  import opened LruTrace
  import opened Sequences

  /** The index finds exactly the listed nodes by the keys of their entries. */
  ghost predicate Listing<K, V>(items: seq<Node<Entry<K, V>>>, entries: seq<Entry<K, V>>, index: map<K, Node<Entry<K, V>>>) {
    Indexed(items, KeysOf(entries), index) && Keyed(entries)
  }

  lemma ListingFind<K, V>(items: seq<Node<Entry<K, V>>>, entries: seq<Entry<K, V>>, index: map<K, Node<Entry<K, V>>>, k: K)
    requires Listing(items, entries, index)
    ensures |items| == |entries|
    ensures k in index <==> Has(entries, k)
    ensures Has(entries, k) ==> index[k] == items[Index(entries, k)]
  {
  }

  lemma ListingSizes<K, V>(items: seq<Node<Entry<K, V>>>, entries: seq<Entry<K, V>>, index: map<K, Node<Entry<K, V>>>)
    requires Listing(items, entries, index)
    ensures |items| == |entries|
  {
  }

  /** Making room does not bring a key back. */
  lemma RoomMade<K, V>(s: seq<Entry<K, V>>, k: K)
    ensures !Has(s, k) && s != [] ==> !Has(s[1..], k)
    ensures !Has(s, k) ==> Drop(s, k) == s
  {
  }

  lemma ListingAppend<K, V>(items: seq<Node<Entry<K, V>>>, entries: seq<Entry<K, V>>, index: map<K, Node<Entry<K, V>>>,
      x: Node<Entry<K, V>>, e: Entry<K, V>)
    requires Listing(items, entries, index) && !Has(entries, e.key)
    ensures Listing(items + [x], entries + [e], index[e.key := x])
  {
    HasIn(entries, e.key);
    PushKeyed(entries, e);
    IndexedAppend(items, KeysOf(entries), index, x, e.key);
    hide Indexed, Keyed, Has;
    assert KeysOf(entries + [e]) == KeysOf(entries) + [e.key];
  }

  lemma ListingWithout<K, V>(items: seq<Node<Entry<K, V>>>, entries: seq<Entry<K, V>>, index: map<K, Node<Entry<K, V>>>, k: K)
    requires Listing(items, entries, index) && Distinct(items) && Has(entries, k)
    ensures var i := Index(entries, k);
      && i < |items| && Listing(Without(items, i), Without(entries, i), index - {k})
      && Drop(entries, k) == Without(entries, i) && !Has(Without(entries, i), k)
  {
    hide Indexed, Keyed, Has, Distinct;
    var i := Index(entries, k);
    ListingSizes(items, entries, index);
    IndexedWithout(items, KeysOf(entries), index, i);
    DropKeyed(entries, k);
    assert KeysOf(Without(entries, i)) == Without(KeysOf(entries), i);
  }

  lemma ListingTail<K, V>(items: seq<Node<Entry<K, V>>>, entries: seq<Entry<K, V>>, index: map<K, Node<Entry<K, V>>>)
    requires Listing(items, entries, index) && Distinct(items) && entries != []
    ensures items != [] && Listing(items[1..], entries[1..], index - {entries[0].key})
  {
  }

  lemma ListingMoved<K, V>(items: seq<Node<Entry<K, V>>>, entries: seq<Entry<K, V>>, index: map<K, Node<Entry<K, V>>>, k: K)
    requires Listing(items, entries, index) && Distinct(items) && Has(entries, k)
    ensures var i := Index(entries, k);
      && i < |items| && k in index && index[k] == items[i]
      && Touch(entries, k) == Without(entries, i) + [entries[i]]
      && Listing(Without(items, i) + [items[i]], Touch(entries, k), index)
      && |Touch(entries, k)| == |entries|
  {
    var i := Index(entries, k);
    ListingFind(items, entries, index, k);
    ListingWithout(items, entries, index, k);
    assert entries[i] in entries && entries[i].key == k;
    hide Listing, Distinct, Has, Drop;
    ListingAppend(Without(items, i), Without(entries, i), index - {k}, items[i], entries[i]);
    assert (index - {k})[k := items[i]] == index;
  }

  lemma ListingMarked<K, V>(items: seq<Node<Entry<K, V>>>, entries: seq<Entry<K, V>>, index: map<K, Node<Entry<K, V>>>, k: K, mark: bool)
    requires Listing(items, entries, index)
    ensures Listing(items, Mark(entries, k, mark), index)
    ensures !Has(entries, k) ==> Mark(entries, k, mark) == entries
    ensures Has(entries, k) ==> var i := Index(entries, k);
      Mark(entries, k, mark) == entries[i := entries[i].(dirty := mark)]
  {
  }

  /** `ThreadSafeLRUCache`. */
  class Cache<K(==), V> {
    const cap: int
    const list: List<Entry<K, V>>
    var index: map<K, Node<Entry<K, V>>>
    /** The listed entries in order. */
    ghost var entries: seq<Entry<K, V>>

    ghost predicate Shows()
      reads this, list, list.nodes
    {
      && list.Valid() && Listing(list.Items(), entries, index)
      && forall i :: 0 <= i < |entries| && i < |list.Items()| ==> list.Items()[i].data == entries[i]
    }

    ghost predicate Valid()
      reads this, list, list.nodes
    {
      Shows() && (cap >= 0 ==> |entries| <= cap)
    }

    /** Each listed key finds the node of its entry. */
    lemma Find(key: K)
      requires Shows()
      ensures key in index <==> Has(entries, key)
      ensures Has(entries, key) ==>
        && index[key] == list.Items()[Index(entries, key)] && index[key] in list.nodes
        && index[key].data == entries[Index(entries, key)]
      ensures list.size == |entries| == |list.Items()| && Distinct(list.Items())
    {
    }

    /** No key is listed twice. */
    lemma Distinctness()
      requires Valid()
      ensures Keyed(entries) && (cap >= 0 ==> |entries| <= cap)
    {
    }

    lemma Listed()
      requires Shows()
      ensures Distinct(list.Items()) && list.size == |entries| == |list.Items()|
      ensures forall j :: 0 <= j < |entries| ==> list.Items()[j] in list.nodes && list.Items()[j].data == entries[j]
    {
    }

    /** `size_` and the map's domain are those of the list. */
    lemma Sizes()
      requires Valid()
      ensures list.size == |entries| && (cap >= 0 ==> list.size <= cap)
      ensures forall k :: k in index <==> Has(entries, k)
    {
    }

    ghost function Repr(): set<object>
      reads this, list
    {
      {this, list} + list.nodes
    }

    /** `blankKey` and `blankVal` are what a key and a value are by default. */
    constructor (capacity: int, blankKey: K, blankVal: V)
      ensures Valid() && entries == [] && cap == capacity && fresh(Repr())
    {
      cap := capacity;
      list := new List(Entry(blankKey, blankVal, false));
      index := map[];
      entries := [];
    }

    /** `makeRecently`. */
    method MakeRecently(key: K)
      requires Valid() && Has(entries, key)
      modifies this`entries, list, list.nodes`next, list.nodes`prev
      ensures Valid() && entries == Touch(old(entries), key)
      ensures list.nodes == old(list.nodes)
    {
      hide Listing, Touch, Inner, Has, Index, Distinct, Without, Shift, List.Valid;
      ghost var s, i := list.Items(), Index(entries, key);
      Listed();
      ListingMoved(s, entries, index, key);
      WithoutAt(s, i);
      WithoutAt(entries, i);
      var x := index[key];
      list.Remove(x, i);
      list.AddLast(x);
      entries := Touch(entries, key);
    }

    /** `addRecently`. */
    method AddRecently(key: K, val: V)
      requires Shows() && cap != 0 && (cap > 0 ==> |entries| < cap) && !Has(entries, key)
      modifies this`index, this`entries, list, list.nodes`next, list.nodes`prev
      ensures Valid() && entries == old(entries) + [Entry(key, val, false)]
      ensures fresh(list.nodes - old(list.nodes))
    {
      Find(key);
      ghost var e := Entry(key, val, false);
      var x := new Node(Entry(key, val, false));
      ListingAppend(list.Items(), entries, index, x, e);
      hide Listing, Inner, Has, Distinct;
      list.AddLast(x);
      index := index[key := x];
      entries := entries + [e];
    }

    /** `deleteKey`. */
    method DeleteKey(key: K)
      requires Valid() && Has(entries, key)
      modifies this`index, this`entries, list, list.nodes`next, list.nodes`prev
      ensures Valid() && entries == Drop(old(entries), key) && !Has(entries, key) && |entries| < |old(entries)|
      ensures list.nodes == old(list.nodes)
    {
      hide Listing, Inner, Drop, Has, Index, Distinct, Without, Shift, List.Valid;
      ghost var s, i := list.Items(), Index(entries, key);
      Listed();
      Find(key);
      ListingWithout(s, entries, index, key);
      WithoutAt(s, i);
      WithoutAt(entries, i);
      var x := index[key];
      list.Remove(x, i);
      index := index - {key};
      entries := Without(entries, i);
    }

    /** `removeLeastRecently`. */
    method RemoveLeastRecently()
      requires Valid() && entries != []
      modifies this`index, this`entries, list, list.nodes`next, list.nodes`prev
      ensures Valid() && entries == old(entries)[1..]
      ensures list.nodes == old(list.nodes)
    {
      hide Listing, Inner, Distinct, Without, List.Valid;
      Listed();
      ListingTail(list.Items(), entries, index);
      var deleted := list.RemoveFirst();
      index := index - {deleted.data.key};
      entries := entries[1..];
    }

    /** A new entry is clean, even in place of a dirty one.  With capacity 0 the source would follow the
        null of `removeFirst`: `defined` is false exactly then. */
    method Set(key: K, val: V) returns (defined: bool)
      requires Valid()
      modifies this`index, this`entries, list, list.nodes`next, list.nodes`prev
      ensures defined <==> cap != 0
      ensures defined ==> Valid() && entries == Put(old(entries), cap, key, val)
      ensures fresh(list.nodes - old(list.nodes))
    {
      Find(key);
      RoomMade(entries, key);
      hide Listing, Inner, Distinct, Has, Drop;
      if key in index {
        DeleteKey(key);
        AddRecently(key, val);
        return true;
      }
      if cap == list.size {
        // with nothing to remove the source follows a null pointer
        if list.size == 0 { return false; }
        RemoveLeastRecently();
      }
      AddRecently(key, val);
      defined := true;
    }

    /** Callers ask `HasKey` first. */
    method Get(key: K) returns (val: V)
      requires Valid() && Has(entries, key)
      modifies this`entries, list, list.nodes`next, list.nodes`prev
      ensures Valid() && entries == Touch(old(entries), key)
      ensures val == old(entries[Index(entries, key)].val)
      ensures list.nodes == old(list.nodes)
    {
      Find(key);
      hide Listing, Inner, Distinct, Touch, Has, Index;
      MakeRecently(key);
      val := index[key].data.val;
    }

    method HasKey(key: K) returns (b: bool)
      requires Valid()
      ensures b <==> Has(entries, key)
    {
      Find(key);
      b := key in index;
    }

    /** `lru_keys_oneshot`: the keys, the least recently used first. */
    method KeysOneshot() returns (v: seq<K>)
      requires Valid()
      ensures v == KeysOf(entries)
    {
      Walk();
      v := [];
      var travel := list.head.next;
      while travel != list.tail
        invariant |v| <= |entries| && travel == list.spine[|v| + 1] && v == KeysOf(entries)[..|v|]
        decreases |entries| - |v|
      {
        v := v + [travel.data.key];
        travel := travel.next;
      }
    }

    /** What following `next` from the head meets. */
    lemma Walk()
      requires Valid()
      ensures |list.spine| == |entries| + 2 && list.head.next == list.spine[1]
      ensures forall i :: 0 <= i < |entries| ==>
        list.spine[i + 1].data == entries[i] && list.spine[i + 1].next == list.spine[i + 2] && list.spine[i + 1] != list.tail
      ensures list.spine[|entries| + 1] == list.tail
    {
    }

    method SetDirty(key: K)
      requires Valid()
      modifies this`entries, list.nodes`data
      ensures Valid() && entries == Mark(old(entries), key, true)
    {
      Find(key);
      ListingMarked(list.Items(), entries, index, key, true);
      hide Listing, Has, Index, Mark;
      if key in index {
        var x := index[key];
        x.data := x.data.(dirty := true);
      }
      entries := Mark(entries, key, true);
    }

    method SetClean(key: K)
      requires Valid()
      modifies this`entries, list.nodes`data
      ensures Valid() && entries == Mark(old(entries), key, false)
    {
      Find(key);
      ListingMarked(list.Items(), entries, index, key, false);
      hide Listing, Has, Index, Mark;
      if key in index {
        var x := index[key];
        x.data := x.data.(dirty := false);
      }
      entries := Mark(entries, key, false);
    }

    method IsDirty(key: K) returns (b: bool)
      requires Valid()
      ensures b <==> LruTrace.IsDirty(entries, key)
    {
      Find(key);
      hide Listing, Has, Index;
      if key in index {
        return index[key].data.dirty;
      }
      return false;
    }
  }
}
