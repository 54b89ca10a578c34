/** What a cache server does with its caches (cache_server/cache_service.cpp).  `lru` and `lru_backup`
    are served by the same code, so the cache is a parameter here. */
module CacheService {
  import opened LinkedList
  import opened LruRequests
  import opened LruSpec
  import opened LruTrace
  import opened Lru

  /** Any trace of operations on a new cache, each `get` behind a `hasKey`: what is proved of `Run` holds
      of the cache. */
  method Perform<K(==), V>(capacity: int, blankKey: K, blankVal: V, ops: seq<Op<K, V>>) returns (c: Cache<K, V>)
    requires capacity != 0
    ensures fresh(c) && c.Valid() && c.cap == capacity && c.entries == Run(capacity, ops)
  {
    hide Cache.Shows, Put, Touch, Mark, Has, List.Valid;
    c := new Cache(capacity, blankKey, blankVal);
    for i := 0 to |ops|
      invariant fresh(c) && fresh(c.list) && fresh(c.list.nodes) && c.cap == capacity
      invariant c.Valid() && c.entries == Run(capacity, ops[..i])
    {
      assert ops[..i + 1][..i] == ops[..i];
      match ops[i]
      case Set(k, v) => var defined := c.Set(k, v);
      case Get(k) =>
        var has := c.HasKey(k);
        if has {
          var _ := c.Get(k);
        }
      case SetDirty(k) => c.SetDirty(k);
      case SetClean(k) => c.SetClean(k);
    }
    assert ops[..|ops|] == ops;
  }

  /** `getValue` and `getBackupValue`. */
  method GetValue<K(==), V>(c: Cache<K, V>, key: K) returns (reply: Reply<V>)
    requires c.Valid()
    modifies c`entries, c.list, c.list.nodes`next, c.list.nodes`prev
    ensures c.Valid() && c.list.nodes == old(c.list.nodes)
    ensures (c.entries, reply) == Serve(old(c.entries), c.cap, Request.GetValue(key))
    ensures reply == NotExist <==> !Has(old(c.entries), key)
    ensures reply == DirtyData <==> LruTrace.IsDirty(old(c.entries), key)
    ensures reply.Success? ==> reply.v == old(c.entries)[Index(old(c.entries), key)].val
    ensures c.entries == if reply.Success? then Touch(old(c.entries), key) else old(c.entries)
  {
    hide Cache.Shows, Touch, Has, Index;
    var has := c.HasKey(key);
    var dirty := c.IsDirty(key);
    if has && dirty {
      reply := DirtyData;
    } else {
      if has {
        var v := c.Get(key);
        reply := Success(v);
      } else {
        reply := NotExist;
      }
    }
  }

  /** `setValue` and `setBackupValue`: a dirty key is left alone. */
  method SetValue<K(==), V>(c: Cache<K, V>, key: K, val: V)
    requires c.Valid() && c.cap != 0
    modifies c`index, c`entries, c.list, c.list.nodes`next, c.list.nodes`prev
    ensures c.Valid() && fresh(c.list.nodes - old(c.list.nodes))
    ensures c.entries == Serve(old(c.entries), c.cap, Request.SetValue(key, val)).0
    ensures c.entries ==
      if LruTrace.IsDirty(old(c.entries), key) then old(c.entries) else Put(old(c.entries), c.cap, key, val)
  {
    hide Cache.Shows, Put, Has, Index;
    var has := c.HasKey(key);
    var dirty := c.IsDirty(key);
    if has && dirty {
    } else {
      var defined := c.Set(key, val);
    }
  }

  /** A request of any kind; only `getValue` is answered. */
  method Handle<K(==), V>(c: Cache<K, V>, r: Request<K, V>) returns (reply: Reply<V>)
    requires c.Valid() && c.cap != 0
    modifies c`index, c`entries, c.list, c.list.nodes
    ensures c.Valid() && fresh(c.list.nodes - old(c.list.nodes))
    ensures (c.entries, reply) == Serve(old(c.entries), c.cap, r)
  {
    hide Cache.Shows, Put, Touch, Mark, Has, Index;
    reply := NoReply;
    match r
    case GetValue(k) => reply := GetValue(c, k);
    case SetValue(k, v) => SetValue(c, k, v);
    case MarkDirty(k) => c.SetDirty(k);
    case PlainGet(k) =>
      var has := c.HasKey(k);
      if has {
        var v := c.Get(k);
      }
  }

  /** Any run of requests to a new cache: every `getValue` is answered with the value its key was last accepted to
      be set to, when it is among the last used and not dirty. */
  method HandleAll<K(==), V>(capacity: int, blankKey: K, blankVal: V, rs: seq<Request<K, V>>)
    returns (c: Cache<K, V>, replies: seq<Reply<V>>)
    requires capacity != 0
    ensures fresh(c) && c.Valid() && c.cap == capacity && |replies| == |rs|
    ensures forall i :: 0 <= i < |rs| && rs[i].GetValue? ==>
      Answers(capacity, Accepted(capacity, rs[..i]), rs[i].k, replies[i])
    ensures KeysOf(c.entries) == Last(capacity, Recency(Touched(capacity, Accepted(capacity, rs))))
  {
    hide Cache.Shows, Serve, List.Valid, Answers, Accepted;
    c := new Cache(capacity, blankKey, blankVal);
    replies := [];
    for i := 0 to |rs|
      invariant fresh(c) && fresh(c.list) && fresh(c.list.nodes) && c.cap == capacity && c.Valid()
      invariant c.entries == Served([], capacity, rs[..i]) && |replies| == i
      invariant forall j :: 0 <= j < i && rs[j].GetValue? ==>
        Answers(capacity, Accepted(capacity, rs[..j]), rs[j].k, replies[j])
    {
      assert rs[..i + 1][..i] == rs[..i];
      AnswersRight(capacity, rs[..i], rs[i].k);
      var reply := Handle(c, rs[i]);
      replies := replies + [reply];
    }
    assert rs[..|rs|] == rs;
    ServedRuns(capacity, rs);
    RecentKeys(capacity, Accepted(capacity, rs));
  }

  /** The loop of `update`, and the messages it sends: the pass leaves the order as it was. */
  method Update<K(==), V>(c: Cache<K, V>) returns (sent: seq<(K, V)>)
    requires c.Valid()
    modifies c`entries, c.list, c.list.nodes`next, c.list.nodes`prev
    ensures c.Valid() && c.list.nodes == old(c.list.nodes)
    ensures c.entries == old(c.entries) && sent == PairsOf(c.entries)
  {
    hide Cache.Shows, Touch, Has, Index, List.Valid;
    ghost var s := c.entries;
    assert Keyed(s) by {
      c.Distinctness();
    }
    var keys := c.KeysOneshot();
    sent := [];
    for i := 0 to |keys|
      invariant c.Valid() && c.list.nodes == old(c.list.nodes)
      invariant c.entries == s[i..] + s[..i] && sent == PairsOf(s)[..i]
    {
      TouchFirst(s, i);
      var v := c.Get(keys[i]);
      sent := sent + [(keys[i], v)];
    }
  }

  /** The backup server takes the messages in the order they were sent. */
  method TakeBackup<K(==), V>(c: Cache<K, V>, pairs: seq<(K, V)>)
    requires c.Valid() && c.cap != 0
    modifies c`index, c`entries, c.list, c.list.nodes`next, c.list.nodes`prev
    ensures c.Valid() && fresh(c.list.nodes - old(c.list.nodes))
    ensures c.entries == Replayed(old(c.entries), c.cap, pairs)
  {
    hide Cache.Shows, Serve, List.Valid;
    for i := 0 to |pairs|
      invariant c.Valid() && fresh(c.list.nodes - old(c.list.nodes))
      invariant c.entries == Replayed(old(c.entries), c.cap, pairs[..i])
    {
      SetValue(c, pairs[i].0, pairs[i].1);
      assert pairs[..i + 1][..i] == pairs[..i];
    }
    assert pairs[..|pairs|] == pairs;
  }

  /** A whole backup, from one server's `lru` to another's `lru_backup` of the same capacity. */
  method Backup<K(==), V>(src: Cache<K, V>, dst: Cache<K, V>)
    requires src.Valid() && dst.Valid() && src.cap == dst.cap != 0 && Clean(dst.entries)
    requires src != dst && src.list != dst.list && src.list.nodes !! dst.list.nodes
    modifies src`entries, src.list, src.list.nodes`next, src.list.nodes`prev
    modifies dst`index, dst`entries, dst.list, dst.list.nodes`next, dst.list.nodes`prev
    ensures src.Valid() && dst.Valid() && src.entries == old(src.entries) && Clean(dst.entries)
    ensures |dst.entries| >= |src.entries|
    ensures dst.entries[|dst.entries| - |src.entries|..] == Cleaned(src.entries)
  {
    hide Cache.Shows, Serve, List.Valid;
    src.Distinctness();
    dst.Distinctness();
    var sent := Update(src);
    ReplayCopies(dst.entries, dst.cap, src.entries);
    TakeBackup(dst, sent);
  }
}
