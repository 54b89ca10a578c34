/** What a cache server answers, in terms of the requests it has had: which keys were used last, what they
    were last set to and how they were last marked. */
module LruRequests {
  import opened LruSpec
  import opened LruTrace
  import opened Options
  import opened Sequences

  /** `k` is one of the last `cap` keys that were used. */
  ghost predicate Recent<K, V>(cap: int, ops: seq<Op<K, V>>, k: K)
    requires cap != 0
  {
    k in Last(cap, Recency(Touched(cap, ops)))
  }

  /** The operations that the requests come to: one for a key that is in the cache and marked dirty is left out. */
  ghost function Accepted<K, V>(cap: int, rs: seq<Request<K, V>>): seq<Op<K, V>>
    requires cap != 0
  {
    if rs == [] then [] else
      var ops := Accepted(cap, rs[..|rs| - 1]);
      ops + match rs[|rs| - 1] {
        case GetValue(k) => if Recent(cap, ops, k) && LastMark(ops, k) then [] else [Get(k)]
        case SetValue(k, v) => if Recent(cap, ops, k) && LastMark(ops, k) then [] else [Set(k, v)]
        case MarkDirty(k) => [SetDirty(k)]
        case PlainGet(k) => [Get(k)]
      }
  }

  /** The answer to `getValue` for `k` after the operations `ops`: the value it was last set to, if the key is
      among the last used and not marked dirty. */
  ghost predicate Answers<K, V>(cap: int, ops: seq<Op<K, V>>, k: K, reply: Reply<V>)
    requires cap != 0
  {
    && (reply == NotExist <==> !Recent(cap, ops, k))
    && (reply == DirtyData <==> Recent(cap, ops, k) && LastMark(ops, k))
    && (reply.Success? <==> Recent(cap, ops, k) && !LastMark(ops, k))
    && (reply.Success? ==> LastSet(ops, k) == Some(reply.v))
  }

  lemma RecentHas<K, V>(cap: int, ops: seq<Op<K, V>>, k: K)
    requires cap != 0
    ensures Recent(cap, ops, k) <==> Has(Run(cap, ops), k)
    ensures IsDirty(Run(cap, ops), k) <==> Recent(cap, ops, k) && LastMark(ops, k)
    ensures Has(Run(cap, ops), k) ==> LastSet(ops, k) == Some(Run(cap, ops)[Index(Run(cap, ops), k)].val)
  {
    var s := Run(cap, ops);
    RecentKeys(cap, ops);
    HasIn(s, k);
    hide Last, Recency, Touched, Run;
    if Has(s, k) {
      Contents(cap, ops, s[Index(s, k)]);
    }
  }

  lemma RunOne<K, V>(cap: int, ops: seq<Op<K, V>>, op: Op<K, V>)
    requires cap != 0
    ensures Run(cap, ops + [op]) == Step(Run(cap, ops), cap, op)
    ensures ops + [] == ops
  {
    assert (ops + [op])[..|ops|] == ops;
  }

  /** A request run on an empty cache is the run of its operations. */
  lemma {:induction false} ServedRuns<K, V>(cap: int, rs: seq<Request<K, V>>)
    requires cap != 0
    ensures Served([], cap, rs) == Run(cap, Accepted(cap, rs))
  {
    if rs != [] {
      var r, ops := rs[|rs| - 1], Accepted(cap, rs[..|rs| - 1]);
      ServedRuns(cap, rs[..|rs| - 1]);
      RecentHas(cap, ops, r.k);
      hide Recent, LastMark, LastSet, Run, Put, Touch, Mark, Has;
      match r
      case GetValue(k) => RunOne(cap, ops, Get(k));
      case SetValue(k, v) => RunOne(cap, ops, Set(k, v));
      case MarkDirty(k) => RunOne(cap, ops, SetDirty(k));
      case PlainGet(k) => RunOne(cap, ops, Get(k));
    }
  }

  /** So it answers as it should after every run of requests. */
  lemma AnswersRight<K, V>(cap: int, rs: seq<Request<K, V>>, k: K)
    requires cap != 0
    ensures Answers(cap, Accepted(cap, rs), k, Serve(Served([], cap, rs), cap, GetValue(k)).1)
  {
    ServedRuns(cap, rs);
    RecentHas(cap, Accepted(cap, rs), k);
    hide Recent, LastMark, LastSet, Run, Touch, Accepted;
  }

  /** A success makes the key the most recently used; any other answer leaves the cache as it is. */
  lemma SuccessUses<K, V>(cap: int, rs: seq<Request<K, V>>, k: K)
    requires cap != 0
    ensures var s, s' := Served([], cap, rs), Served([], cap, rs + [GetValue(k)]);
      var ops := Accepted(cap, rs);
      && (Recent(cap, ops, k) && !LastMark(ops, k) ==>
        s' != [] && s'[|s'| - 1].key == k && LastSet(ops, k) == Some(s'[|s'| - 1].val))
      && (!Recent(cap, ops, k) || LastMark(ops, k) ==> s' == s)
  {
    assert (rs + [GetValue(k)])[..|rs|] == rs;
    ServedRuns(cap, rs);
    RecentHas(cap, Accepted(cap, rs), k);
    hide Recent, LastMark, LastSet, Run, Accepted;
  }
}
