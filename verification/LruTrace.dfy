/** What the order, the values and the dirty bits of a cache say about the operations it has seen. */
module LruTrace {
  import opened LinkedList
  import opened Options
  import opened LruSpec
  import opened Sequences

  // ---------- the order ----------

  function Skip<K(==)>(ks: seq<K>, k: K): seq<K> {
    if ks == [] then [] else
      Skip(ks[..|ks| - 1], k) + (if ks[|ks| - 1] == k then [] else [ks[|ks| - 1]])
  }

  /** The keys that were set or found, in the order it happened. */
  function Touched<K(==), V>(cap: int, ops: seq<Op<K, V>>): seq<K>
    requires cap != 0
  {
    if ops == [] then [] else
      var n := |ops| - 1;
      Touched(cap, ops[..n]) +
      match ops[n] {
        case Set(k, _) => [k]
        case Get(k) => if Has(Run(cap, ops[..n]), k) then [k] else []
        case _ => []
      }
  }

  /** The distinct keys of the log, the latest used last. */
  function Recency<K(==)>(log: seq<K>): seq<K> {
    if log == [] then [] else Skip(Recency(log[..|log| - 1]), log[|log| - 1]) + [log[|log| - 1]]
  }

  /** The last `cap` of them; a negative capacity has no limit. */
  function Last<K>(cap: int, ks: seq<K>): seq<K> {
    if 0 <= cap < |ks| then ks[|ks| - cap..] else ks
  }

  function LastAt<K(==)>(log: seq<K>, k: K): (i: nat)
    requires k in log
    ensures i < |log| && log[i] == k
    ensures forall j :: i < j < |log| ==> log[j] != k
  {
    if log[|log| - 1] == k then |log| - 1 else LastAt(log[..|log| - 1], k)
  }

  lemma {:induction false} SkipIn<K>(ks: seq<K>, k: K)
    ensures forall x :: x in Skip(ks, k) <==> x in ks && x != k
  {
    if ks != [] {
      SkipIn(ks[..|ks| - 1], k);
      assert ks == ks[..|ks| - 1] + [ks[|ks| - 1]];
    }
  }

  lemma {:induction false} SkipAppend<K>(a: seq<K>, b: seq<K>, k: K)
    ensures Skip(a + b, k) == Skip(a, k) + Skip(b, k)
  {
    if b == [] {
      assert a + b == a;
    } else {
      var n := |b| - 1;
      SkipAppend(a, b[..n], k);
      assert (a + b)[..|a + b| - 1] == a + b[..n] && (a + b)[|a + b| - 1] == b[n];
      var last := if b[n] == k then [] else [b[n]];
      assert Skip(a + b, k) == Skip(a + b[..n], k) + last;
      assert Skip(b, k) == Skip(b[..n], k) + last;
      hide Skip;
    }
  }

  lemma {:induction false} SkipAbsent<K>(ks: seq<K>, k: K)
    requires k !in ks
    ensures Skip(ks, k) == ks
  {
    if ks != [] {
      SkipAbsent(ks[..|ks| - 1], k);
    }
  }

  lemma {:induction false} SkipAt<K>(ks: seq<K>, i: nat)
    requires i < |ks| && Distinct(ks)
    ensures Skip(ks, ks[i]) == Without(ks, i)
  {
    var n := |ks| - 1;
    if i == n {
      SkipAbsent(ks[..n], ks[i]);
    } else {
      SkipAt(ks[..n], i);
      assert Without(ks, i) == Without(ks[..n], i) + [ks[n]];
    }
  }

  /** `r` lists each key of the log once, by its last use. */
  ghost predicate ByLastUse<K>(log: seq<K>, r: seq<K>) {
    && Distinct(r)
    && (forall x :: x in r ==> x in log) && (forall x :: x in log ==> x in r)
    && (forall i, j :: 0 <= i < j < |r| ==> LastAt(log, r[i]) < LastAt(log, r[j]))
  }

  lemma {:induction false} SkipOrder<K>(r: seq<K>, k: K) returns (at: seq<nat>)
    requires Distinct(r)
    ensures |at| == |Skip(r, k)|
    ensures forall i :: 0 <= i < |at| ==> at[i] < |r| && Skip(r, k)[i] == r[at[i]] && r[at[i]] != k
    ensures forall i, j :: 0 <= i < j < |at| ==> at[i] < at[j]
  {
    if r == [] {
      at := [];
    } else {
      var n := |r| - 1;
      at := SkipOrder(r[..n], k);
      if r[n] != k {
        at := at + [n];
      }
    }
  }

  lemma RecencyStep<K>(log: seq<K>, r: seq<K>, k: K)
    requires ByLastUse(log, r)
    ensures ByLastUse(log + [k], Skip(r, k) + [k])
  {
    var log', s := log + [k], Skip(r, k);
    SkipIn(r, k);
    var at := SkipOrder(r, k);
    hide Skip;
    assert log'[..|log|] == log;
    forall i | 0 <= i < |s| ensures s[i] in log && s[i] != k && LastAt(log', s[i]) == LastAt(log, r[at[i]]) {
      assert r[at[i]] in log;
    }
  }

  lemma {:induction false} RecencyMeaning<K>(log: seq<K>)
    ensures ByLastUse(log, Recency(log))
  {
    if log != [] {
      var n := |log| - 1;
      RecencyMeaning(log[..n]);
      RecencyStep(log[..n], Recency(log[..n]), log[n]);
      hide ByLastUse;
      assert log == log[..n] + [log[n]];
    }
  }

  lemma LastOf<K>(cap: int, a: seq<K>, b: seq<K>, k: K)
    requires |b| + 1 == cap || ((cap < 0 || |b| < cap) && a == [])
    ensures Last(cap, a + b + [k]) == b + [k]
  {
  }

  lemma LastParts<K>(cap: int, r: seq<K>) returns (p: seq<K>)
    requires cap != 0
    ensures r == p + Last(cap, r) && Cuts(cap, p, Last(cap, r))
  {
    p := r[..|r| - |Last(cap, r)|];
  }

  /** `l` is the last `cap` of `p + l`. */
  ghost predicate Cuts<K>(cap: int, p: seq<K>, l: seq<K>) {
    (p == [] || |l| == cap) && (cap > 0 ==> |l| <= cap)
  }

  lemma LastWith<K>(cap: int, p: seq<K>, l: seq<K>, k: K)
    requires cap != 0 && Cuts(cap, p, l) && Distinct(l) && k in l
    ensures Last(cap, Skip(p, k) + Skip(l, k) + [k]) == Skip(l, k) + [k]
  {
    var i :| 0 <= i < |l| && l[i] == k;
    SkipAt(l, i);
    SkipShort(p, k);
    hide Last, Distinct, Skip;
    LastOf(cap, Skip(p, k), Skip(l, k), k);
  }

  lemma LastWithout<K>(cap: int, p: seq<K>, l: seq<K>, k: K)
    requires cap != 0 && Cuts(cap, p, l) && k !in l
    ensures Last(cap, Skip(p, k) + Skip(l, k) + [k]) == (if |l| == cap then l[1..] else Skip(l, k)) + [k]
  {
    hide Last, Skip;
    SkipAbsent(l, k);
    SkipShort(p, k);
    if |l| == cap {
      assert Skip(p, k) + l == (Skip(p, k) + [l[0]]) + l[1..];
      LastOf(cap, Skip(p, k) + [l[0]], l[1..], k);
    } else {
      LastOf(cap, Skip(p, k), l, k);
    }
  }

  /** How the last `cap` change when `k` is used. */
  lemma LastStep<K>(cap: int, r: seq<K>, k: K)
    requires cap != 0 && Distinct(r)
    ensures var l := Last(cap, r);
      Last(cap, Skip(r, k) + [k]) == (if k !in l && |l| == cap then l[1..] else Skip(l, k)) + [k]
  {
    hide Skip, Cuts;
    var l := Last(cap, r);
    var p := LastParts(cap, r);
    SkipAppend(p, l, k);
    LastDistinct(p, l);
    hide Last, Distinct;
    if k in l {
      LastWith(cap, p, l, k);
    } else {
      LastWithout(cap, p, l, k);
    }
  }

  lemma LastDistinct<K>(p: seq<K>, l: seq<K>)
    requires Distinct(p + l)
    ensures Distinct(l)
  {
    forall i, j | 0 <= i < j < |l| ensures l[i] != l[j] {
      assert (p + l)[|p| + i] == l[i] && (p + l)[|p| + j] == l[j];
    }
  }

  lemma {:induction false} SkipShort<K>(ks: seq<K>, k: K)
    ensures |Skip(ks, k)| <= |ks|
  {
    if ks != [] {
      SkipShort(ks[..|ks| - 1], k);
    }
  }

  lemma HasIn<K, V>(s: seq<Entry<K, V>>, k: K)
    ensures Has(s, k) <==> k in KeysOf(s)
  {
  }

  lemma KeysDrop<K, V>(s: seq<Entry<K, V>>, k: K)
    requires Keyed(s)
    ensures KeysOf(Drop(s, k)) == Skip(KeysOf(s), k)
    ensures Has(s, k) <==> k in KeysOf(s)
  {
    var ks := KeysOf(s);
    HasIn(s, k);
    if Has(s, k) {
      var i := Index(s, k);
      SkipAt(ks, i);
      hide Skip, Keyed, Has;
      assert KeysOf(Without(s, i)) == Without(ks, i);
    } else {
      SkipAbsent(ks, k);
    }
  }

  lemma PutKeys<K, V>(s: seq<Entry<K, V>>, cap: int, k: K, v: V)
    requires cap != 0 && Keyed(s)
    ensures var l := KeysOf(s);
      KeysOf(Put(s, cap, k, v)) == (if k !in l && |l| == cap then l[1..] else Skip(l, k)) + [k]
  {
    hide Skip, Keyed, Drop, Has;
    KeysDrop(s, k);
    var r := if !Has(s, k) && |s| == cap then s[1..] else Drop(s, k);
    assert KeysOf(r + [Entry(k, v, false)]) == KeysOf(r) + [k];
    assert |s| == cap ==> KeysOf(s[1..]) == KeysOf(s)[1..];
  }

  lemma RecencyPush<K>(log: seq<K>, k: K)
    ensures Recency(log + [k]) == Skip(Recency(log), k) + [k]
    ensures Distinct(Recency(log))
  {
    RecencyMeaning(log);
    assert (log + [k])[..|log|] == log;
  }

  lemma RecentUse<K, V>(s: seq<Entry<K, V>>, s': seq<Entry<K, V>>, cap: int, log: seq<K>, k: K)
    requires cap != 0 && KeysOf(s) == Last(cap, Recency(log))
    requires var l := KeysOf(s); KeysOf(s') == (if k !in l && |l| == cap then l[1..] else Skip(l, k)) + [k]
    ensures KeysOf(s') == Last(cap, Recency(log + [k]))
  {
    hide Skip, Last, Recency, Distinct, KeysOf;
    RecencyPush(log, k);
    LastStep(cap, Recency(log), k);
  }

  /** The cache always lists the last `cap` keys used, the latest last. */
  lemma {:induction false} RecentKeys<K, V>(cap: int, ops: seq<Op<K, V>>)
    requires cap != 0
    ensures KeysOf(Run(cap, ops)) == Last(cap, Recency(Touched(cap, ops)))
  {
    if ops != [] {
      var n := |ops| - 1;
      var s, s', log := Run(cap, ops[..n]), Run(cap, ops), Touched(cap, ops[..n]);
      assert log + [] == log;
      RecentKeys(cap, ops[..n]);
      RunKeeps(cap, ops[..n]);
      hide Last, Recency, Keyed, Skip, Drop, Put;
      match ops[n]
      case Set(k, v) =>
        PutKeys(s, cap, k, v);
        RecentUse(s, s', cap, log, k);
      case Get(k) =>
        if Has(s, k) {
          TouchKeys(s, k);
          RecentUse(s, s', cap, log, k);
        }
      case SetDirty(k) =>
      case SetClean(k) =>
    }
  }

  lemma TouchKeys<K, V>(s: seq<Entry<K, V>>, k: K)
    requires Keyed(s) && Has(s, k)
    ensures k in KeysOf(s) && KeysOf(Touch(s, k)) == Skip(KeysOf(s), k) + [k]
  {
    hide Has, Keyed, Drop, Skip, Index;
    KeysDrop(s, k);
    assert KeysOf(Touch(s, k)) == KeysOf(Drop(s, k)) + [k];
  }

  // ---------- the values and the dirty bits ----------

  /** The value `k` was last set to. */
  function LastSet<K(==), V>(ops: seq<Op<K, V>>, k: K): Option<V> {
    if ops == [] then None else
      match ops[|ops| - 1]
      case Set(x, v) => if x == k then Some(v) else LastSet(ops[..|ops| - 1], k)
      case _ => LastSet(ops[..|ops| - 1], k)
  }

  /** Was `k` marked dirty after it was last set or marked clean? */
  predicate LastMark<K(==), V>(ops: seq<Op<K, V>>, k: K) {
    ops != [] &&
    match ops[|ops| - 1]
    case Set(x, _) => x != k && LastMark(ops[..|ops| - 1], k)
    case SetDirty(x) => x == k || LastMark(ops[..|ops| - 1], k)
    case SetClean(x) => x != k && LastMark(ops[..|ops| - 1], k)
    case Get(_) => LastMark(ops[..|ops| - 1], k)
  }

  /** `ops[i]` is the last `set` of `k`. */
  ghost predicate SetAt<K, V>(ops: seq<Op<K, V>>, k: K, i: nat) {
    && i < |ops| && ops[i].Set? && ops[i].k == k
    && forall j :: i < j < |ops| ==> !(ops[j].Set? && ops[j].k == k)
  }

  lemma {:induction false} LastSetMeans<K, V>(ops: seq<Op<K, V>>, k: K, i: nat)
    requires SetAt(ops, k, i)
    ensures LastSet(ops, k) == Some(ops[i].v)
    decreases |ops|
  {
    if i < |ops| - 1 {
      LastSetMeans(ops[..|ops| - 1], k, i);
    }
  }

  /** `ops[i]` marked `k` dirty, and `k` was not set or marked clean since. */
  ghost predicate MarkedAt<K, V>(ops: seq<Op<K, V>>, k: K, i: nat) {
    && i < |ops| && ops[i] == SetDirty(k)
    && forall j :: i < j < |ops| ==> !((ops[j].Set? || ops[j].SetClean?) && ops[j].k == k)
  }

  lemma {:induction false} LastMarkMeans<K, V>(ops: seq<Op<K, V>>, k: K)
    ensures LastMark(ops, k) <==> exists i :: MarkedAt(ops, k, i)
    decreases |ops|
  {
    if ops != [] {
      var n := |ops| - 1;
      LastMarkMeans(ops[..n], k);
      if i: nat :| MarkedAt(ops[..n], k, i) && !((ops[n].Set? || ops[n].SetClean?) && ops[n].k == k) {
        assert MarkedAt(ops, k, i);
      }
      if ops[n] == SetDirty(k) {
        assert MarkedAt(ops, k, n);
      }
      if i: nat :| MarkedAt(ops, k, i) && i < n {
        assert MarkedAt(ops[..n], k, i);
      }
    }
  }

  lemma PutIn<K, V>(s: seq<Entry<K, V>>, cap: int, k: K, v: V, e: Entry<K, V>)
    requires cap != 0 && Keyed(s) && e in Put(s, cap, k, v)
    ensures e == Entry(k, v, false) || (e in s && e.key != k)
  {
  }

  /** Whatever its capacity, a cache answers for a key it holds what was last set, and its dirty bit
      is what was last asked for. */
  lemma {:induction false} Contents<K, V>(cap: int, ops: seq<Op<K, V>>, e: Entry<K, V>)
    requires cap != 0 && e in Run(cap, ops)
    ensures LastSet(ops, e.key) == Some(e.val) && LastMark(ops, e.key) == e.dirty
  {
    var n := |ops| - 1;
    var s := Run(cap, ops[..n]);
    RunKeeps(cap, ops[..n]);
    match ops[n]
    case Set(k, v) =>
      PutIn(s, cap, k, v, e);
      if e in s && e.key != k {
        Contents(cap, ops[..n], e);
      }
    case Get(k) =>
      DropIn(s, k, e);
      Contents(cap, ops[..n], e);
    case SetDirty(k) =>
      var i :| 0 <= i < |s| && Mark(s, k, true)[i] == e;
      Contents(cap, ops[..n], s[i]);
    case SetClean(k) =>
      var i :| 0 <= i < |s| && Mark(s, k, false)[i] == e;
      Contents(cap, ops[..n], s[i]);
  }

  // ---------- the requests of a cache server ----------

  datatype Request<K, V> = GetValue(k: K) | SetValue(k: K, v: V) | MarkDirty(k: K) | PlainGet(k: K)
  datatype Reply<V> = DirtyData | Success(v: V) | NotExist | NoReply

  predicate IsDirty<K(==), V>(s: seq<Entry<K, V>>, k: K) {
    Has(s, k) && s[Index(s, k)].dirty
  }

  /** `getValue` and `setValue` with the cache they work on; neither touches a dirty key. */
  function Serve<K(==), V>(s: seq<Entry<K, V>>, cap: int, r: Request<K, V>): (seq<Entry<K, V>>, Reply<V>)
    requires r.SetValue? ==> cap != 0
  {
    match r
    case GetValue(k) =>
      if IsDirty(s, k) then (s, DirtyData)
      else if Has(s, k) then (Touch(s, k), Success(s[Index(s, k)].val))
      else (s, NotExist)
    case SetValue(k, v) => (if IsDirty(s, k) then s else Put(s, cap, k, v), NoReply)
    case MarkDirty(k) => (Mark(s, k, true), NoReply)
    case PlainGet(k) => (if Has(s, k) then Touch(s, k) else s, NoReply)
  }

  function Served<K(==), V>(s: seq<Entry<K, V>>, cap: int, rs: seq<Request<K, V>>): seq<Entry<K, V>>
    requires cap != 0
  {
    if rs == [] then s else Serve(Served(s, cap, rs[..|rs| - 1]), cap, rs[|rs| - 1]).0
  }

  /** The request makes a full cache drop `k`, its least recently used key, for a new one. */
  predicate Evicts<K(==), V>(s: seq<Entry<K, V>>, cap: int, r: Request<K, V>, k: K) {
    r.SetValue? && !Has(s, r.k) && |s| == cap && s != [] && s[0].key == k
  }

  lemma ServeKeeps<K, V>(s: seq<Entry<K, V>>, cap: int, r: Request<K, V>)
    requires cap != 0 && Keyed(s) && (cap > 0 ==> |s| <= cap)
    ensures var s' := Serve(s, cap, r).0; Keyed(s') && (cap > 0 ==> |s'| <= cap)
  {
    StepKeeps(s, cap, match r
      case GetValue(k) => Get(k)
      case SetValue(k, v) => Set(k, v)
      case MarkDirty(k) => SetDirty(k)
      case PlainGet(k) => Get(k));
  }

  /** A dirty entry survives every request as it is, unless the cache evicts it. */
  lemma DirtyStep<K, V>(s: seq<Entry<K, V>>, cap: int, r: Request<K, V>, e: Entry<K, V>)
    requires cap != 0 && Keyed(s) && (cap > 0 ==> |s| <= cap) && e in s && e.dirty
    ensures Evicts(s, cap, r, e.key) ==> !Has(Serve(s, cap, r).0, e.key)
    ensures !Evicts(s, cap, r, e.key) ==> e in Serve(s, cap, r).0
    ensures r == GetValue(e.key) ==> Serve(s, cap, r).1 == DirtyData
  {
    var i :| 0 <= i < |s| && s[i] == e;
    IndexUnique(s, i);
    DropIn(s, r.k, e);
    match r
    case GetValue(k) =>
    case SetValue(k, v) =>
      if !Has(s, k) && |s| == cap {
        FirstDropped(s);
        DropIn(s, s[0].key, e);
        DropHas(s, s[0].key, e.key);
        if Evicts(s, cap, r, e.key) {
          DropKeyed(s, s[0].key);
          DropHas(s, s[0].key, k);
          PushKeyed(s[1..], Entry(k, v, false));
        }
      }
    case MarkDirty(k) =>
      assert Mark(s, k, true)[i] == e;
    case PlainGet(k) =>
  }

  /** No request of the run evicts `k`. */
  ghost predicate Unevicted<K, V>(s: seq<Entry<K, V>>, cap: int, rs: seq<Request<K, V>>, k: K)
    requires cap != 0
  {
    rs == [] ||
    var n := |rs| - 1;
    (Unevicted(s, cap, rs[..n], k) && !Evicts(Served(s, cap, rs[..n]), cap, rs[n], k))
  }

  /** After any run that does not evict it, a dirty key has its value and its bit, and is not answered
      as a success. */
  lemma {:induction false} DirtyStays<K, V>(s: seq<Entry<K, V>>, cap: int, rs: seq<Request<K, V>>, e: Entry<K, V>)
    requires cap != 0 && Keyed(s) && (cap > 0 ==> |s| <= cap) && e in s && e.dirty
    requires Unevicted(s, cap, rs, e.key)
    ensures var s' := Served(s, cap, rs);
      && Keyed(s') && (cap > 0 ==> |s'| <= cap)
      && e in s' && Serve(s', cap, GetValue(e.key)) == (s', DirtyData)
  {
    if rs != [] {
      var n := |rs| - 1;
      DirtyStays(s, cap, rs[..n], e);
      DirtyStep(Served(s, cap, rs[..n]), cap, rs[n], e);
      ServeKeeps(Served(s, cap, rs[..n]), cap, rs[n]);
    }
    var s' := Served(s, cap, rs);
    var i :| 0 <= i < |s'| && s'[i] == e;
    IndexUnique(s', i);
  }

  // ---------- the backup pass ----------

  function PairsOf<K, V>(s: seq<Entry<K, V>>): (r: seq<(K, V)>)
    ensures |r| == |s| && forall i :: 0 <= i < |s| ==> r[i] == (s[i].key, s[i].val)
  {
    seq(|s|, i requires 0 <= i < |s| => (s[i].key, s[i].val))
  }

  /** The entries as a backup holds them, none dirty. */
  function Cleaned<K, V>(s: seq<Entry<K, V>>): (r: seq<Entry<K, V>>)
    ensures |r| == |s| && forall i :: 0 <= i < |s| ==> r[i] == s[i].(dirty := false)
  {
    seq(|s|, i requires 0 <= i < |s| => s[i].(dirty := false))
  }

  ghost predicate Clean<K, V>(s: seq<Entry<K, V>>) {
    forall i :: 0 <= i < |s| ==> !s[i].dirty
  }

  function Replayed<K(==), V>(t: seq<Entry<K, V>>, cap: int, pairs: seq<(K, V)>): seq<Entry<K, V>>
    requires cap != 0
  {
    if pairs == [] then t else
      var p := pairs[|pairs| - 1];
      Serve(Replayed(t, cap, pairs[..|pairs| - 1]), cap, SetValue(p.0, p.1)).0
  }

  /** The messages one by one: a dirty key is left alone, any other is set. */
  lemma ReplayedIs<K, V>(t: seq<Entry<K, V>>, cap: int, pairs: seq<(K, V)>, k: K, v: V)
    requires cap != 0
    ensures Replayed(t, cap, []) == t
    ensures var r := Replayed(t, cap, pairs);
      Replayed(t, cap, pairs + [(k, v)]) == if IsDirty(r, k) then r else Put(r, cap, k, v)
  {
    assert (pairs + [(k, v)])[..|pairs|] == pairs;
  }

  /** Getting the least recently used key moves it to the other end, so getting all in order is a turn
      of the whole list. */
  lemma TouchFirst<K, V>(s: seq<Entry<K, V>>, i: nat)
    requires i < |s|
    ensures var t := s[i..] + s[..i];
      && Has(t, s[i].key) && t[Index(t, s[i].key)] == s[i]
      && Touch(t, s[i].key) == s[i + 1..] + s[..i + 1]
  {
    hide Index, Has, Touch;
    var t := s[i..] + s[..i];
    assert t[0] == s[i] && t[1..] == s[i + 1..] + s[..i];
    TouchHead(t);
    assert s[..i + 1] == s[..i] + [s[i]];
  }

  lemma TouchHead<K, V>(t: seq<Entry<K, V>>)
    requires t != []
    ensures Has(t, t[0].key) && t[Index(t, t[0].key)] == t[0] && Touch(t, t[0].key) == t[1..] + [t[0]]
  {
  }

  lemma PutEnd<K, V>(p: seq<Entry<K, V>>, c: seq<Entry<K, V>>, cap: int, k: K, v: V)
    requires cap != 0 && Keyed(p + c) && (cap > 0 ==> |c| < cap && |p + c| <= cap) && Clean(p + c) && !Has(c, k)
    ensures var r := Serve(p + c, cap, SetValue(k, v)).0;
      && Keyed(r) && Clean(r) && (cap > 0 ==> |r| <= cap) && |r| > |c| && r[|r| - |c| - 1..] == c + [Entry(k, v, false)]
  {
    var t := p + c;
    ServeKeeps(t, cap, SetValue(k, v));
    var p' := PutFront(p, c, cap, k, v);
    hide Put, Keyed, Has;
    assert p' + c + [Entry(k, v, false)] == p' + (c + [Entry(k, v, false)]);
  }

  lemma PutFront<K, V>(p: seq<Entry<K, V>>, c: seq<Entry<K, V>>, cap: int, k: K, v: V) returns (p': seq<Entry<K, V>>)
    requires cap != 0 && (cap > 0 ==> |c| < cap) && Clean(p + c) && !Has(c, k)
    ensures Put(p + c, cap, k, v) == p' + c + [Entry(k, v, false)] && Clean(p' + c)
  {
    var t := p + c;
    if Has(t, k) {
      var i := Index(t, k);
      assert forall j :: 0 <= j < |c| ==> t[|p| + j].key == c[j].key != k;
      assert i < |p|;
      p' := Without(p, i);
      assert Without(t, i) == p' + c;
      assert forall j :: 0 <= j < |p' + c| ==> (p' + c)[j] in t;
    } else if |t| == cap {
      p' := p[1..];
      assert t[1..] == p' + c;
    } else {
      p' := p;
    }
  }

  lemma NotAmong<K, V>(s: seq<Entry<K, V>>)
    requires Keyed(s) && s != []
    ensures var n := |s| - 1;
      Keyed(s[..n]) && !Has(Cleaned(s[..n]), s[n].key) && PairsOf(s)[..n] == PairsOf(s[..n])
  {
  }

  lemma ReplayOne<K, V>(t: seq<Entry<K, V>>, cap: int, s: seq<Entry<K, V>>)
    requires cap != 0
    ensures s == [] ==> Replayed(t, cap, PairsOf(s)) == t && Cleaned(s) == []
    ensures s != [] ==> var n := |s| - 1;
      && Replayed(t, cap, PairsOf(s)) == Serve(Replayed(t, cap, PairsOf(s[..n])), cap, SetValue(s[n].key, s[n].val)).0
      && Cleaned(s) == Cleaned(s[..n]) + [Entry(s[n].key, s[n].val, false)]
  {
    hide Serve;
    if s != [] {
      assert PairsOf(s)[..|s| - 1] == PairsOf(s[..|s| - 1]);
    }
  }

  /** Replayed into a backup of the same capacity with no dirty entry, the pairs of a cache make its
      latest entries equal that cache, in order. */
  lemma {:induction false} ReplayCopies<K, V>(t: seq<Entry<K, V>>, cap: int, s: seq<Entry<K, V>>)
    requires cap != 0 && Keyed(s) && Keyed(t) && Clean(t) && (cap > 0 ==> |s| <= cap && |t| <= cap)
    ensures var r := Replayed(t, cap, PairsOf(s));
      && Keyed(r) && Clean(r) && (cap > 0 ==> |r| <= cap) && |r| >= |s| && r[|r| - |s|..] == Cleaned(s)
  {
    hide Serve, Has, Keyed, Clean, Replayed, PairsOf, Cleaned;
    ReplayOne(t, cap, s);
    if s != [] {
      var n := |s| - 1;
      NotAmong(s);
      ReplayCopies(t, cap, s[..n]);
      var r, c := Replayed(t, cap, PairsOf(s[..n])), Cleaned(s[..n]);
      assert r == r[..|r| - n] + c;
      PutEnd(r[..|r| - n], c, cap, s[n].key, s[n].val);
    }
  }
}
