/** What a cache of cache_server/lru.h holds, as a sequence with the least recently used entry first,
    and what follows about whole traces of operations. */
module LruSpec {
  import opened LinkedList
  import opened Sequences

  datatype Entry<K, V> = Entry(key: K, val: V, dirty: bool)

  function KeysOf<K, V>(s: seq<Entry<K, V>>): (r: seq<K>)
    ensures |r| == |s| && forall i :: 0 <= i < |s| ==> r[i] == s[i].key
  {
    seq(|s|, i requires 0 <= i < |s| => s[i].key)
  }

  predicate Has<K(==), V>(s: seq<Entry<K, V>>, k: K) {
    exists i :: 0 <= i < |s| && s[i].key == k
  }

  function Index<K(==), V>(s: seq<Entry<K, V>>, k: K): (i: nat)
    requires Has(s, k)
    ensures i < |s| && s[i].key == k
  {
    if s[0].key == k then 0 else 1 + Index(s[1..], k)
  }

  /** No key is listed twice. */
  ghost predicate Keyed<K, V>(s: seq<Entry<K, V>>) {
    forall i, j :: 0 <= i < j < |s| ==> s[i].key != s[j].key
  }

  // ---------- the operations ----------

  /** `s` without the entry of `k`. */
  function Drop<K(==), V>(s: seq<Entry<K, V>>, k: K): seq<Entry<K, V>> {
    if Has(s, k) then Without(s, Index(s, k)) else s
  }

  /** `set`. */
  function Put<K(==), V>(s: seq<Entry<K, V>>, cap: int, k: K, v: V): seq<Entry<K, V>>
    requires cap != 0
  {
    (if !Has(s, k) && |s| == cap then s[1..] else Drop(s, k)) + [Entry(k, v, false)]
  }

  /** What `get` does to the order. */
  function Touch<K(==), V>(s: seq<Entry<K, V>>, k: K): seq<Entry<K, V>>
    requires Has(s, k)
  {
    Drop(s, k) + [s[Index(s, k)]]
  }

  /** `set_dirty` and `set_clean`: nothing happens when the key is absent. */
  function Mark<K(==), V>(s: seq<Entry<K, V>>, k: K, b: bool): (r: seq<Entry<K, V>>)
    ensures |r| == |s| && KeysOf(r) == KeysOf(s)
    ensures forall i :: 0 <= i < |s| ==> r[i] == if s[i].key == k then s[i].(dirty := b) else s[i]
  {
    seq(|s|, i requires 0 <= i < |s| => if s[i].key == k then s[i].(dirty := b) else s[i])
  }

  datatype Op<K, V> = Set(k: K, v: V) | Get(k: K) | SetDirty(k: K) | SetClean(k: K)

  /** Callers ask `hasKey` before `get`, so a miss does nothing. */
  function Step<K(==), V>(s: seq<Entry<K, V>>, cap: int, op: Op<K, V>): seq<Entry<K, V>>
    requires cap != 0
  {
    match op
    case Set(k, v) => Put(s, cap, k, v)
    case Get(k) => if Has(s, k) then Touch(s, k) else s
    case SetDirty(k) => Mark(s, k, true)
    case SetClean(k) => Mark(s, k, false)
  }

  function Run<K(==), V>(cap: int, ops: seq<Op<K, V>>): seq<Entry<K, V>>
    requires cap != 0
  {
    if ops == [] then [] else Step(Run(cap, ops[..|ops| - 1]), cap, ops[|ops| - 1])
  }

  // ---------- one step ----------

  lemma IndexUnique<K, V>(s: seq<Entry<K, V>>, i: nat)
    requires i < |s| && Keyed(s)
    ensures Has(s, s[i].key) && Index(s, s[i].key) == i
  {
  }

  lemma DropAt<K, V>(s: seq<Entry<K, V>>, k: K)
    ensures !Has(s, k) ==> Drop(s, k) == s
    ensures Has(s, k) ==> |Drop(s, k)| == |s| - 1
    ensures Has(s, k) ==> forall j :: 0 <= j < |s| - 1 ==> Drop(s, k)[j] == s[if j < Index(s, k) then j else j + 1]
  {
  }

  lemma DropHas<K, V>(s: seq<Entry<K, V>>, k: K, x: K)
    requires Keyed(s)
    ensures Has(Drop(s, k), x) <==> Has(s, x) && x != k
  {
    hide Drop;
    DropAt(s, k);
    if Has(s, k) {
      if x != k && Has(s, x) {
        var i, j := Index(s, k), Index(s, x);
        assert Drop(s, k)[if j < i then j else j - 1].key == x;
      }
    }
  }

  lemma DropIn<K, V>(s: seq<Entry<K, V>>, k: K, e: Entry<K, V>)
    requires Keyed(s)
    ensures e in Drop(s, k) <==> e in s && e.key != k
  {
  }

  lemma DropKeyed<K, V>(s: seq<Entry<K, V>>, k: K)
    requires Keyed(s)
    ensures Keyed(Drop(s, k)) && !Has(Drop(s, k), k)
    ensures |Drop(s, k)| == if Has(s, k) then |s| - 1 else |s|
  {
  }

  lemma PushKeyed<K, V>(s: seq<Entry<K, V>>, e: Entry<K, V>)
    requires Keyed(s) && !Has(s, e.key)
    ensures Keyed(s + [e])
    ensures forall x :: Has(s + [e], x) <==> Has(s, x) || x == e.key
  {
    var r := s + [e];
    assert forall i :: 0 <= i < |s| ==> r[i] == s[i];
    assert r[|s|] == e;
  }

  lemma FirstDropped<K, V>(s: seq<Entry<K, V>>)
    requires s != [] && Keyed(s)
    ensures s[1..] == Drop(s, s[0].key)
  {
  }

  /** Every operation keeps the keys distinct and never outgrows the capacity. */
  lemma StepKeeps<K, V>(s: seq<Entry<K, V>>, cap: int, op: Op<K, V>)
    requires cap != 0 && Keyed(s) && (cap > 0 ==> |s| <= cap)
    ensures var s' := Step(s, cap, op); Keyed(s') && (cap > 0 ==> |s'| <= cap)
  {
    match op
    case Set(k, v) =>
      var r := if !Has(s, k) && |s| == cap then s[1..] else Drop(s, k);
      DropKeyed(s, k);
      assert Keyed(r) && !Has(r, k);
      PushKeyed(r, Entry(k, v, false));
    case Get(k) =>
      if Has(s, k) {
        DropKeyed(s, k);
        PushKeyed(Drop(s, k), s[Index(s, k)]);
      }
    case SetDirty(k) =>
      assert forall i :: 0 <= i < |s| ==> Mark(s, k, true)[i].key == s[i].key;
    case SetClean(k) =>
      assert forall i :: 0 <= i < |s| ==> Mark(s, k, false)[i].key == s[i].key;
  }

  lemma {:induction false} RunKeeps<K, V>(cap: int, ops: seq<Op<K, V>>)
    requires cap != 0
    ensures Keyed(Run(cap, ops)) && (cap > 0 ==> |Run(cap, ops)| <= cap)
  {
    if ops != [] {
      RunKeeps(cap, ops[..|ops| - 1]);
      StepKeeps(Run(cap, ops[..|ops| - 1]), cap, ops[|ops| - 1]);
    }
  }

  // ---------- a larger cache holds what a smaller one holds ----------

  /** `x` was used less recently than `y`. */
  ghost predicate Precedes<K, V>(s: seq<Entry<K, V>>, x: K, y: K) {
    exists i, j :: 0 <= i < j < |s| && s[i].key == x && s[j].key == y
  }

  /** `a` is `b` with some entries left out: same values, same dirty bits, same order. */
  ghost predicate Within<K(!new), V(!new)>(a: seq<Entry<K, V>>, b: seq<Entry<K, V>>) {
    && (forall e :: e in a ==> e in b)
    && (forall x, y :: Precedes(a, x, y) ==> Precedes(b, x, y))
  }

  lemma PrecedesDrop<K, V>(s: seq<Entry<K, V>>, k: K, x: K, y: K)
    requires Keyed(s)
    ensures Precedes(Drop(s, k), x, y) <==> Precedes(s, x, y) && x != k && y != k
  {
    hide Drop;
    DropAt(s, k);
    if Has(s, k) {
      var d, r := Index(s, k), Drop(s, k);
      if Precedes(s, x, y) && x != k && y != k {
        var i, j :| 0 <= i < j < |s| && s[i].key == x && s[j].key == y;
        assert r[if i < d then i else i - 1].key == x && r[if j < d then j else j - 1].key == y;
      }
      if Precedes(r, x, y) {
        var i, j :| 0 <= i < j < |r| && r[i].key == x && r[j].key == y;
        assert s[if i < d then i else i + 1].key == x && s[if j < d then j else j + 1].key == y;
      }
    } else if Precedes(s, x, y) {
      var i, j :| 0 <= i < j < |s| && s[i].key == x && s[j].key == y;
    }
  }

  lemma PrecedesPush<K, V>(s: seq<Entry<K, V>>, e: Entry<K, V>, x: K, y: K)
    requires Keyed(s) && !Has(s, e.key)
    ensures Precedes(s + [e], x, y) <==> Precedes(s, x, y) || (Has(s, x) && y == e.key)
  {
    var r := s + [e];
    if Precedes(s, x, y) {
      var i, j :| 0 <= i < j < |s| && s[i].key == x && s[j].key == y;
      assert r[i].key == x && r[j].key == y;
    }
    if Has(s, x) && y == e.key {
      assert r[Index(s, x)].key == x && r[|s|].key == y;
    }
    if Precedes(r, x, y) {
      var i, j :| 0 <= i < j < |r| && r[i].key == x && r[j].key == y;
      assert s[i].key == x;
    }
  }

  lemma WithinHas<K(!new), V(!new)>(a: seq<Entry<K, V>>, b: seq<Entry<K, V>>, k: K)
    requires Within(a, b) && Keyed(b) && Has(a, k)
    ensures Has(b, k) && a[Index(a, k)] == b[Index(b, k)]
  {
    assert a[Index(a, k)] in b;
  }

  lemma WithinDrop<K(!new), V(!new)>(a: seq<Entry<K, V>>, b: seq<Entry<K, V>>, k: K)
    requires Within(a, b) && Keyed(a) && Keyed(b)
    ensures Within(Drop(a, k), Drop(b, k)) && Within(Drop(a, k), b)
  {
    hide Drop, Precedes, Keyed;
    forall e | e in Drop(a, k) ensures e in Drop(b, k) && e in b {
      DropIn(a, k, e);
      DropIn(b, k, e);
    }
    forall x, y | Precedes(Drop(a, k), x, y) ensures Precedes(Drop(b, k), x, y) && Precedes(b, x, y) {
      PrecedesDrop(a, k, x, y);
      PrecedesDrop(b, k, x, y);
    }
  }

  lemma WithinPush<K(!new), V(!new)>(a: seq<Entry<K, V>>, b: seq<Entry<K, V>>, e: Entry<K, V>)
    requires Within(a, b) && Keyed(a) && Keyed(b) && !Has(b, e.key)
    ensures Within(a + [e], b + [e]) && Within(a, b + [e])
  {
    hide Precedes;
    if Has(a, e.key) {
      WithinHas(a, b, e.key);
    }
    forall x, y ensures (Precedes(a + [e], x, y) || Precedes(a, x, y)) ==> Precedes(b + [e], x, y) {
      PrecedesPush(a, e, x, y);
      PrecedesPush(b, e, x, y);
      if Has(a, x) {
        WithinHas(a, b, x);
      }
    }
  }

  /** The entry the larger cache evicts is the one the smaller evicts, or not in the smaller. */
  lemma WithinFirst<K(!new), V(!new)>(a: seq<Entry<K, V>>, b: seq<Entry<K, V>>)
    requires Within(a, b) && Keyed(a) && Keyed(b) && a != [] && b != [] && Has(a, b[0].key)
    ensures a[0].key == b[0].key
  {
    if Index(a, b[0].key) > 0 {
      assert Precedes(a, a[0].key, b[0].key);
      NothingBeforeFirst(b, a[0].key);
    }
  }

  lemma NothingBeforeFirst<K, V>(b: seq<Entry<K, V>>, y: K)
    requires Keyed(b) && b != []
    ensures !Precedes(b, y, b[0].key)
  {
  }

  ghost predicate Included<K(!new), V(!new)>(a: seq<Entry<K, V>>, c: int, b: seq<Entry<K, V>>, d: int) {
    && Keyed(a) && Keyed(b) && |a| <= c && (d > 0 ==> |b| <= d)
    && (|a| < c ==> a == b)
    && Within(a, b)
  }

  lemma IncludedSet<K(!new), V(!new)>(a: seq<Entry<K, V>>, c: int, b: seq<Entry<K, V>>, d: int, k: K, v: V)
    requires c > 0 && (d < 0 || c < d) && Included(a, c, b, d)
    ensures Within(Put(a, c, k, v), Put(b, d, k, v))
    ensures |Put(a, c, k, v)| < c ==> Put(a, c, k, v) == Put(b, d, k, v)
  {
    var a' := if !Has(a, k) && |a| == c then a[1..] else Drop(a, k);
    var b' := if !Has(b, k) && |b| == d then b[1..] else Drop(b, k);
    DropKeyed(a, k);
    DropKeyed(b, k);
    if Has(a, k) {
      WithinHas(a, b, k);
      WithinDrop(a, b, k);
    } else if |a| == c {
      FirstDropped(a);
      DropKeyed(a, a[0].key);
      WithinDrop(a, b, a[0].key);
      if Has(b, k) {
        WithinDrop(a, b, k);
        WithinDrop(a, Drop(b, k), a[0].key);
      } else if |b| == d {
        FirstDropped(b);
        DropKeyed(b, b[0].key);
        DropHas(b, b[0].key, k);
        WithinDrop(a, b, b[0].key);
        if Has(a, b[0].key) {
          WithinFirst(a, b);
        } else {
          WithinDrop(a, Drop(b, b[0].key), a[0].key);
        }
      }
    }
    hide Drop, Within, Has, Keyed;
    assert Within(a', b') && Keyed(a') && Keyed(b') && !Has(b', k);
    WithinPush(a', b', Entry(k, v, false));
  }

  lemma IncludedGet<K(!new), V(!new)>(a: seq<Entry<K, V>>, c: int, b: seq<Entry<K, V>>, d: int, k: K)
    requires c != 0 && d != 0 && Included(a, c, b, d)
    ensures Included(Step(a, c, Get(k)), c, Step(b, d, Get(k)), d)
  {
    DropKeyed(a, k);
    DropKeyed(b, k);
    if Has(a, k) {
      WithinHas(a, b, k);
    }
    if Has(b, k) {
      WithinDrop(a, b, k);
      WithinPush(Drop(a, k), Drop(b, k), b[Index(b, k)]);
      PushKeyed(Drop(b, k), b[Index(b, k)]);
      if Has(a, k) {
        PushKeyed(Drop(a, k), a[Index(a, k)]);
      }
    }
  }

  lemma IncludedMark<K(!new), V(!new)>(a: seq<Entry<K, V>>, c: int, b: seq<Entry<K, V>>, d: int, k: K, m: bool)
    requires Included(a, c, b, d)
    ensures Included(Mark(a, k, m), c, Mark(b, k, m), d)
  {
    var a', b' := Mark(a, k, m), Mark(b, k, m);
    forall e | e in a' ensures e in b' {
      var i :| 0 <= i < |a| && a'[i] == e;
      assert a[i] in b;
      var j :| 0 <= j < |b| && b[j] == a[i];
      assert b'[j] == e;
    }
    forall x, y | Precedes(a', x, y) ensures Precedes(b', x, y) {
      var i, j :| 0 <= i < j < |a| && a'[i].key == x && a'[j].key == y;
      assert a[i].key == x && a[j].key == y;
      assert Precedes(a, x, y);
      var g, h :| 0 <= g < h < |b| && b[g].key == x && b[h].key == y;
      assert b'[g].key == x && b'[h].key == y;
    }
  }

  /** Inclusion: after the same operations a cache of capacity `c` holds a part of what a larger one
      holds (`d < 0` never fills up), with the same values, dirty bits and order. */
  lemma {:induction false} Inclusion<K(!new), V(!new)>(c: int, d: int, ops: seq<Op<K, V>>)
    requires c > 0 && (d < 0 || c < d)
    ensures Included(Run(c, ops), c, Run(d, ops), d)
  {
    if ops == [] {
      assert forall x, y :: !Precedes(Run(c, ops), x, y);
    } else {
      var n := |ops| - 1;
      Inclusion(c, d, ops[..n]);
      var a, b := Run(c, ops[..n]), Run(d, ops[..n]);
      StepKeeps(a, c, ops[n]);
      StepKeeps(b, d, ops[n]);
      hide Mark, Precedes, Within, Drop;
      match ops[n]
      case Set(k, v) => IncludedSet(a, c, b, d, k, v);
      case Get(k) => IncludedGet(a, c, b, d, k);
      case SetDirty(k) => IncludedMark(a, c, b, d, k, true);
      case SetClean(k) => IncludedMark(a, c, b, d, k, false);
    }
  }
}
