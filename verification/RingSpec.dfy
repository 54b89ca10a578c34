/** What consistent hashing promises, on a ring given as a map from hash to owner. */
module RingSpec {
  import opened Options
  import opened Sequences

  function Elements<T>(s: seq<T>): set<T> {
    set x | x in s
  }

  lemma {:induction false} ElementsSize<T>(s: seq<T>)
    ensures |Elements(s)| <= |s| && (|Elements(s)| == |s| <==> Distinct(s))
    decreases |s|
  {
    if s != [] {
      var n := |s| - 1;
      var t, x := s[..n], s[n];
      ElementsSize(t);
      assert s == t + [x];
      assert Elements(s) == Elements(t) + {x};
      if x in t {
        var i :| 0 <= i < n && t[i] == x;
        assert s[i] == s[n] && Elements(s) == Elements(t);
      }
    }
  }

  function Owners<S>(m: map<int, S>): set<S> {
    set h | h in m :: m[h]
  }

  /** The ring after a server with replica hashes `hs` joined: occupied places stay as they are. */
  function Added<S>(m: map<int, S>, hs: set<int>, s: S): map<int, S> {
    map h | h in m.Keys + hs :: if h in m then m[h] else s
  }

  /** The ring after a server left: of its replica hashes, the places it owns become free. */
  function Removed<S(==)>(m: map<int, S>, hs: set<int>, s: S): map<int, S> {
    map h | h in m && !(h in hs && m[h] == s) :: m[h]
  }

  lemma AddedStep<S>(m: map<int, S>, hs: set<int>, h: int, s: S)
    ensures var m' := Added(m, hs, s); Added(m, hs + {h}, s) == if h in m' then m' else m'[h := s]
  {
  }

  lemma RemovedStep<S>(m: map<int, S>, hs: set<int>, h: int, s: S)
    ensures var m' := Removed(m, hs, s);
      Removed(m, hs + {h}, s) == if h in m' && m'[h] == s then m' - {h} else m'
  {
  }

  // ---------- the circular successor ----------

  /** `h` is the least of `ks` at or after `k`, or the least of all when there is none. */
  ghost predicate IsSuccessor(ks: set<int>, k: int, h: int) {
    && h in ks
    && (h >= k || forall g :: g in ks ==> g < k)
    && forall g :: g in ks && (g >= k || h < k) ==> h <= g
  }

  lemma {:induction false} LeastExists(ks: set<int>) returns (h: int)
    requires exists x :: x in ks
    ensures h in ks && forall g :: g in ks ==> h <= g
    decreases |ks|
  {
    var x :| x in ks;
    var rest := ks - {x};
    h := x;
    if y :| y in rest {
      var l := LeastExists(rest);
      h := if l < x then l else x;
    }
    assert forall g :: g in ks ==> g in rest || g == x;
  }

  lemma SuccessorExists(ks: set<int>, k: int) returns (h: int)
    requires exists x :: x in ks
    ensures IsSuccessor(ks, k, h)
  {
    var from := set g | g in ks && g >= k;
    if x :| x in from {
      h := LeastExists(from);
      assert forall g :: g in ks && g >= k ==> g in from;
    } else {
      h := LeastExists(ks);
      assert forall g :: g in ks && g >= k ==> g in from;
    }
  }

  /** The owner of the key hash `k`. */
  ghost function Owner<S>(m: map<int, S>, k: int): (r: Option<S>)
    ensures r.None? <==> m == map[]
    ensures r.Some? ==> exists h :: IsSuccessor(m.Keys, k, h) && r.value == m[h]
  {
    if exists x :: x in m.Keys then
      assert exists h :: IsSuccessor(m.Keys, k, h) by {
        var h := SuccessorExists(m.Keys, k);
      }
      var h :| IsSuccessor(m.Keys, k, h);
      Some(m[h])
    else None
  }

  /** There is only one successor. */
  lemma OwnerIs<S>(m: map<int, S>, k: int, h: int)
    requires IsSuccessor(m.Keys, k, h)
    ensures Owner(m, k) == Some(m[h])
  {
  }

  /** A key whose hash is a place belongs to the owner of that place, and one beyond all places to the owner of
      the first. */
  lemma OwnerAt<S>(m: map<int, S>, k: int)
    ensures k in m ==> Owner(m, k) == Some(m[k])
    ensures forall h :: h in m && (forall g :: g in m ==> h <= g < k) ==> Owner(m, k) == Some(m[h])
  {
    if k in m {
      OwnerIs(m, k, k);
    }
    forall h | h in m && (forall g :: g in m ==> h <= g < k) ensures Owner(m, k) == Some(m[h]) {
      OwnerIs(m, k, h);
    }
  }

  // ---------- few keys move ----------

  /** A joining server takes keys from others, and nothing else changes hands. */
  lemma AddingMovesOnlyToNew<S>(m: map<int, S>, hs: set<int>, s: S, k: int)
    ensures Owner(Added(m, hs, s), k) == Owner(m, k) || Owner(Added(m, hs, s), k) == Some(s)
  {
    var m' := Added(m, hs, s);
    if x :| x in m'.Keys {
      var h := SuccessorExists(m'.Keys, k);
      OwnerIs(m', k, h);
      if h in m {
        assert forall g :: g in m.Keys ==> g in m'.Keys;
        assert IsSuccessor(m.Keys, k, h);
        OwnerIs(m, k, h);
      }
    } else {
      assert forall h :: h in m ==> h in m'.Keys;
    }
  }

  /** When a server leaves, only keys it owned change hands. */
  lemma RemovingMovesOnlyOwned<S>(m: map<int, S>, hs: set<int>, s: S, k: int)
    ensures Owner(Removed(m, hs, s), k) == Owner(m, k) || Owner(m, k) == Some(s)
  {
    var m' := Removed(m, hs, s);
    if x :| x in m.Keys {
      var h := SuccessorExists(m.Keys, k);
      OwnerIs(m, k, h);
      if m[h] != s {
        assert forall g :: g in m'.Keys ==> g in m.Keys;
        assert IsSuccessor(m'.Keys, k, h);
        OwnerIs(m', k, h);
      }
    } else {
      assert forall h :: h in m' ==> h in m.Keys;
    }
  }

  /** Joining and leaving again leaves the ring as it was, whatever the collisions, if the server owned
      nothing before. */
  lemma AddThenRemove<S>(m: map<int, S>, hs: set<int>, s: S)
    requires s !in Owners(m)
    ensures Removed(Added(m, hs, s), hs, s) == m
  {
    var m' := Removed(Added(m, hs, s), hs, s);
    assert forall h :: h in m ==> m[h] in Owners(m);
    assert m'.Keys == m.Keys;
  }

  // ---------- many servers ----------

  /** The ring after the servers of a list joined one after the other. */
  function Built<S>(ss: seq<S>, hashes: S -> set<int>): map<int, S> {
    if ss == [] then map[]
    else Added(Built(ss[..|ss| - 1], hashes), hashes(ss[|ss| - 1]), ss[|ss| - 1])
  }

  /** No two different servers share a replica hash. */
  ghost predicate Disjoint<S(!new)>(ss: set<S>, hashes: S -> set<int>) {
    forall s, t :: s in ss && t in ss && s != t ==> hashes(s) !! hashes(t)
  }

  /** Whoever owns a place has joined. */
  lemma {:induction false} BuiltFrom<S(!new)>(ss: seq<S>, hashes: S -> set<int>)
    ensures forall h :: h in Built(ss, hashes) ==> Built(ss, hashes)[h] in ss
    decreases |ss|
  {
    if ss != [] {
      BuiltFrom(ss[..|ss| - 1], hashes);
    }
  }

  /** Without collisions a place belongs to the server one of whose replicas hashes there, and to no other. */
  lemma {:induction false} BuiltOwners<S(!new)>(ss: seq<S>, hashes: S -> set<int>)
    requires Disjoint(Elements(ss), hashes)
    ensures forall h :: h in Built(ss, hashes) ==> Built(ss, hashes)[h] in ss && h in hashes(Built(ss, hashes)[h])
    ensures forall s, h :: s in ss && h in hashes(s) ==> h in Built(ss, hashes) && Built(ss, hashes)[h] == s
    decreases |ss|
  {
    if ss != [] {
      var init, last := ss[..|ss| - 1], ss[|ss| - 1];
      assert ss == init + [last];
      assert forall s :: s in Elements(init) ==> s in Elements(ss);
      BuiltOwners(init, hashes);
      forall s, h | s in ss && h in hashes(s) ensures h in Built(ss, hashes) && Built(ss, hashes)[h] == s {
        if s !in init && h in Built(init, hashes) {
          assert false;
        }
      }
    }
  }

  /** Without collisions the order of joining does not matter. */
  lemma BuiltAnyOrder<S(!new)>(ss: seq<S>, tt: seq<S>, hashes: S -> set<int>)
    requires Elements(ss) == Elements(tt) && Disjoint(Elements(ss), hashes)
    ensures Built(ss, hashes) == Built(tt, hashes)
  {
    BuiltOwners(ss, hashes);
    BuiltOwners(tt, hashes);
    var m, n := Built(ss, hashes), Built(tt, hashes);
    forall h | h in m ensures h in n && n[h] == m[h] {
      assert m[h] in Elements(tt);
    }
    forall h | h in n ensures h in m && m[h] == n[h] {
      assert n[h] in Elements(ss);
    }
  }

  /** Whoever joined first keeps a place. */
  lemma {:induction false} FirstKeeps<S>(ss: seq<S>, hashes: S -> set<int>, h: int)
    requires ss != [] && h in hashes(ss[0])
    ensures h in Built(ss, hashes) && Built(ss, hashes)[h] == ss[0]
    decreases |ss|
  {
    if |ss| > 1 {
      FirstKeeps(ss[..|ss| - 1], hashes, h);
    }
  }

  /** Every order of joining gives the ring of `ss`. */
  ghost predicate OrderFree<S(!new)>(ss: seq<S>, hashes: S -> set<int>) {
    forall tt :: multiset(tt) == multiset(ss) ==> Built(tt, hashes) == Built(ss, hashes)
  }

  lemma MovedFirst<S>(ss: seq<S>, s: S) returns (tt: seq<S>)
    requires s in ss
    ensures multiset(tt) == multiset(ss) && tt != [] && tt[0] == s
  {
    var i :| 0 <= i < |ss| && ss[i] == s;
    tt := [s] + ss[..i] + ss[i + 1..];
    assert ss == ss[..i] + [s] + ss[i + 1..];
  }

  /** With a collision the order does matter: each of the two servers keeps the place when it joins first. */
  lemma CollisionKeepsFirst<S(!new)>(ss: seq<S>, s: S, t: S, h: int, hashes: S -> set<int>) returns (a: seq<S>, b: seq<S>)
    requires s in ss && t in ss && s != t && h in hashes(s) && h in hashes(t)
    ensures multiset(a) == multiset(ss) == multiset(b)
    ensures h in Built(a, hashes) && Built(a, hashes)[h] == s && h in Built(b, hashes) && Built(b, hashes)[h] == t
    ensures !OrderFree(ss, hashes)
  {
    a := MovedFirst(ss, s);
    b := MovedFirst(ss, t);
    FirstKeeps(a, hashes, h);
    FirstKeeps(b, hashes, h);
  }

  ghost predicate Clash<S>(ss: seq<S>, hashes: S -> set<int>, s: S, t: S, h: int) {
    s in ss && t in ss && s != t && h in hashes(s) && h in hashes(t)
  }

  /** The order of joining does not matter exactly when no two of the servers share a replica hash. */
  lemma OrderFreeIff<S(!new)>(ss: seq<S>, hashes: S -> set<int>)
    ensures OrderFree(ss, hashes) <==> Disjoint(Elements(ss), hashes)
  {
    if Disjoint(Elements(ss), hashes) {
      forall tt | multiset(tt) == multiset(ss) ensures Built(tt, hashes) == Built(ss, hashes) {
        assert forall x :: x in tt <==> x in multiset(tt);
        assert forall x :: x in ss <==> x in multiset(ss);
        BuiltAnyOrder(ss, tt, hashes);
      }
    }
    if exists s, t, h :: Clash(ss, hashes, s, t, h) {
      var s, t, h :| Clash(ss, hashes, s, t, h);
      var _, _ := CollisionKeepsFirst(ss, s, t, h, hashes);
    } else {
      forall s, t, h | s in Elements(ss) && t in Elements(ss) && s != t && h in hashes(s) ensures h !in hashes(t) {
        assert !Clash(ss, hashes, s, t, h);
      }
    }
  }
}
