/** The wrapper `con_hash` of consistent_hash.h, and rebuilding it from a list of addresses as
    `updateHash` of cache_server/cache_service.cpp does. */
module CacheDirectory {
  import opened RbTree
  import opened Options
  import opened RingSpec
  import opened ConHash
  import opened Sequences

  const REPLICAS := 32

  /** The replica hashes of a server, by its name in the ring. */
  function HashesOf(hash: string -> int): string -> set<int> {
    iden => Replicas(hash, iden, REPLICAS)
  }

  /** The ring by the servers' names. */
  function Names(m: map<int, Server>): map<int, string> {
    map h | h in m :: m[h].iden
  }

  lemma NamesAdded(m: map<int, Server>, hs: set<int>, s: Server)
    ensures Names(Added(m, hs, s)) == Added(Names(m), hs, s.iden)
  {
  }

  lemma NamesOwner(m: map<int, Server>, k: int)
    ensures Owner(m, k).None? ==> Owner(Names(m), k).None?
    ensures Owner(m, k).Some? ==> Owner(Names(m), k) == Some(Owner(m, k).value.iden)
  {
    assert Names(m).Keys == m.Keys;
    if Owner(m, k).Some? {
      var h :| IsSuccessor(m.Keys, k, h) && Owner(m, k).value == m[h];
      OwnerIs(Names(m), k, h);
    }
  }

  function Known(nm: map<string, Server>): set<Server> {
    set ip | ip in nm :: nm[ip]
  }

  lemma TidyAdded(m: map<int, Server>, hs: set<int>, s: Server, nm: map<string, Server>, ip: string)
    requires s !in Known(nm) && s !in Owners(m)
    requires forall a, b :: a in nm && b in nm && a != b ==> nm[a] != nm[b]
    ensures Owners(Added(m, hs, s)) <= Known(nm[ip := s]) <==>
      Owners(m) <= Known(nm) && (ip !in nm || nm[ip] !in Owners(m))
  {
    var m', nm' := Added(m, hs, s), nm[ip := s];
    assert nm'[ip] in Known(nm');
    OwnersAdded(m, hs, s);
    forall o | o in Owners(m) ensures o in Known(nm') <==> o in Known(nm) && !(ip in nm && o == nm[ip]) {
      KnownAdded(nm, ip, s, o);
    }
  }

  lemma OwnersAdded(m: map<int, Server>, hs: set<int>, s: Server)
    ensures Owners(m) <= Owners(Added(m, hs, s)) <= Owners(m) + {s}
    ensures s !in Owners(m) ==> (s in Owners(Added(m, hs, s)) <==> exists h :: h in hs && h !in m)
  {
    var m' := Added(m, hs, s);
    forall o | o in Owners(m) ensures o in Owners(m') {
      var h :| h in m && m[h] == o;
      assert m'[h] == o;
    }
    if h :| h in hs && h !in m {
      assert m'[h] == s;
    }
  }

  lemma KnownAdded(nm: map<string, Server>, ip: string, s: Server, o: Server)
    requires o != s && forall a, b :: a in nm && b in nm && a != b ==> nm[a] != nm[b]
    ensures o in Known(nm[ip := s]) <==> o in Known(nm) && !(ip in nm && o == nm[ip])
  {
    if o in Known(nm) && !(ip in nm && o == nm[ip]) {
      var a :| a in nm && nm[a] == o;
      assert nm[ip := s][a] == o;
    }
  }

  lemma TidyRemoved(m: map<int, Server>, hs: set<int>, s: Server, nm: map<string, Server>, ip: string)
    requires ip in nm && s == nm[ip] && s !in Owners(Removed(m, hs, s))
    ensures Owners(Removed(m, hs, s)) <= Known(nm - {ip}) <==> Owners(m) <= Known(nm)
  {
    var m', nm' := Removed(m, hs, s), nm - {ip};
    forall o | o in Owners(m) && o != s ensures o in Owners(m') && (o in Known(nm') <==> o in Known(nm)) {
      var h :| h in m && m[h] == o;
      assert m'[h] == o;
      if o in Known(nm) {
        var a :| a in nm && nm[a] == o;
        assert nm'[a] == o;
      }
    }
    assert s in Known(nm);
    assert forall o :: o in Owners(m') ==> o in Owners(m) && o != s;
  }

  // ---------- lists of addresses ----------

  function Shortened(ips: seq<string>): seq<string> {
    seq(|ips|, i requires 0 <= i < |ips| => Truncated(ips[i]))
  }

  /** The ring, by name, after the servers of a list were added in order. */
  function RingOf(hash: string -> int, ips: seq<string>): map<int, string> {
    Built(Shortened(ips), HashesOf(hash))
  }

  lemma RingOfStep(hash: string -> int, ips: seq<string>, ip: string)
    ensures RingOf(hash, ips + [ip]) == Added(RingOf(hash, ips), HashesOf(hash)(Truncated(ip)), Truncated(ip))
  {
    var tt := Shortened(ips + [ip]);
    assert tt[..|ips|] == Shortened(ips);
  }

  /** With a hash that never collides the servers share no place. */
  lemma InjectiveDisjoint(hash: string -> int, ss: set<string>)
    requires ConHash.Injective(hash)
    ensures Disjoint(ss, HashesOf(hash))
  {
    forall a, b | a in ss && b in ss && a != b ensures HashesOf(hash)(a) !! HashesOf(hash)(b) {
      InjectiveApart(hash, a, REPLICAS, b, REPLICAS);
    }
  }

  lemma PlacesFree(hash: string -> int, ss: seq<string>, s: string)
    requires ConHash.Injective(hash) && s !in ss
    ensures Roomy(hash, s, REPLICAS, Built(ss, HashesOf(hash)).Keys)
  {
    InjectiveDisjoint(hash, Elements(ss));
    BuiltOwners(ss, HashesOf(hash));
    hide ReplicaName, Built;
    forall i, j | 0 <= i < j < REPLICAS ensures hash(ReplicaName(s, i)) != hash(ReplicaName(s, j)) {
      if ReplicaName(s, i) == ReplicaName(s, j) {
        ReplicaNamesDiffer(s, i, s, j);
      }
    }
    forall i | 0 <= i < REPLICAS ensures hash(ReplicaName(s, i)) !in Built(ss, HashesOf(hash)) {
      var h := hash(ReplicaName(s, i));
      assert h in Replicas(hash, s, REPLICAS);
      if h in Built(ss, HashesOf(hash)) {
        InjectiveApart(hash, s, REPLICAS, Built(ss, HashesOf(hash))[h], REPLICAS);
      }
    }
  }

  /** And then every server of the list has its 32 places. */
  lemma {:induction false} RingSize(hash: string -> int, ips: seq<string>)
    requires ConHash.Injective(hash) && Distinct(Shortened(ips))
    ensures |RingOf(hash, ips)| == 32 * |ips|
    decreases |ips|
  {
    if ips != [] {
      var n, before := |ips| - 1, ips[..|ips| - 1];
      assert ips == before + [ips[n]];
      ShortenedStep(before, ips[n]);
      RingSize(hash, before);
      PlacesFree(hash, Shortened(before), Truncated(ips[n]));
      RingOfStep(hash, before, ips[n]);
      hide Injective, Built, Shortened, Distinct;
      TakesAll(hash, RingOf(hash, before), Truncated(ips[n]));
    }
  }

  lemma ShortenedStep(before: seq<string>, ip: string)
    requires Distinct(Shortened(before + [ip]))
    ensures Distinct(Shortened(before)) && Truncated(ip) !in Shortened(before)
  {
    var ss, tt := Shortened(before), Shortened(before + [ip]);
    assert forall i :: 0 <= i < |before| ==> ss[i] == tt[i];
    assert tt[|before|] == Truncated(ip);
  }

  lemma TakesAll(hash: string -> int, m: map<int, string>, s: string)
    requires Roomy(hash, s, REPLICAS, m.Keys)
    ensures |Added(m, HashesOf(hash)(s), s)| == |m| + 32
  {
    hide Roomy, Replicas;
    PlacesTaken(hash, s, REPLICAS, m.Keys);
    var m' := Added(m, HashesOf(hash)(s), s);
    assert m'.Keys == m.Keys + Replicas(hash, s, REPLICAS);
    assert |m'| == |m'.Keys| && |m| == |m.Keys|;
  }

  /** When `ips[j]` is added, all its places are taken, so its record owns none. */
  ghost predicate Crowded(hash: string -> int, ips: seq<string>, j: nat)
    requires j < |ips|
  {
    forall h :: h in HashesOf(hash)(Truncated(ips[j])) ==> h in RingOf(hash, ips[..j])
  }

  /** Whenever an address comes again, the record that is replaced owned no place. */
  ghost predicate Lasting(hash: string -> int, ips: seq<string>) {
    forall i, j :: 0 <= i < j < |ips| && ips[i] == ips[j] ==> Crowded(hash, ips, i)
  }

  ghost predicate IsLast(ips: seq<string>, j: nat)
    requires j < |ips|
  {
    forall k :: j < k < |ips| ==> ips[k] != ips[j]
  }

  lemma {:induction false} LastOne(ips: seq<string>, i: nat) returns (j: nat)
    requires i < |ips|
    ensures i <= j < |ips| && ips[j] == ips[i] && IsLast(ips, j)
    decreases |ips| - i
  {
    if k :| i < k < |ips| && ips[k] == ips[i] {
      j := LastOne(ips, k);
    } else {
      j := i;
    }
  }

  /** A directory with places `m` and records `nm` to which the addresses were added in order. */
  ghost predicate Follows(hash: string -> int, ips: seq<string>, m: map<int, Server>, nm: map<string, Server>) {
    && Names(m) == RingOf(hash, ips)
    && nm.Keys == Elements(ips)
    && (forall j :: 0 <= j < |ips| && IsLast(ips, j) ==>
      ips[j] in nm && (nm[ips[j]] in Owners(m) <==> !Crowded(hash, ips, j)))
    && (Owners(m) <= Known(nm) <==> Lasting(hash, ips))
  }

  lemma FollowsNothing(hash: string -> int)
    ensures Follows(hash, [], map[], map[])
  {
  }

  lemma CrowdedBefore(hash: string -> int, ips: seq<string>, ip: string, j: nat)
    requires j < |ips|
    ensures Crowded(hash, ips + [ip], j) <==> Crowded(hash, ips, j)
  {
    assert (ips + [ip])[..j] == ips[..j];
  }

  lemma LastingStep(hash: string -> int, ips: seq<string>, ip: string)
    ensures ip !in ips ==> (Lasting(hash, ips + [ip]) <==> Lasting(hash, ips))
    ensures forall j :: 0 <= j < |ips| && ips[j] == ip && IsLast(ips, j) ==>
      (Lasting(hash, ips + [ip]) <==> Lasting(hash, ips) && Crowded(hash, ips, j))
  {
    hide Crowded;
    var more := ips + [ip];
    forall j | 0 <= j < |ips| ensures Crowded(hash, more, j) <==> Crowded(hash, ips, j) {
      CrowdedBefore(hash, ips, ip, j);
    }
    assert forall i :: 0 <= i < |ips| ==> more[i] == ips[i];
    assert more[|ips|] == ip;
    forall j | 0 <= j < |ips| && ips[j] == ip && IsLast(ips, j)
      ensures Lasting(hash, more) <==> Lasting(hash, ips) && Crowded(hash, ips, j)
    {
      if Lasting(hash, more) {
        assert Crowded(hash, more, j);
      }
    }
  }

  lemma RecordsStep(hash: string -> int, ips: seq<string>, m: map<int, Server>, nm: map<string, Server>, ip: string, s: Server, j: nat)
    requires Follows(hash, ips, m, nm) && s !in Owners(m) && s !in Known(nm)
    requires j <= |ips| && IsLast(ips + [ip], j)
    ensures var nm', more := nm[ip := s], ips + [ip];
      more[j] in nm' && (nm'[more[j]] in Owners(Added(m, HashesOf(hash)(Truncated(ip)), s)) <==> !Crowded(hash, more, j))
  {
    var hs, more := HashesOf(hash)(Truncated(ip)), ips + [ip];
    OwnersAdded(m, hs, s);
    assert Names(m).Keys == m.Keys;
    if j < |ips| {
      hide Crowded, Names, RingOf, Lasting, Added, HashesOf;
      assert more[j] == ips[j] && more[|ips|] == ip;
      assert IsLast(ips, j) by {
        assert forall k :: j < k < |ips| ==> more[k] == ips[k];
      }
      CrowdedBefore(hash, ips, ip, j);
      assert nm[ips[j]] in Known(nm);
    } else {
      hide Names, RingOf, Lasting, Added, HashesOf;
      assert more[..|ips|] == ips;
    }
  }

  lemma TidyStep(hash: string -> int, ips: seq<string>, m: map<int, Server>, nm: map<string, Server>, ip: string, s: Server)
    requires Follows(hash, ips, m, nm) && s !in Owners(m) && s !in Known(nm)
    requires forall a, b :: a in nm && b in nm && a != b ==> nm[a] != nm[b]
    ensures Owners(Added(m, HashesOf(hash)(Truncated(ip)), s)) <= Known(nm[ip := s]) <==> Lasting(hash, ips + [ip])
  {
    hide Names, RingOf, Crowded, Lasting, Added, HashesOf;
    TidyAdded(m, HashesOf(hash)(Truncated(ip)), s, nm, ip);
    LastingStep(hash, ips, ip);
    if ip in nm {
      assert ip in ips;
      var i :| 0 <= i < |ips| && ips[i] == ip;
      var j := LastOne(ips, i);
    }
  }

  lemma FollowsStep(hash: string -> int, ips: seq<string>, m: map<int, Server>, nm: map<string, Server>, ip: string, s: Server)
    requires Follows(hash, ips, m, nm) && s.iden == Truncated(ip) && s !in Owners(m) && s !in Known(nm)
    requires forall a, b :: a in nm && b in nm && a != b ==> nm[a] != nm[b]
    ensures Follows(hash, ips + [ip], Added(m, HashesOf(hash)(Truncated(ip)), s), nm[ip := s])
  {
    hide Names, RingOf, Crowded, Lasting, Added, HashesOf, Owners, IsLast;
    var more := ips + [ip];
    forall j | 0 <= j < |more| && IsLast(more, j)
      ensures more[j] in nm[ip := s]
      ensures nm[ip := s][more[j]] in Owners(Added(m, HashesOf(hash)(Truncated(ip)), s)) <==> !Crowded(hash, more, j)
    {
      RecordsStep(hash, ips, m, nm, ip, s, j);
    }
    TidyStep(hash, ips, m, nm, ip, s);
    NamesAdded(m, HashesOf(hash)(Truncated(ip)), s);
    RingOfStep(hash, ips, ip);
    assert nm[ip := s].Keys == Elements(more);
  }

  /** Without repetition every record lasts. */
  lemma DistinctLasts(hash: string -> int, ips: seq<string>)
    requires Distinct(ips)
    ensures Lasting(hash, ips)
  {
  }

  /** Without collisions, and with names that are not cut, that is the only way. */
  lemma LastingIff(hash: string -> int, ips: seq<string>)
    requires Disjoint(Elements(Shortened(ips)), HashesOf(hash)) && forall i :: 0 <= i < |ips| ==> |ips[i]| <= 63
    ensures Lasting(hash, ips) <==> Distinct(ips)
  {
    if i, j :| 0 <= i < j < |ips| && ips[i] == ips[j] {
      var f := FirstOne(ips, i);
      NotCrowded(hash, ips, f);
      assert f < j && ips[f] == ips[j];
    }
  }

  lemma {:induction false} FirstOne(ips: seq<string>, i: nat) returns (f: nat)
    requires i < |ips|
    ensures f <= i && ips[f] == ips[i] && forall k :: 0 <= k < f ==> ips[k] != ips[i]
  {
    if k :| 0 <= k < i && ips[k] == ips[i] {
      f := FirstOne(ips, k);
    } else {
      f := i;
    }
  }

  lemma NotCrowded(hash: string -> int, ips: seq<string>, f: nat)
    requires Disjoint(Elements(Shortened(ips)), HashesOf(hash)) && forall i :: 0 <= i < |ips| ==> |ips[i]| <= 63
    requires f < |ips| && forall k :: 0 <= k < f ==> ips[k] != ips[f]
    ensures !Crowded(hash, ips, f)
  {
    var before, h := Shortened(ips[..f]), hash(ReplicaName(ips[f], 0));
    assert h in HashesOf(hash)(ips[f]);
    assert Shortened(ips)[f] == ips[f];
    assert forall k :: 0 <= k < f ==> before[k] == Shortened(ips)[k] == ips[k];
    assert forall t :: t in before ==> t in Elements(Shortened(ips)) && t != ips[f];
    BuiltOwners(before, HashesOf(hash));
    assert forall t :: t in before ==> h !in HashesOf(hash)(t);
  }

  /** `con_hash`. */
  class Directory {
    const conhash: Ring
    var nodesMap: map<string, Server>

    ghost predicate Listed()
      reads this, Known(nodesMap)
    {
      && (forall ip :: ip in nodesMap ==>
        var s := nodesMap[ip]; s.iden == Truncated(ip) && s.replicas == REPLICAS && s.init && s.inRing)
      && (forall ip, ip' :: ip in nodesMap && ip' in nodesMap && ip != ip' ==> nodesMap[ip] != nodesMap[ip'])
    }

    ghost predicate Valid()
      reads this, conhash, conhash.tree, conhash.tree.nodes, Owners(conhash.ring), Known(nodesMap)
    {
      conhash.Valid() && Listed()
    }

    /** The record of every place's owner is kept.  `nodes_map` holds the only reference to a record that
        counts, so a record replaced there is destroyed, and its places name freed memory. */
    ghost predicate Tidy()
      reads this, conhash
    {
      Owners(conhash.ring) <= Known(nodesMap)
    }

    /** The record that a lookup of the key hash `k` ends at is kept. */
    ghost predicate Kept(k: int)
      reads this, conhash
    {
      Owner(conhash.ring, k).Some? ==> Owner(conhash.ring, k).value in Known(nodesMap)
    }

    /** A directory is tidy exactly when no lookup ends at a record that is gone. */
    lemma TidyKept()
      ensures Tidy() <==> forall k :: Kept(k)
    {
      var m := conhash.ring;
      if Tidy() {
        forall k ensures Kept(k) {
          if Owner(m, k).Some? {
            var h :| IsSuccessor(m.Keys, k, h) && Owner(m, k).value == m[h];
          }
        }
      }
      if forall k :: Kept(k) {
        forall o | o in Owners(m) ensures o in Known(nodesMap) {
          var h :| h in m && m[h] == o;
          OwnerIs(m, h, h);
          assert Kept(h);
        }
      }
    }

    /** No two addresses share a record. */
    lemma Injective()
      requires Valid()
      ensures forall a, b :: a in nodesMap && b in nodesMap && a != b ==> nodesMap[a] != nodesMap[b]
    {
    }

    constructor (hash: string -> int)
      ensures Valid() && Tidy() && conhash.ring == map[] && nodesMap == map[] && conhash.hash == hash
      ensures fresh(conhash) && fresh(conhash.tree) && fresh(conhash.tree.nodes) && !conhash.tree.dangling
    {
      conhash := new Ring(hash);
      nodesMap := map[];
    }

    /** `conhash_add_CacheServer`.  The directory stays tidy exactly when the address was unknown, or the
        record it replaces owned no place: otherwise that record is destroyed and its places stay.  It is
        `defined`, and reads no freed tree node, exactly when the root's parent field names none or the ring
        ends with at most three places. */
    method Add(ip: string) returns (defined: bool)
      requires Valid()
      modifies this, conhash`ivnodes, conhash`ring, conhash.tree, conhash.tree.nodes
      ensures defined <==>
        !old(conhash.tree.dangling) || |old(conhash.ring).Keys + Replicas(conhash.hash, Truncated(ip), REPLICAS)| <= 3
      ensures defined ==>
        && Valid() && fresh(conhash.tree.nodes - old(conhash.tree.nodes))
        && conhash.tree.dangling == old(conhash.tree.dangling)
        && ip in nodesMap && fresh(nodesMap[ip]) && nodesMap == old(nodesMap)[ip := nodesMap[ip]]
        && conhash.ring == Added(old(conhash.ring), Replicas(conhash.hash, Truncated(ip), REPLICAS), nodesMap[ip])
        && Names(conhash.ring) == Added(old(Names(conhash.ring)), HashesOf(conhash.hash)(Truncated(ip)), Truncated(ip))
        && (Tidy() <==> old(Tidy()) && (ip !in old(nodesMap) || old(nodesMap)[ip] !in old(Owners(conhash.ring))))
    {
      hide Replicas, Added, Ring.Valid;
      ghost var m, hs := conhash.ring, Replicas(conhash.hash, Truncated(ip), REPLICAS);
      var node;
      defined, node := NewServer(ip);
      if !defined { return; }
      assert Listed();
      nodesMap := nodesMap[ip := node];
      assert Listed();
      TidyAdded(m, hs, node, old(nodesMap), ip);
    }

    method NewServer(ip: string) returns (defined: bool, node: Server)
      requires conhash.Valid()
      modifies conhash`ivnodes, conhash`ring, conhash.tree, conhash.tree.nodes
      ensures defined <==>
        !old(conhash.tree.dangling) || |old(conhash.ring).Keys + Replicas(conhash.hash, Truncated(ip), REPLICAS)| <= 3
      ensures defined ==>
        && conhash.Valid() && fresh(conhash.tree.nodes - old(conhash.tree.nodes))
        && conhash.tree.dangling == old(conhash.tree.dangling)
        && fresh(node) && node.iden == Truncated(ip) && node.replicas == REPLICAS && node.init && node.inRing
        && conhash.ring == Added(old(conhash.ring), Replicas(conhash.hash, Truncated(ip), REPLICAS), node)
        && Names(conhash.ring) == Added(old(Names(conhash.ring)), HashesOf(conhash.hash)(Truncated(ip)), Truncated(ip))
    {
      hide Replicas, Ring.Core;
      node := new Server(ip, REPLICAS);
      ghost var m, hs := conhash.ring, Replicas(conhash.hash, Truncated(ip), REPLICAS);
      defined := conhash.AddInit(node);
      if !defined { return; }
      NamesAdded(m, hs, node);
    }

    /** `conhash_del_CacheServer`. */
    method Del(ip: string)
      requires Valid()
      modifies this, conhash`ivnodes, conhash`ring, conhash.tree, conhash.tree.nodes, if ip in nodesMap then {nodesMap[ip]} else {}
      ensures Valid() && conhash.tree.nodes <= old(conhash.tree.nodes)
      ensures conhash.tree.dangling ==> old(conhash.tree.dangling) || |conhash.ring| == 1
      ensures nodesMap == old(nodesMap) - {ip}
      ensures ip in old(nodesMap) ==>
        && conhash.ring == Removed(old(conhash.ring), Replicas(conhash.hash, Truncated(ip), REPLICAS), old(nodesMap[ip]))
        && old(nodesMap[ip]) !in Owners(conhash.ring)
      ensures ip !in old(nodesMap) ==> conhash.ring == old(conhash.ring)
      ensures Tidy() <==> old(Tidy())
    {
      hide Replicas, Removed, Ring.Core;
      if ip in nodesMap {
        var node := nodesMap[ip];
        ghost var m, hs := conhash.ring, Replicas(conhash.hash, Truncated(ip), REPLICAS);
        conhash.DelIn(node);
        nodesMap := nodesMap - {ip};
        assert Listed();
        TidyRemoved(m, hs, node, old(nodesMap), ip);
      }
    }

    /** `conhash_get_CacheServer`.  Where the record is gone the source reads freed memory, and nothing is
        promised. */
    method Get(key: string) returns (r: string)
      requires Valid()
      ensures Wrap(|conhash.ring|) == 0 ==> r == "NULL"
      ensures Wrap(|conhash.ring|) != 0 && Kept(conhash.hash(key)) ==>
        Owner(Names(conhash.ring), conhash.hash(key)) == Some(r)
    {
      var node := conhash.Lookup(Some(key));
      if node != null {
        NamesOwner(conhash.ring, conhash.hash(key));
        r := node.iden;
      } else {
        r := "NULL";
      }
    }
  }

  /** A case where adding an address again goes wrong: the record added first owns every place, and it is
      gone, also after the address is deleted. */
  method AddTwice(hash: string -> int) returns (d: Directory)
    ensures d.Valid() && d.nodesMap == map[] && !d.Tidy()
    ensures hash(ReplicaName("a", 0)) in d.conhash.ring
  {
    hide Ring.Core, Ring.Marked, Directory.Listed, ReplicaName, HashesOf, Names;
    d := new Directory(hash);
    var defined := d.Add("a");
    ghost var ring, hs := d.conhash.ring, Replicas(hash, Truncated("a"), REPLICAS);
    defined := d.Add("a");
    assert d.conhash.ring == ring;
    d.Del("a");
    assert d.conhash.ring == ring;
    var h := hash(ReplicaName("a", 0));
    assert h in hs;
    assert d.conhash.ring[h] in Owners(d.conhash.ring);
  }

  // ---------- rebuilding from a list ----------

  /** `updateHash`: a new directory holding the listed servers.  It is tidy exactly when every address that
      is listed again had no place. */
  method Rebuild(hash: string -> int, ips: seq<string>) returns (d: Directory)
    ensures d.Valid() && d.conhash.hash == hash && fresh(d)
    ensures Follows(hash, ips, d.conhash.ring, d.nodesMap)
    ensures d.Tidy() <==> Lasting(hash, ips)
  {
    hide Ring.Core, Ring.Marked, Follows, Added, Names, Lasting;
    d := new Directory(hash);
    assert ips[..0] == [];
    FollowsNothing(hash);
    for i := 0 to |ips|
      invariant d.Valid() && d.conhash.hash == hash && fresh(d)
      invariant fresh(d.conhash) && fresh(d.conhash.tree) && fresh(d.conhash.tree.nodes) && !d.conhash.tree.dangling
      invariant Follows(hash, ips[..i], d.conhash.ring, d.nodesMap)
    {
      ghost var m, nm := d.conhash.ring, d.nodesMap;
      d.Injective();
      var defined := d.Add(ips[i]);
      FollowsStep(hash, ips[..i], m, nm, ips[i], d.nodesMap[ips[i]]);
      assert ips[..i + 1] == ips[..i] + [ips[i]];
    }
    assert ips[..|ips|] == ips;
    FollowsTidy(hash, ips, d.conhash.ring, d.nodesMap);
  }

  lemma FollowsTidy(hash: string -> int, ips: seq<string>, m: map<int, Server>, nm: map<string, Server>)
    requires Follows(hash, ips, m, nm)
    ensures Owners(m) <= Known(nm) <==> Lasting(hash, ips)
    ensures Names(m) == RingOf(hash, ips)
  {
  }
}
