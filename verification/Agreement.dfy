/** When a cache server's ring, rebuilt from an update_hash instruction, is the master's ring. */
module Agreement {
  import opened Options
  import opened RingSpec
  import opened CacheDirectory
  import opened ConHash
  import opened Master
  import opened Membership
  import opened Sequences
  import opened Wire
  import RbTree

  lemma ShortenedElements(a: seq<string>, b: seq<string>)
    requires Elements(a) == Elements(b)
    ensures Elements(Shortened(a)) == Elements(Shortened(b))
  {
    ShortenedWithin(a, b);
    ShortenedWithin(b, a);
  }

  lemma ShortenedWithin(a: seq<string>, b: seq<string>)
    requires Elements(a) == Elements(b)
    ensures Elements(Shortened(a)) <= Elements(Shortened(b))
  {
    forall t | t in Shortened(a) ensures t in Shortened(b) {
      var i :| 0 <= i < |a| && Shortened(a)[i] == t;
      assert a[i] in Elements(b);
      var j :| 0 <= j < |b| && b[j] == a[i];
      assert Shortened(b)[j] == t;
    }
  }

  /** Without collisions two lists of addresses give the same ring exactly when they name the same servers. */
  lemma SameRing(hash: string -> int, a: seq<string>, b: seq<string>)
    requires Disjoint(Elements(Shortened(a)) + Elements(Shortened(b)), HashesOf(hash))
    ensures RingOf(hash, a) == RingOf(hash, b) <==> Elements(Shortened(a)) == Elements(Shortened(b))
  {
    var sa, sb := Shortened(a), Shortened(b);
    if Elements(sa) == Elements(sb) {
      BuiltAnyOrder(sa, sb, HashesOf(hash));
    }
    if RingOf(hash, a) == RingOf(hash, b) {
      NamedInRing(hash, sa, sb);
      NamedInRing(hash, sb, sa);
    }
  }

  lemma NamedInRing(hash: string -> int, sa: seq<string>, sb: seq<string>)
    requires Disjoint(Elements(sa), HashesOf(hash)) && Disjoint(Elements(sb), HashesOf(hash))
    requires Built(sa, HashesOf(hash)) == Built(sb, HashesOf(hash))
    ensures Elements(sa) <= Elements(sb)
  {
    forall s | s in Elements(sa) ensures s in Elements(sb) {
      PlaceOf(hash, sa, s);
      BuiltFrom(sb, HashesOf(hash));
      hide Built, HashesOf, Disjoint;
      assert Built(sb, HashesOf(hash))[hash(ReplicaName(s, 0))] in sb;
    }
  }

  /** The first replica of a server is its place. */
  lemma PlaceOf(hash: string -> int, ss: seq<string>, s: string)
    requires Disjoint(Elements(ss), HashesOf(hash)) && s in ss
    ensures var h := hash(ReplicaName(s, 0)); h in Built(ss, HashesOf(hash)) && Built(ss, HashesOf(hash))[h] == s
  {
    assert hash(ReplicaName(s, 0)) in HashesOf(hash)(s);
    BuiltOwners(ss, HashesOf(hash));
  }

  /** Nobody disconnects. */
  ghost predicate Calm(events: seq<Event>) {
    forall i :: 0 <= i < |events| ==> !events[i].Disconnect?
  }

  /** Two directories to which the addresses `a` and `b` were added keep the records of all their places, and
      give every place the same owner: asked for a key they answer the same, without reading freed memory. */
  ghost predicate Alike(hash: string -> int, a: seq<string>, b: seq<string>) {
    Lasting(hash, a) && Lasting(hash, b) && RingOf(hash, a) == RingOf(hash, b)
  }

  /** Addresses that the ring does not cut. */
  ghost predicate Uncut(ips: seq<string>) {
    forall i :: 0 <= i < |ips| ==> |ips[i]| <= 63
  }

  lemma UncutSame(ips: seq<string>)
    requires Uncut(ips)
    ensures Shortened(ips) == ips
  {
  }

  /** In a run without disconnects, with addresses free of newlines and zeros, a table that fits the buffer
      and no shared replica hashes: if the listen addresses are distinct, what any member decodes from its
      last update_hash builds a ring that answers as the master's does for every key.  With addresses that
      the ring does not cut, only then. */
  lemma MastersRing(hash: string -> int, states: seq<State>, events: seq<Event>, k: nat, fd: int, key: string)
    requires Run(states, events) && k < |states| && fd in states[k].listen
    requires Calm(events)
    requires AllPlain(Table(states[k].listen)) && |Encoded(Table(states[k].listen))| <= BUFFER
    requires Disjoint(Elements(Shortened(states[k].joined)), HashesOf(hash))
    ensures var joined, last := states[k].joined, LastHash(states[k].sent, fd);
      && last.Some? && '\n' in Encoded(last.value)
      && var read := Decoded(Encoded(last.value));
        && read.Some?
        && (Distinct(joined) ==>
          && Alike(hash, read.value, joined)
          && Owner(RingOf(hash, read.value), hash(key)) == Owner(RingOf(hash, joined), hash(key)))
        && (Uncut(joined) && Alike(hash, read.value, joined) ==> Distinct(joined))
  {
    var s := states[k];
    RunsKeep(states, events, k);
    RoundTrip(Table(s.listen));
    TablesRing(hash, states, events, k);
    if Distinct(s.joined) {
      DistinctLasts(hash, s.joined);
      DistinctLasts(hash, Table(s.listen));
    }
    if Uncut(s.joined) {
      LastingIff(hash, s.joined);
    }
  }

  /** Without disconnects the table names the servers of the master's ring, each as often. */
  lemma TablesRing(hash: string -> int, states: seq<State>, events: seq<Event>, k: nat)
    requires Run(states, events) && k < |states| && Calm(events)
    requires Disjoint(Elements(Shortened(states[k].joined)), HashesOf(hash))
    ensures var table, joined := Table(states[k].listen), states[k].joined;
      RingOf(hash, table) == RingOf(hash, joined) && (Distinct(table) <==> Distinct(joined))
  {
    var table, joined := Table(states[k].listen), states[k].joined;
    JoinedStay(states, events, k);
    TableElements(states[k].listen);
    TableSize(states[k].listen);
    ElementsSize(table);
    ElementsSize(joined);
    ShortenedElements(table, joined);
    SameRing(hash, table, joined);
  }

  lemma TableSize(listen: map<int, string>)
    ensures |Table(listen)| == |listen|
  {
    AscendingElements(listen.Keys);
    assert |listen.Keys| == |listen|;
  }

  // ---------- the same on the objects ----------

  /** The listen addresses that the events bring. */
  ghost function Announced(events: seq<Event>): set<string> {
    set e | e in events && e.Register? :: e.listenAddr
  }

  lemma AnnouncedMore(before: seq<Event>, e: Event)
    ensures Announced(before + [e]) == Announced(before) + if e.Register? then {e.listenAddr} else {}
  {
    var es := before + [e];
    assert es[|before|] == e;
    assert forall x :: x in before ==> x in es;
  }

  /** What joins was announced, and nobody leaves who was not asked to. */
  lemma {:induction false} PlayedJoins(events: seq<Event>, states: seq<State>, taken: seq<Event>)
    requires Played(events, states, taken) && Calm(events)
    ensures Calm(taken) && states != [] && Elements(states[|states| - 1].joined) <= Announced(events)
    decreases |events|
  {
    hide Announced, Elements, Next, Enabled, Inv;
    if events == [] {
      assert Elements(INIT.joined) <= Announced(events) by {
        NoElements();
      }
    } else {
      var n, e := |events| - 1, events[|events| - 1];
      assert events == events[..n] + [e];
      AnnouncedMore(events[..n], e);
      if PlayedOn(events[..n], states, taken, e) {
        var ss, ts := states[..|states| - 1], taken[..|taken| - 1];
        PlayedJoins(events[..n], ss, ts);
        PlayedRun(events[..n], ss, ts);
        RunsKeep(ss, ts, |ss| - 1);
        JoinedBy(ss[|ss| - 1], e, states[|states| - 1]);
      } else {
        PlayedJoins(events[..n], states, taken);
      }
    }
  }

  lemma NoElements()
    ensures Elements<string>([]) == {}
  {
  }

  lemma JoinedBy(s: State, e: Event, s': State)
    requires Inv(s) && Next(s, e, s') && !e.Disconnect?
    ensures Elements(s'.joined) == Elements(s.joined) + if e.Register? then {e.listenAddr} else {}
  {
    if e.Register? {
      RegisterGrows(s, e.fd, e.listenAddr, s');
    }
  }

  /** Everybody's listen address, for an end-to-end run without disconnects. */
  lemma PlayedTable(hash: string -> int, events: seq<Event>, states: seq<State>, taken: seq<Event>)
    requires Played(events, states, taken) && Calm(events)
    requires forall a :: a in Announced(events) ==> Plain(a)
    requires Disjoint(set a | a in Announced(events) :: Truncated(a), HashesOf(hash))
    ensures states != [] && Run(states, taken) && Calm(taken)
    ensures var s := states[|states| - 1];
      && AllPlain(Table(s.listen)) && Disjoint(Elements(Shortened(s.joined)), HashesOf(hash))
  {
    PlayedRun(events, states, taken);
    PlayedJoins(events, states, taken);
    var s := states[|states| - 1];
    JoinedStay(states, taken, |states| - 1);
    TableElements(s.listen);
    forall i | 0 <= i < |Table(s.listen)| ensures Plain(Table(s.listen)[i]) {
      assert Table(s.listen)[i] in Elements(Table(s.listen));
    }
    forall t | t in Elements(Shortened(s.joined)) ensures t in (set a | a in Announced(events) :: Truncated(a)) {
      var i :| 0 <= i < |s.joined| && Shortened(s.joined)[i] == t;
      assert s.joined[i] in Elements(s.joined);
    }
  }

  lemma LastHashIs(s: State, fd: int)
    requires Inv(s) && fd in s.listen
    ensures LastHash(s.sent, fd) == Some(Table(s.listen))
  {
  }

  lemma SameSize(m: map<int, Server>)
    ensures |Names(m)| == |m|
  {
    assert Names(m).Keys == m.Keys;
    assert |m| == |m.Keys| && |Names(m)| == |Names(m).Keys|;
  }

  /** What a directory to which the addresses were added answers for a key: the name of the owner, by the hash. */
  ghost function AnswerOf(hash: string -> int, ips: seq<string>, key: string): string {
    var m := RingOf(hash, ips);
    var owner := Owner(m, hash(key));
    if RbTree.Wrap(|m|) == 0 || owner.None? then "NULL" else owner.value
  }

  lemma AnswerIs(d: Directory, ips: seq<string>, key: string, r: string)
    requires d.Valid() && Names(d.conhash.ring) == RingOf(d.conhash.hash, ips)
    requires RbTree.Wrap(|d.conhash.ring|) == 0 ==> r == "NULL"
    requires RbTree.Wrap(|d.conhash.ring|) != 0 ==> Owner(Names(d.conhash.ring), d.conhash.hash(key)) == Some(r)
    ensures r == AnswerOf(d.conhash.hash, ips, key)
  {
    SameSize(d.conhash.ring);
  }

  /** A list of addresses sent, if it fits the buffer, read and built into a ring, and a key looked up at the
      master and there. */
  method AskFor(m: MasterServer, addrs: seq<string>, key: string) returns (answers: Option<(string, string)>)
    requires m.Valid() && AllPlain(addrs)
    ensures answers.Some? <==> |Encoded(addrs)| <= BUFFER
    ensures answers.Some? && Lasting(m.masterHash.conhash.hash, m.joined) ==>
      answers.value.0 == AnswerOf(m.masterHash.conhash.hash, m.joined, key)
    ensures answers.Some? && Lasting(m.masterHash.conhash.hash, addrs) ==>
      answers.value.1 == AnswerOf(m.masterHash.conhash.hash, addrs, key)
    ensures answers.Some? && Alike(m.masterHash.conhash.hash, addrs, m.joined) ==> answers.value.0 == answers.value.1
  {
    hide MasterServer.Apart, Inv, RingOf, Names, Encoded, Decoded, Ring.Core, Ring.Marked, Lasting, Follows;
    RoundTrip(addrs);
    var bytes := Encode(addrs);
    if bytes.None? { return None; }
    var read := Decode(bytes.value);
    m.RingTidy();
    m.masterHash.TidyKept();
    var here := m.masterHash.Get(key);
    var d := Rebuild(m.masterHash.conhash.hash, read.value);
    d.TidyKept();
    var there := d.Get(key);
    answers := Some((here, there));
    FollowsTidy(m.masterHash.conhash.hash, addrs, d.conhash.ring, d.nodesMap);
    if Lasting(m.masterHash.conhash.hash, m.joined) {
      AnswerIs(m.masterHash, m.joined, key, here);
    }
    if Lasting(m.masterHash.conhash.hash, addrs) {
      AnswerIs(d, addrs, key, there);
    }
  }

  /** The master after any events without a disconnect, and a member that decodes its last update_hash and
      rebuilds its ring from it, give the same answer for every key if the listen addresses are distinct. */
  method AskBoth(hash: string -> int, events: seq<Event>, fd: int, key: string)
    returns (answers: Option<(string, string)>, ghost states: seq<State>, ghost taken: seq<Event>)
    requires Calm(events) && forall a :: a in Announced(events) ==> Plain(a)
    requires Disjoint(set a | a in Announced(events) :: Truncated(a), HashesOf(hash))
    ensures Played(events, states, taken) && states != []
    ensures var s := states[|states| - 1];
      && (answers.Some? <==> fd in s.listen && |Encoded(Table(s.listen))| <= BUFFER)
      && (answers.Some? && Distinct(s.joined) ==>
        answers.value.0 == answers.value.1 == AnswerOf(hash, s.joined, key))
  {
    hide MasterServer.Apart, MasterServer.RingHolds, Played, RingOf, Calm, Disjoint, Encoded, Decoded, Announced, Run,
      Alike, Lasting, Distinct;
    var m;
    m, states, taken := Play(hash, events);
    PlayedTable(hash, events, states, taken);
    if fd !in m.listen {
      return None, states, taken;
    }
    LastHashIs(m.Abs(), fd);
    var addrs := LastHash(m.sent, fd).value;
    answers := AskFor(m, addrs, key);
    if |Encoded(addrs)| <= BUFFER {
      MastersRing(hash, states, taken, |states| - 1, fd, key);
      RoundTrip(addrs);
    }
  }

  /** In any state, whatever disconnects came before: without collisions and cut addresses, a member's ring
      and the master's are alike exactly when the table names just the servers that ever joined, no address
      joined twice, and none is in the table twice. */
  lemma RingsAgree(hash: string -> int, s: State, fd: int)
    requires Inv(s) && fd in s.listen && Uncut(Table(s.listen)) && Uncut(s.joined)
    requires Disjoint(Elements(Table(s.listen)) + Elements(s.joined), HashesOf(hash))
    ensures var table, last := Table(s.listen), LastHash(s.sent, fd);
      && last.Some?
      && (Alike(hash, last.value, s.joined)
        <==> Distinct(table) && Distinct(s.joined) && Elements(table) == Elements(s.joined))
  {
    var table := Table(s.listen);
    UncutSame(table);
    UncutSame(s.joined);
    assert Disjoint(Elements(table), HashesOf(hash)) && Disjoint(Elements(s.joined), HashesOf(hash));
    LastingIff(hash, table);
    LastingIff(hash, s.joined);
    SameRing(hash, table, s.joined);
  }

  /** Disconnecting leaves `joined` as it was. */
  lemma DisconnectKeepsJoined(s: State, fd: int, s': State)
    requires Consistent(s) && Next(s, Disconnect(fd), s')
    ensures s'.joined == s.joined
    ensures fd in s.listen ==> s'.listen == s.listen - {fd}
  {
  }

  /** Whoever joined and is in the listen table no longer still owns its places on the master's ring, and
      none on a member's. */
  lemma DepartedStays(hash: string -> int, s: State, fd: int, x: string)
    requires Inv(s) && fd in s.listen && Disjoint(Elements(Shortened(s.joined)), HashesOf(hash))
    requires x in s.joined && Truncated(x) !in Shortened(Table(s.listen))
    ensures var h, last := hash(ReplicaName(Truncated(x), 0)), LastHash(s.sent, fd);
      && h in RingOf(hash, s.joined) && RingOf(hash, s.joined)[h] == Truncated(x)
      && last.Some? && Truncated(x) !in Owners(RingOf(hash, last.value))
      && RingOf(hash, last.value) != RingOf(hash, s.joined)
  {
    var j, t := Shortened(s.joined), Shortened(Table(s.listen));
    var i :| 0 <= i < |s.joined| && s.joined[i] == x;
    assert j[i] == Truncated(x);
    PlaceOf(hash, j, Truncated(x));
    BuiltFrom(t, HashesOf(hash));
  }

  lemma ConnectStep(s: State, fd: int, addr: string) returns (s': State)
    requires Inv(s) && Enabled(s, Connect(fd, addr)) && fd !in s.connected
    ensures Next(s, Connect(fd, addr), s') && Inv(s')
    ensures s' == s.(connected := s.connected[fd := addr])
  {
    s' := Connected(s, fd, addr);
    ConnectKeeps(s, fd, addr);
  }

  lemma RegisterStep(s: State, fd: int, listenAddr: string, m: seq<Sent>) returns (s': State)
    requires Inv(s) && Enabled(s, Register(fd, listenAddr)) && MoveRound(m, s.registed)
    ensures Next(s, Register(fd, listenAddr), s') && Inv(s')
    ensures s'.registed == s.registed[s.connected[fd] := fd] && s'.connected == s.connected
    ensures s'.listen == s.listen[fd := listenAddr] && s'.joined == s.joined + [listenAddr]
    ensures s'.order == s.order + [s.connected[fd]]
  {
    s' := AfterRegister(s, fd, listenAddr, m);
    RegisterKeeps(s, fd, listenAddr, m);
  }

  lemma DisconnectStep(s: State, fd: int) returns (s': State)
    requires Inv(s) && Enabled(s, Disconnect(fd)) && fd in s.listen
    ensures Next(s, Disconnect(fd), s') && Inv(s')
    ensures s'.listen == s.listen - {fd} && s'.joined == s.joined
    ensures s'.connected == s.connected - {fd} && s'.registed == s.registed - {s.connected[fd]}
  {
    s' := AfterDisconnect(s, fd);
    DisconnectKeeps(s, fd);
    Registered(s, fd);
  }

  lemma TableOfOne(listen: map<int, string>, fd: int, a: string)
    requires listen == map[fd := a]
    ensures Table(listen) == [a]
  {
    AscendingElements(listen.Keys);
    var fds := Ascending(listen.Keys);
    assert listen.Keys == {fd} && |fds| == 1;
    assert fds[0] in Elements(fds);
  }

  /** Two servers register. */
  lemma TwoMembers() returns (states: seq<State>)
    ensures Run(states, [Connect(1, "a"), Connect(2, "b"), Register(1, "x"), Register(2, "y")])
    ensures var s := states[4];
      Inv(s) && s.joined == ["x", "y"] && s.listen == map[1 := "x", 2 := "y"] && 1 in s.connected
  {
    hide Consistent, BackedUp, HashCurrent, Next;
    InitInv();
    var s1 := ConnectStep(INIT, 1, "a");
    var s2 := ConnectStep(s1, 2, "b");
    var s3 := RegisterStep(s2, 1, "x", []);
    assert s3.registed == map["a" := 1];
    var s4 := RegisterStep(s3, 2, "y", [Sent(1, MoveData)]);
    states := [INIT, s1, s2, s3, s4];
  }

  /** A run after which the rings differ, whatever the hash function: two servers register and the first
      disconnects. */
  lemma RunWithDifferentRings(hash: string -> int) returns (states: seq<State>, events: seq<Event>)
    ensures events == [Connect(1, "a"), Connect(2, "b"), Register(1, "x"), Register(2, "y"), Disconnect(1)]
    ensures Run(states, events)
    ensures var s := states[5];
      && s.joined == ["x", "y"] && s.listen == map[2 := "y"]
      && LastHash(s.sent, 2) == Some(["y"])
      && RingOf(hash, ["y"]) != RingOf(hash, s.joined)
  {
    hide Inv, LastHash, Next, RingOf, Table;
    var before := TwoMembers();
    var s5 := DisconnectStep(before[4], 1);
    events := [Connect(1, "a"), Connect(2, "b"), Register(1, "x"), Register(2, "y")];
    RunGrows(before, events, Disconnect(1), s5);
    states, events := before + [s5], events + [Disconnect(1)];
    assert s5.listen == map[2 := "y"];
    TableOfOne(s5.listen, 2, "y");
    LastHashIs(s5, 2);
    SampleRings(hash);
  }

  lemma SampleRings(hash: string -> int)
    ensures RingOf(hash, ["y"]) != RingOf(hash, ["x", "y"])
  {
    var h := hash(ReplicaName("x", 0));
    assert Shortened(["x", "y"]) == ["x", "y"] && Shortened(["y"]) == ["y"];
    assert h in HashesOf(hash)("x");
    FirstKeeps(["x", "y"], HashesOf(hash), h);
    BuiltFrom(["y"], HashesOf(hash));
  }

  /** A server that comes back: after this run the table and the rings by name agree, but the record that owns
      all of the master's places is gone, whatever the hash function. */
  lemma RunThatComesBack(hash: string -> int) returns (states: seq<State>, events: seq<Event>)
    ensures events == [Connect(1, "a"), Register(1, "x"), Disconnect(1), Connect(2, "b"), Register(2, "x")]
    ensures Run(states, events)
    ensures var s := states[5];
      && s.joined == ["x", "x"] && s.listen == map[2 := "x"]
      && LastHash(s.sent, 2) == Some(["x"])
      && RingOf(hash, ["x"]) == RingOf(hash, s.joined)
      && !Lasting(hash, s.joined)
  {
    hide Consistent, BackedUp, HashCurrent, LastHash, Next, RingOf, Table, Lasting;
    InitInv();
    var s1 := ConnectStep(INIT, 1, "a");
    var s2 := RegisterStep(s1, 1, "x", []);
    var s3 := DisconnectStep(s2, 1);
    var s4 := ConnectStep(s3, 2, "b");
    var s5 := RegisterStep(s4, 2, "x", []);
    states := [INIT, s1, s2, s3, s4, s5];
    events := [Connect(1, "a"), Register(1, "x"), Disconnect(1), Connect(2, "b"), Register(2, "x")];
    assert s5.listen == map[2 := "x"];
    TableOfOne(s5.listen, 2, "x");
    LastHashIs(s5, 2);
    TwiceNotLasting(hash);
  }

  lemma TwiceNotLasting(hash: string -> int)
    ensures RingOf(hash, ["x"]) == RingOf(hash, ["x", "x"]) && !Lasting(hash, ["x", "x"])
  {
    var twice := ["x", "x"];
    RingOfStep(hash, ["x"], "x");
    RingOfStep(hash, [], "x");
    assert [] + ["x"] == ["x"] && ["x"] + ["x"] == twice;
    var h := hash(ReplicaName("x", 0));
    assert h in HashesOf(hash)("x");
    assert twice[..0] == [] && h !in RingOf(hash, twice[..0]);
    assert !Crowded(hash, twice, 0);
  }
}
