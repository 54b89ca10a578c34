/** The master server of master_server/master_service.cpp: its tables, its circular list, its ring, and
    the three handlers that change them.  Each is proved to be one step of `Membership`. */
module Master {
  import opened RingSpec
  import opened ConHash
  import opened CacheDirectory
  import opened ServerList
  import opened Membership
  import LinkedList
  import opened Sequences

  class MasterServer {
    var registed: map<string, int>
    var connected: map<int, string>
    var listen: map<int, string>
    const connectList: Members
    const masterHash: Directory
    /** The instructions sent, oldest first. */
    var sent: seq<Sent>
    ghost var joined: seq<string>
    /** The objects of the ring. */
    ghost var ringRepr: set<object>

    ghost function Abs(): State
      reads this, connectList
    {
      State(registed, connected, listen, connectList.contents, joined, sent)
    }

    /** The master's ring holds the servers that joined.  The master never takes one out, so no freed node
        comes to be above the root. */
    ghost predicate RingHolds()
      reads this`joined, this`ringRepr, ringRepr
    {
      && masterHash in ringRepr && masterHash.conhash in ringRepr && masterHash.conhash.tree in ringRepr
      && masterHash.conhash.tree.nodes <= ringRepr
      && Owners(masterHash.conhash.ring) <= ringRepr && Known(masterHash.nodesMap) <= ringRepr
      && masterHash.Valid() && !masterHash.conhash.tree.dangling
      && Follows(masterHash.conhash.hash, joined, masterHash.conhash.ring, masterHash.nodesMap)
    }

    /** No record that the master's ring needs is gone exactly while every address that joined again had no
        place. */
    lemma RingTidy()
      requires Valid()
      ensures masterHash.Tidy() <==> Lasting(masterHash.conhash.hash, joined)
      ensures Names(masterHash.conhash.ring) == RingOf(masterHash.conhash.hash, joined)
    {
      FollowsTidy(masterHash.conhash.hash, joined, masterHash.conhash.ring, masterHash.nodesMap);
    }

    ghost predicate Apart()
      reads this, connectList, connectList.list
    {
      this !in ringRepr && this !in connectList.Repr() && connectList.Repr() !! ringRepr
    }

    ghost predicate Valid()
      reads this, connectList, connectList.list, connectList.list.nodes, ringRepr
    {
      Apart() && connectList.Valid() && RingHolds() && Inv(Abs())
    }

    constructor (hash: string -> int)
      ensures Valid() && Abs() == INIT && masterHash.conhash.hash == hash
      ensures fresh(ringRepr) && fresh(connectList.Repr())
    {
      hide Inv, Ring.Core, Ring.Marked, LinkedList.Indexed, LinkedList.List.Valid, LinkedList.Inner, Follows;
      registed, connected, listen := map[], map[], map[];
      connectList := new Members();
      var d := new Directory(hash);
      masterHash := d;
      ringRepr := {d, d.conhash, d.conhash.tree} + d.conhash.tree.nodes;
      sent, joined := [], [];
      new;
      FollowsNothing(hash);
      InitInv();
    }

    /** `dealwithNewConn`. */
    method Connect(fd: int, addr: string)
      requires Valid() && Enabled(Abs(), Event.Connect(fd, addr))
      modifies this`connected
      ensures Valid() && Next(old(Abs()), Event.Connect(fd, addr), Abs())
    {
      hide Inv, Directory.Valid, Directory.Listed, Follows, Owners, Known, LinkedList.Indexed,
        LinkedList.List.Valid, LinkedList.Inner;
      ConnectKeeps(Abs(), fd, addr);
      if fd !in connected {
        connected := connected[fd := addr];
      }
    }

    /** `UpdateHash`: the table by ascending descriptor, to every descriptor in it. */
    method UpdateHash()
      modifies this`sent
      ensures sent == old(sent) + HashRound(listen)
    {
      var msg: seq<string> := [];
      var rest := listen.Keys;
      while exists fd :: fd in rest
        invariant sent == old(sent) && rest <= listen.Keys && msg + AddrsAt(listen, Ascending(rest)) == Table(listen)
        decreases |rest|
      {
        var fd := LeastOf(rest);
        AddrsStep(listen, rest);
        msg := msg + [listen[fd]];
        rest := rest - {fd};
      }
      assert AddrsAt(listen, Ascending(rest)) == [];
      assert msg == Table(listen);
      rest := listen.Keys;
      ghost var before := sent;
      while exists fd :: fd in rest
        invariant rest <= listen.Keys
        invariant sent + Notices(Ascending(rest), Message.UpdateHash(msg)) == before + HashRound(listen)
        decreases |rest|
      {
        var fd := LeastOf(rest);
        NoticesStep(rest, Message.UpdateHash(msg));
        sent := sent + [Sent(fd, Message.UpdateHash(msg))];
        rest := rest - {fd};
      }
      assert Notices(Ascending(rest), Message.UpdateHash(msg)) == [];
      assert sent + [] == sent;
    }

    /** A move_data to each server registered before. */
    method NotifyMoves(notify: map<string, int>) returns (ghost m: seq<Sent>)
      modifies this`sent
      ensures MoveRound(m, notify) && sent == old(sent) + m
    {
      m := [];
      var rest := notify.Keys;
      assert |rest| == |notify|;
      while exists a :: a in rest
        invariant rest <= notify.Keys && |m| + |rest| == |notify| && sent == old(sent) + m
        invariant forall i :: 0 <= i < |m| ==> m[i].msg == MoveData && exists a :: a in notify && notify[a] == m[i].fd
        invariant forall a :: a in notify && a !in rest ==> Sent(notify[a], MoveData) in m
        decreases |rest|
      {
        var a :| a in rest;
        sent := sent + [Sent(notify[a], MoveData)];
        m := m + [Sent(notify[a], MoveData)];
        rest := rest - {a};
      }
      assert rest == {};
    }

    /** Adds a server to the master's ring. */
    method JoinRing(listenAddr: string)
      requires RingHolds() && this !in ringRepr
      modifies this`joined, this`ringRepr, ringRepr
      ensures RingHolds() && joined == old(joined) + [listenAddr] && fresh(ringRepr - old(ringRepr))
    {
      hide Ring.Core, Ring.Marked, Built, Added, Replicas, Follows, Owners, Known, Names;
      masterHash.Injective();
      ghost var m, hs := masterHash.conhash.ring, Replicas(masterHash.conhash.hash, Truncated(listenAddr), REPLICAS);
      ghost var nm := masterHash.nodesMap;
      var defined := masterHash.Add(listenAddr);
      assert defined;
      RecordsAdded(m, hs, masterHash.nodesMap[listenAddr], nm, listenAddr);
      FollowsStep(masterHash.conhash.hash, joined, m, nm, listenAddr, masterHash.nodesMap[listenAddr]);
      joined := joined + [listenAddr];
      ringRepr := ringRepr + masterHash.conhash.tree.nodes + {masterHash.nodesMap[listenAddr]};
    }

    /** The first steps of `Register`: tables, list and ring. */
    method Enrol(newAddr: string, cfd: int, listenAddr: string)
      requires Apart() && connectList.Valid() && RingHolds() && newAddr !in connectList.contents
      requires cfd in connected && connected[cfd] == newAddr
      modifies this`registed, this`listen, this`joined, this`ringRepr, connectList.Repr(), ringRepr
      ensures Apart() && connectList.Valid() && RingHolds()
      ensures Abs() == Joined(old(Abs()), cfd, listenAddr)
      ensures fresh(ringRepr - old(ringRepr)) && fresh(connectList.Repr() - old(connectList.Repr()))
    {
      hide Directory.Valid, Directory.Listed, Follows, Owners, Known, LinkedList.Indexed,
        LinkedList.List.Valid, LinkedList.Inner;
      registed := registed[newAddr := cfd];
      listen := listen[cfd := listenAddr];
      connectList.Add(newAddr);
      JoinRing(listenAddr);
    }

    /** The last step of `Register`; `t` is the present state, whatever was sent in between. */
    method TellBackups(newAddr: string, cfd: int, ghost t: State)
      requires connectList.Valid() && Consistent(t) && cfd in t.listen && t.connected[cfd] == newAddr && newAddr in t.order
      requires NextOf(t.order, newAddr) in t.order && PrevOf(t.order, newAddr) in t.order
      requires Abs() == t.(sent := sent)
      modifies this`sent
      ensures sent == old(sent) + RegisterTail(t, cfd)
    {
      TailReads(t, cfd);
      hide Consistent, Members.Valid, IndexOf, NextOf, PrevOf, LinkedList.Indexed, LinkedList.List.Valid,
        LinkedList.Inner;
      var existed := connectList.IsExisted(newAddr);
      if existed {
        var prevAddr := connectList.GetPrev(newAddr);
        var nextAddr := connectList.GetNext(newAddr);
        var prevFd := registed[prevAddr];
        var nextFd := registed[nextAddr];
        SendBackups(prevFd, nextFd, cfd);
      }
    }

    method SendBackups(prevFd: int, nextFd: int, cfd: int)
      requires cfd in listen && nextFd in listen
      modifies this`sent
      ensures sent == old(sent) +
        if nextFd != cfd || prevFd != cfd
        then [Sent(prevFd, UpdateBackup(listen[cfd])), Sent(cfd, UpdateBackup(listen[nextFd]))]
        else []
    {
      if nextFd != cfd || prevFd != cfd {
        sent := sent + [Sent(prevFd, UpdateBackup(listen[cfd]))];
        sent := sent + [Sent(cfd, UpdateBackup(listen[nextFd]))];
      }
    }

    /** The body of `Register`. */
    method Admit(listenAddr: string, cfd: int) returns (ghost m: seq<Sent>)
      requires Apart() && connectList.Valid() && RingHolds() && Consistent(Abs()) && Enabled(Abs(), Event.Register(cfd, listenAddr))
      requires connected[cfd] !in connectList.contents
      modifies this`registed, this`listen, this`sent, this`joined, this`ringRepr, connectList.Repr(), ringRepr
      ensures Apart() && connectList.Valid() && RingHolds() && Consistent(old(Abs()))
      ensures MoveRound(m, old(registed)) && Abs() == AfterRegister(old(Abs()), cfd, listenAddr, m)
      ensures fresh(ringRepr - old(ringRepr)) && fresh(connectList.Repr() - old(connectList.Repr()))
    {
      hide HashRound, MoveRound, NextOf, PrevOf, Consistent, Directory.Valid, Directory.Listed, Follows,
        Owners, Known, LinkedList.Indexed, LinkedList.List.Valid, LinkedList.Inner, RegisterTail, RingHolds;
      ghost var s := Abs();
      JoinedConsistent(s, cfd, listenAddr);
      var newAddr := connected[cfd];
      var notify := registed;
      Enrol(newAddr, cfd, listenAddr);
      UpdateHash();
      m := NotifyMoves(notify);
      TellBackups(newAddr, cfd, Joined(s, cfd, listenAddr));
    }

    /** `Register`. */
    method Register(listenAddr: string, cfd: int)
      requires Valid() && Enabled(Abs(), Event.Register(cfd, listenAddr))
      modifies this`registed, this`listen, this`sent, this`joined, this`ringRepr, connectList.Repr(), ringRepr
      ensures Valid() && Next(old(Abs()), Event.Register(cfd, listenAddr), Abs())
      ensures fresh(ringRepr - old(ringRepr)) && fresh(connectList.Repr() - old(connectList.Repr()))
    {
      hide Inv, MoveRound, Consistent, AfterRegister, Directory.Valid, Directory.Listed, Follows, Owners,
        Known, LinkedList.Indexed, LinkedList.List.Valid, LinkedList.Inner;
      ghost var s := Abs();
      FreshMember(s, cfd, listenAddr);
      ghost var m := Admit(listenAddr, cfd);
      RegisterKeeps(s, cfd, listenAddr, m);
    }

    /** A registered server leaves the tables and the list, but not the ring. */
    method Expel(addr: string, cfd: int)
      requires Apart() && connectList.Valid() && RingHolds() && addr in connectList.contents
      requires cfd in connected && connected[cfd] == addr
      modifies this`registed, this`connected, this`listen, connectList.Repr()
      ensures Apart() && connectList.Valid() && RingHolds()
      ensures Abs() == Left(old(Abs()), cfd)
      ensures connectList.Repr() == old(connectList.Repr())
    {
      hide IndexOf, Without, Distinct, Directory.Valid, Directory.Listed, Follows,
        Owners, Known, LinkedList.Indexed, LinkedList.List.Valid, LinkedList.Inner;
      connected := connected - {cfd};
      registed := registed - {addr};
      listen := listen - {cfd};
      connectList.Del(addr);
    }

    /** The last step of the disconnect handler; `s` is the state before the server left. */
    method TellNeighbours(prevFd: int, nextFd: int, cfd: int, ghost s: State)
      requires Consistent(s) && cfd in s.connected && s.connected[cfd] in s.order && listen == Left(s, cfd).listen
      requires NextOf(s.order, s.connected[cfd]) in s.registed && nextFd == s.registed[NextOf(s.order, s.connected[cfd])]
      requires PrevOf(s.order, s.connected[cfd]) in s.registed && prevFd == s.registed[PrevOf(s.order, s.connected[cfd])]
      modifies this`sent
      ensures sent == old(sent) + DisconnectTail(s, cfd)
      ensures nextFd == cfd || prevFd == cfd ==> sent == old(sent)
      ensures nextFd != cfd && prevFd != cfd ==>
        && nextFd in listen
        && sent == old(sent) + [Sent(nextFd, RecoverBackup), Sent(prevFd, UpdateBackup(listen[nextFd]))]
    {
      hide NextOf, PrevOf;
      LeftReads(s, cfd);
      if nextFd == cfd || prevFd == cfd { return; }
      sent := sent + [Sent(nextFd, RecoverBackup)];
      sent := sent + [Sent(prevFd, UpdateBackup(listen[nextFd]))];
    }

    method Depart(addr: string, cfd: int)
      requires Apart() && connectList.Valid() && RingHolds() && Consistent(Abs()) && addr in connectList.contents
      requires cfd in connected && connected[cfd] == addr
      modifies this`registed, this`connected, this`listen, this`sent, connectList.Repr()
      ensures Apart() && connectList.Valid() && RingHolds()
      ensures Consistent(old(Abs())) && Abs() == AfterDisconnect(old(Abs()), cfd)
      ensures connectList.Repr() == old(connectList.Repr())
    {
      hide HashRound, NextOf, PrevOf, Consistent, Directory.Valid, Directory.Listed, Follows, Owners,
        Known, LinkedList.Indexed, LinkedList.List.Valid, LinkedList.Inner, DisconnectTail;
      ghost var s := Abs();
      LeftReads(s, cfd);
      var prevAddr := connectList.GetPrev(addr);
      var nextAddr := connectList.GetNext(addr);
      var prevFd := registed[prevAddr];
      var nextFd := registed[nextAddr];
      Expel(addr, cfd);
      UpdateHash();
      TellNeighbours(prevFd, nextFd, cfd, s);
    }

    /** The branch of `dealwithCacheServer` for a closed connection. */
    method Disconnect(cfd: int)
      requires Valid() && Enabled(Abs(), Event.Disconnect(cfd))
      modifies this`registed, this`connected, this`listen, this`sent, connectList.Repr()
      ensures Valid() && Next(old(Abs()), Event.Disconnect(cfd), Abs())
      ensures connectList.Repr() == old(connectList.Repr())
    {
      hide Inv, Consistent, Left, Directory.Valid, Directory.Listed, Follows, Owners, Known,
        LinkedList.Indexed, LinkedList.List.Valid, LinkedList.Inner;
      ghost var s := Abs();
      DisconnectKeeps(s, cfd);
      InvConsistent(s);
      var addr := connected[cfd];
      var existed := connectList.IsExisted(addr);
      if existed {
        Depart(addr, cfd);
      }
    }

    /** The handler for an event, if the environment allows it. */
    method Take(e: Event) returns (done: bool)
      requires Valid()
      modifies this`registed, this`connected, this`listen, this`sent, this`joined, this`ringRepr, connectList.Repr(), ringRepr
      ensures Valid() && (done <==> Enabled(old(Abs()), e))
      ensures if done then Next(old(Abs()), e, Abs()) else Abs() == old(Abs())
      ensures fresh(ringRepr - old(ringRepr)) && fresh(connectList.Repr() - old(connectList.Repr()))
    {
      hide Valid, Next;
      done := true;
      match e
      case Connect(fd, addr) =>
        if fd in listen || (fd !in connected && exists g :: g in connected && connected[g] == addr) {
          return false;
        }
        Connect(fd, addr);
      case Register(fd, listenAddr) =>
        if fd !in connected || fd in listen {
          return false;
        }
        Register(listenAddr, fd);
      case Disconnect(fd) =>
        if fd !in connected {
          return false;
        }
        Disconnect(fd);
    }
  }

  /** The event loop: the server takes exactly the events that may happen where they arrive, and so goes
      through a run of the protocol. */
  method Play(hash: string -> int, events: seq<Event>)
    returns (m: MasterServer, ghost states: seq<State>, ghost taken: seq<Event>)
    ensures m.Valid() && m.masterHash.conhash.hash == hash
    ensures Played(events, states, taken) && Run(states, taken) && states[|states| - 1] == m.Abs()
  {
    hide MasterServer.Valid, Next, Enabled, Played;
    m := new MasterServer(hash);
    states, taken := [INIT], [];
    PlayedNothing();
    for i := 0 to |events|
      invariant fresh(m) && fresh(m.ringRepr) && fresh(m.connectList.Repr())
      invariant m.Valid() && states != [] && states[|states| - 1] == m.Abs()
      invariant Played(events[..i], states, taken)
    {
      ghost var s := m.Abs();
      var done := m.Take(events[i]);
      assert events[..i + 1] == events[..i] + [events[i]];
      PlayedMore(events[..i], states, taken, events[i], m.Abs(), done);
      if done {
        states, taken := states + [m.Abs()], taken + [events[i]];
      }
    }
    assert events[..|events|] == events;
    PlayedRun(events, states, taken);
  }

  lemma PlayedNothing()
    ensures Played([], [INIT], [])
  {
  }

  lemma PlayedMore(before: seq<Event>, states: seq<State>, taken: seq<Event>, e: Event, s: State, done: bool)
    requires Played(before, states, taken) && states != []
    requires done <==> Enabled(states[|states| - 1], e)
    requires done ==> Next(states[|states| - 1], e, s)
    ensures Played(before + [e], if done then states + [s] else states, if done then taken + [e] else taken)
  {
    hide Next, Enabled;
    var events := before + [e];
    assert events[..|before|] == before;
    if done {
      assert (states + [s])[..|states|] == states && (taken + [e])[..|taken|] == taken;
      assert PlayedOn(before, states + [s], taken + [e], e);
    }
  }

  lemma RecordsAdded(m: map<int, Server>, hs: set<int>, s: Server, nm: map<string, Server>, ip: string)
    ensures Owners(Added(m, hs, s)) <= Owners(m) + {s} && Known(nm[ip := s]) <= Known(nm) + {s}
  {
  }

  lemma InvConsistent(s: State)
    requires Inv(s)
    ensures Consistent(s)
  {
  }

  lemma LeftReads(s: State, fd: int)
    requires Consistent(s) && fd in s.connected && s.connected[fd] in s.order
    ensures var a := s.connected[fd];
      && NextOf(s.order, a) in s.registed && PrevOf(s.order, a) in s.registed
      && (s.registed[NextOf(s.order, a)] != fd ==> s.registed[NextOf(s.order, a)] in Left(s, fd).listen)
  {
  }

  lemma TailReads(t: State, fd: int)
    requires Consistent(t) && fd in t.listen
    requires NextOf(t.order, t.connected[fd]) in t.order && PrevOf(t.order, t.connected[fd]) in t.order
    ensures var n, p := NextOf(t.order, t.connected[fd]), PrevOf(t.order, t.connected[fd]);
      n in t.registed && p in t.registed && t.registed[n] in t.listen
  {
  }

  method LeastOf(ks: set<int>) returns (h: int)
    requires exists x :: x in ks
    ensures h == Least(ks)
  {
    var l := LeastExists(ks);
    h :| h in ks && forall g :: g in ks ==> h <= g;
  }

  /** What the handler may rely on: the address is new, so nothing is overwritten. */
  lemma FreshMember(s: State, fd: int, listenAddr: string)
    requires Inv(s) && Enabled(s, Event.Register(fd, listenAddr))
    ensures s.connected[fd] !in s.registed && s.connected[fd] !in s.order && Consistent(s)
  {
    Registered(s, fd);
  }

  lemma AddrsStep(listen: map<int, string>, rest: set<int>)
    requires rest <= listen.Keys && exists x :: x in rest
    ensures AddrsAt(listen, Ascending(rest)) == [listen[Least(rest)]] + AddrsAt(listen, Ascending(rest - {Least(rest)}))
  {
  }

  lemma NoticesStep(rest: set<int>, msg: Message)
    requires exists x :: x in rest
    ensures Notices(Ascending(rest), msg) == [Sent(Least(rest), msg)] + Notices(Ascending(rest - {Least(rest)}), msg)
  {
  }
}
