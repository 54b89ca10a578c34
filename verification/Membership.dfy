/** The membership protocol of master_server/master_service.cpp as steps on values: connecting,
    registering, disconnecting, each handler one atomic step. */
module Membership {
  import opened Options
  import opened RingSpec
  import opened LinkedList
  import opened ServerList
  import opened Sequences

  datatype Message =
    | UpdateHash(addrs: seq<string>)
    | MoveData
    | RecoverBackup
    | UpdateBackup(addr: string)

  datatype Sent = Sent(fd: int, msg: Message)

  /** `registed`: address to descriptor; `connected`: descriptor to address; `listen`: descriptor to
      listen address; `order`: the circular list of registered addresses; `joined`: the listen addresses
      added to the master's ring, in order; `sent`: every instruction sent so far. */
  datatype State = State(
    registed: map<string, int>, connected: map<int, string>, listen: map<int, string>,
    order: seq<string>, joined: seq<string>, sent: seq<Sent>)

  datatype Event = Connect(fd: int, addr: string) | Register(fd: int, listenAddr: string) | Disconnect(fd: int)

  const INIT := State(map[], map[], map[], [], [], [])

  // ---------- what the instructions add up to ----------

  function LastBackup(sent: seq<Sent>, fd: int): Option<string> {
    if sent == [] then None
    else
      var last := sent[|sent| - 1];
      if last.fd == fd && last.msg.UpdateBackup? then Some(last.msg.addr)
      else LastBackup(sent[..|sent| - 1], fd)
  }

  function LastHash(sent: seq<Sent>, fd: int): Option<seq<string>> {
    if sent == [] then None
    else
      var last := sent[|sent| - 1];
      if last.fd == fd && last.msg.UpdateHash? then Some(last.msg.addrs)
      else LastHash(sent[..|sent| - 1], fd)
  }

  // ---------- the invariant ----------

  /** The two maps are inverse on registered connections, the listen table has exactly those
      connections, and the list holds exactly the registered addresses, once each. */
  ghost predicate Consistent(s: State) {
    && Distinct(s.order)
    && (forall a :: a in s.order <==> a in s.registed)
    && (forall a :: a in s.registed ==>
      s.registed[a] in s.listen && s.registed[a] in s.connected && s.connected[s.registed[a]] == a)
    && (forall fd :: fd in s.listen ==>
      fd in s.connected && s.connected[fd] in s.registed && s.registed[s.connected[fd]] == fd)
    && (forall fd, fd' :: fd in s.connected && fd' in s.connected && s.connected[fd] == s.connected[fd'] ==> fd == fd')
  }

  /** `a` was last told to back up to the listen address of the member after it in the circle. */
  ghost predicate ToldRight(s: State, a: string) {
    && a in s.order && a in s.registed
    && var n := NextOf(s.order, a);
      && n in s.registed && s.registed[n] in s.listen
      && LastBackup(s.sent, s.registed[a]) == Some(s.listen[s.registed[n]])
  }

  /** With two or more members, each was last told to back up to its present successor. */
  ghost predicate BackedUp(s: State) {
    |s.order| >= 2 ==> forall a :: a in s.order ==> ToldRight(s, a)
  }

  /** Each member was last sent exactly the present listen table. */
  ghost predicate HashCurrent(s: State) {
    forall fd :: fd in s.listen ==> LastHash(s.sent, fd) == Some(Table(s.listen))
  }

  ghost predicate Inv(s: State) {
    Consistent(s) && BackedUp(s) && HashCurrent(s)
  }

  // ---------- the listen table, in the order of a `std::map` ----------

  ghost function Least(ks: set<int>): (h: int)
    requires exists x :: x in ks
    ensures h in ks && forall g :: g in ks ==> h <= g
  {
    assert exists h :: h in ks && forall g :: g in ks ==> h <= g by { var l := LeastExists(ks); }
    var h :| h in ks && forall g :: g in ks ==> h <= g;
    h
  }

  /** The elements in ascending order. */
  ghost function Ascending(ks: set<int>): seq<int>
    decreases |ks|
  {
    if exists x :: x in ks then [Least(ks)] + Ascending(ks - {Least(ks)}) else []
  }

  lemma {:induction false} AscendingElements(ks: set<int>)
    ensures Elements(Ascending(ks)) == ks && |Ascending(ks)| == |ks|
    decreases |ks|
  {
    if exists x :: x in ks {
      var l := Least(ks);
      AscendingElements(ks - {l});
      assert Elements([l] + Ascending(ks - {l})) == {l} + Elements(Ascending(ks - {l}));
      assert ks == {l} + (ks - {l});
    } else {
      assert ks == {};
    }
  }

  /** The addresses of the table by ascending descriptor. */
  ghost function Table(listen: map<int, string>): seq<string> {
    AddrsAt(listen, Ascending(listen.Keys))
  }

  ghost function AddrsAt(listen: map<int, string>, fds: seq<int>): (r: seq<string>)
    ensures |r| == |fds|
  {
    seq(|fds|, i requires 0 <= i < |fds| => if fds[i] in listen then listen[fds[i]] else "")
  }

  ghost function Notices(fds: seq<int>, msg: Message): (r: seq<Sent>)
    ensures |r| == |fds|
  {
    seq(|fds|, i requires 0 <= i < |fds| => Sent(fds[i], msg))
  }

  /** `UpdateHash`: the whole table to every descriptor in it. */
  ghost function HashRound(listen: map<int, string>): seq<Sent> {
    Notices(Ascending(listen.Keys), UpdateHash(Table(listen)))
  }

  /** A move_data to each server registered before, in some order. */
  ghost predicate MoveRound(m: seq<Sent>, registed: map<string, int>) {
    && |m| == |registed|
    && (forall i :: 0 <= i < |m| ==> m[i].msg == MoveData && exists a :: a in registed && registed[a] == m[i].fd)
    && (forall a :: a in registed ==> Sent(registed[a], MoveData) in m)
  }

  // ---------- the steps ----------

  /** What the environment guarantees: the operating system does not hand out the descriptor of an open
      registered connection, a newly listed peer has an address of its own, a connection registers at
      most once, and only connections end.  A descriptor left in the table by a connection that closed
      unregistered may come back. */
  ghost predicate Enabled(s: State, e: Event) {
    match e
    case Connect(fd, addr) =>
      fd !in s.listen && (fd in s.connected || forall g :: g in s.connected ==> s.connected[g] != addr)
    case Register(fd, _) => fd in s.connected && fd !in s.listen
    case Disconnect(fd) => fd in s.connected
  }

  /** `insert` keeps an entry that is there already. */
  function Connected(s: State, fd: int, addr: string): State {
    if fd in s.connected then s else s.(connected := s.connected[fd := addr])
  }

  function Joined(s: State, fd: int, listenAddr: string): State
    requires fd in s.connected
  {
    s.(registed := s.registed[s.connected[fd] := fd], listen := s.listen[fd := listenAddr],
       order := s.order + [s.connected[fd]], joined := s.joined + [listenAddr])
  }

  function Left(s: State, fd: int): State
    requires fd in s.connected && s.connected[fd] in s.order
  {
    var a := s.connected[fd];
    s.(registed := s.registed - {a}, connected := s.connected - {fd}, listen := s.listen - {fd},
       order := Without(s.order, IndexOf(s.order, a)))
  }

  /** The last part of `Register`: the predecessor backs up to the new server, the new server to its successor. */
  function RegisterTail(s: State, fd: int): seq<Sent>
    requires Consistent(s) && fd in s.listen && NextOf(s.order, s.connected[fd]) in s.order && PrevOf(s.order, s.connected[fd]) in s.order
  {
    var a := s.connected[fd];
    var prevFd, nextFd := s.registed[PrevOf(s.order, a)], s.registed[NextOf(s.order, a)];
    if nextFd != fd || prevFd != fd
    then [Sent(prevFd, UpdateBackup(s.listen[fd])), Sent(fd, UpdateBackup(s.listen[nextFd]))]
    else []
  }

  ghost function AfterRegister(s: State, fd: int, listenAddr: string, moves: seq<Sent>): State
    requires Consistent(s) && Enabled(s, Register(fd, listenAddr))
  {
    JoinedConsistent(s, fd, listenAddr);
    var t := Joined(s, fd, listenAddr);
    t.(sent := s.sent + HashRound(t.listen) + moves + RegisterTail(t, fd))
  }

  /** The last part of the disconnect handler: the successor recovers its backup, the predecessor backs
      up to the successor. */
  function DisconnectTail(s: State, fd: int): seq<Sent>
    requires Consistent(s) && fd in s.connected && s.connected[fd] in s.order
  {
    var a := s.connected[fd];
    NeighboursIn(s, a);
    var prevFd, nextFd := s.registed[PrevOf(s.order, a)], s.registed[NextOf(s.order, a)];
    if nextFd == fd || prevFd == fd then []
    else
      LeftNeighbours(s, fd);
      [Sent(nextFd, RecoverBackup), Sent(prevFd, UpdateBackup(Left(s, fd).listen[nextFd]))]
  }

  ghost function AfterDisconnect(s: State, fd: int): State
    requires Consistent(s) && Enabled(s, Disconnect(fd))
  {
    if s.connected[fd] !in s.order then s
    else
      var t := Left(s, fd);
      t.(sent := s.sent + HashRound(t.listen) + DisconnectTail(s, fd))
  }

  /** One handler run.  Nothing is said of what follows an inconsistent state: the handlers would read
      addresses and descriptors that are not there. */
  ghost predicate Next(s: State, e: Event, s': State) {
    && Enabled(s, e)
    && (Consistent(s) ==>
      match e
      case Connect(fd, addr) => s' == Connected(s, fd, addr)
      case Register(fd, listenAddr) =>
        exists m :: MoveRound(m, s.registed) && s' == AfterRegister(s, fd, listenAddr, m)
      case Disconnect(fd) => s' == AfterDisconnect(s, fd))
  }

  /** A connection is registered exactly when its address is. */
  lemma Registered(s: State, fd: int)
    requires Consistent(s) && fd in s.connected
    ensures s.connected[fd] in s.registed <==> fd in s.listen
    ensures s.connected[fd] in s.order <==> fd in s.listen
    ensures fd in s.listen ==> s.registed[s.connected[fd]] == fd
  {
    var a := s.connected[fd];
    if a in s.registed {
      var g := s.registed[a];
      assert g in s.connected && s.connected[g] == s.connected[fd];
      assert g == fd;
    }
  }

  lemma NeighboursIn(s: State, a: string)
    requires a in s.order
    ensures NextOf(s.order, a) in s.order && PrevOf(s.order, a) in s.order
  {
  }

  lemma LeftNeighbours(s: State, fd: int)
    requires Consistent(s) && fd in s.connected && s.connected[fd] in s.order
    ensures fd in s.listen && s.registed[s.connected[fd]] == fd
    ensures var a := s.connected[fd];
      (s.registed[NextOf(s.order, a)] != fd ==> s.registed[NextOf(s.order, a)] in Left(s, fd).listen)
  {
    Registered(s, fd);
    NeighboursIn(s, s.connected[fd]);
  }

  lemma JoinedConsistent(s: State, fd: int, listenAddr: string)
    requires Consistent(s) && Enabled(s, Register(fd, listenAddr))
    ensures var t := Joined(s, fd, listenAddr);
      Consistent(t) && fd in t.listen && t.connected[fd] in t.order
      && NextOf(t.order, t.connected[fd]) in t.order && PrevOf(t.order, t.connected[fd]) in t.order
  {
    var t, a := Joined(s, fd, listenAddr), s.connected[fd];
    Registered(s, fd);
    assert t.order[|s.order|] == a;
    NeighboursIn(t, a);
  }

  lemma LeftConsistent(s: State, fd: int)
    requires Consistent(s) && fd in s.connected && s.connected[fd] in s.order
    ensures Consistent(Left(s, fd))
  {
    var t, a := Left(s, fd), s.connected[fd];
    var i := IndexOf(s.order, a);
    Registered(s, fd);
    WithoutMembers(s.order, i);
    forall b | b in t.registed ensures t.registed[b] in t.listen && t.registed[b] in t.connected {
      assert s.connected[s.registed[b]] == b;
    }
    forall g | g in t.listen ensures t.connected[g] in t.registed {
      assert s.connected[g] == s.connected[fd] ==> g == fd;
    }
  }

  lemma WithoutMembers(o: seq<string>, i: nat)
    requires Distinct(o) && i < |o|
    ensures Distinct(Without(o, i)) && forall b :: b in Without(o, i) <==> b in o && b != o[i]
  {
  }

  // ---------- neighbours before and after ----------

  lemma NextAppended(o: seq<string>, a: string, b: string)
    requires Distinct(o) && a !in o && b in o
    ensures NextOf(o + [a], b) == if b == o[|o| - 1] then a else NextOf(o, b)
    ensures NextOf(o + [a], a) == o[0] && PrevOf(o + [a], a) == o[|o| - 1]
  {
  }

  lemma NextWithout(o: seq<string>, i: nat, b: string)
    requires Distinct(o) && i < |o| && b in o && b != o[i]
    ensures b in Without(o, i)
    ensures NextOf(Without(o, i), b) == if b == PrevOf(o, o[i]) then NextOf(o, o[i]) else NextOf(o, b)
  {
    hide IndexOf;
    var o', j, n := Without(o, i), IndexOf(o, b), |o|;
    WithoutMembers(o, i);
    assert |o'| == n - 1 && forall k :: 0 <= k < n - 1 ==> o'[k] == if k < i then o[k] else o[k + 1];
    hide Without;
    IndexUnique(o, i);
    IndexUnique(o', if j < i then j else j - 1);
    assert b == PrevOf(o, o[i]) <==> (if i == 0 then j == n - 1 else j == i - 1);
  }

  // ---------- what a batch of instructions changes ----------

  lemma {:induction false} LastOfAppended(a: seq<Sent>, b: seq<Sent>, fd: int)
    ensures LastBackup(a + b, fd) == if LastBackup(b, fd).Some? then LastBackup(b, fd) else LastBackup(a, fd)
    ensures LastHash(a + b, fd) == if LastHash(b, fd).Some? then LastHash(b, fd) else LastHash(a, fd)
    decreases |b|
  {
    if b == [] {
      assert a + b == a;
    } else {
      LastOfAppended(a, b[..|b| - 1], fd);
      assert (a + b)[..|a + b| - 1] == a + b[..|b| - 1];
    }
  }

  lemma {:induction false} NoBackup(b: seq<Sent>, fd: int)
    requires forall i :: 0 <= i < |b| ==> !b[i].msg.UpdateBackup?
    ensures LastBackup(b, fd).None?
    decreases |b|
  {
    if b != [] { NoBackup(b[..|b| - 1], fd); }
  }

  lemma {:induction false} NoHash(b: seq<Sent>, fd: int)
    requires forall i :: 0 <= i < |b| ==> !b[i].msg.UpdateHash?
    ensures LastHash(b, fd).None?
    decreases |b|
  {
    if b != [] { NoHash(b[..|b| - 1], fd); }
  }

  lemma {:induction false} HashNoticed(fds: seq<int>, addrs: seq<string>, fd: int)
    requires fd in fds
    ensures LastHash(Notices(fds, UpdateHash(addrs)), fd) == Some(addrs)
    decreases |fds|
  {
    var b, n := Notices(fds, UpdateHash(addrs)), |fds| - 1;
    if fds[n] != fd {
      HashNoticed(fds[..n], addrs, fd);
      assert b[..n] == Notices(fds[..n], UpdateHash(addrs));
    }
  }

  /** A hash round followed by anything without hash messages, and a tail of backup instructions. */
  lemma AfterRound(sent: seq<Sent>, listen: map<int, string>, m: seq<Sent>, tail: seq<Sent>, fd: int)
    requires forall i :: 0 <= i < |m| ==> m[i].msg == MoveData
    requires forall i :: 0 <= i < |tail| ==> !tail[i].msg.UpdateHash?
    ensures var sent' := sent + HashRound(listen) + m + tail;
      && (LastBackup(sent', fd) == if LastBackup(tail, fd).Some? then LastBackup(tail, fd) else LastBackup(sent, fd))
      && (fd in listen ==> LastHash(sent', fd) == Some(Table(listen)))
  {
    var h := HashRound(listen);
    LastOfAppended(sent + h + m, tail, fd);
    LastOfAppended(sent + h, m, fd);
    LastOfAppended(sent, h, fd);
    NoBackup(h, fd);
    NoBackup(m, fd);
    NoHash(m, fd);
    NoHash(tail, fd);
    AscendingElements(listen.Keys);
    if fd in listen {
      assert fd in Elements(Ascending(listen.Keys));
      HashNoticed(Ascending(listen.Keys), Table(listen), fd);
    }
  }

  lemma TwoBackups(f: int, a: string, g: int, b: string, fd: int)
    ensures LastBackup([Sent(f, UpdateBackup(a)), Sent(g, UpdateBackup(b))], fd)
      == if fd == g then Some(b) else if fd == f then Some(a) else None
  {
    var s := [Sent(f, UpdateBackup(a)), Sent(g, UpdateBackup(b))];
    var r := [Sent(f, UpdateBackup(a))];
    assert s[..1] == r && r[..0] == [];
    assert LastBackup(r, fd) == if fd == f then Some(a) else LastBackup([], fd);
  }

  // ---------- every step keeps the invariant ----------

  lemma RegisterKeepsHash(s: State, fd: int, listenAddr: string, m: seq<Sent>)
    requires Consistent(s) && Enabled(s, Register(fd, listenAddr)) && MoveRound(m, s.registed)
    ensures HashCurrent(AfterRegister(s, fd, listenAddr, m))
  {
    hide LastBackup, LastHash, NextOf, PrevOf, HashRound, MoveRound, Consistent;
    var t := Joined(s, fd, listenAddr);
    JoinedConsistent(s, fd, listenAddr);
    MovesOnly(m, s.registed);
    forall g | g in t.listen
      ensures LastHash(AfterRegister(s, fd, listenAddr, m).sent, g) == Some(Table(t.listen))
    {
      AfterRound(s.sent, t.listen, m, RegisterTail(t, fd), g);
    }
  }

  /** With somebody there already, the tail tells the last member of the list and the new one. */
  lemma RegisterTailIs(s: State, fd: int, listenAddr: string)
    requires Consistent(s) && Enabled(s, Register(fd, listenAddr)) && s.order != []
    ensures var t, last := Joined(s, fd, listenAddr), s.order[|s.order| - 1];
      && last in s.registed && s.order[0] in s.registed && s.registed[last] in s.listen && s.registed[s.order[0]] in s.listen
      && s.connected[fd] !in s.order && s.registed[last] != fd
      && Consistent(t) && fd in t.listen && NextOf(t.order, s.connected[fd]) in t.order && PrevOf(t.order, s.connected[fd]) in t.order
      && RegisterTail(t, fd) ==
        [Sent(s.registed[last], UpdateBackup(listenAddr)), Sent(fd, UpdateBackup(s.listen[s.registed[s.order[0]]]))]
  {
    JoinedConsistent(s, fd, listenAddr);
    Registered(s, fd);
    NextAppended(s.order, s.connected[fd], s.order[0]);
    hide NextOf, PrevOf, IndexOf;
  }

  /** What each descriptor was last told after a registration. */
  lemma RegisterSays(s: State, fd: int, listenAddr: string, m: seq<Sent>, g: int)
    requires Consistent(s) && Enabled(s, Register(fd, listenAddr)) && MoveRound(m, s.registed) && s.order != []
    ensures s.order[|s.order| - 1] in s.registed && s.order[0] in s.registed && s.registed[s.order[0]] in s.listen
    ensures LastBackup(AfterRegister(s, fd, listenAddr, m).sent, g) ==
      if g == fd then Some(s.listen[s.registed[s.order[0]]])
      else if g == s.registed[s.order[|s.order| - 1]] then Some(listenAddr)
      else LastBackup(s.sent, g)
  {
    hide LastBackup, LastHash, NextOf, PrevOf, MoveRound, HashRound, RegisterTail;
    var t, last := Joined(s, fd, listenAddr), s.order[|s.order| - 1];
    RegisterTailIs(s, fd, listenAddr);
    MovesOnly(m, s.registed);
    AfterRound(s.sent, t.listen, m, RegisterTail(t, fd), g);
    TwoBackups(s.registed[last], listenAddr, fd, s.listen[s.registed[s.order[0]]], g);
  }

  lemma RegisterBackup(s: State, fd: int, listenAddr: string, m: seq<Sent>, b: string)
    requires Inv(s) && Enabled(s, Register(fd, listenAddr)) && MoveRound(m, s.registed)
    requires s.order != [] && b in s.order + [s.connected[fd]]
    ensures ToldRight(AfterRegister(s, fd, listenAddr, m), b)
  {
    hide LastBackup, LastHash, NextOf, PrevOf, MoveRound, HashRound, RegisterTail, Consistent;
    var t, a, last := Joined(s, fd, listenAddr), s.connected[fd], s.order[|s.order| - 1];
    RegisterTailIs(s, fd, listenAddr);
    MemberReads(s, last);
    if b == a {
      RegisterSays(s, fd, listenAddr, m, fd);
      NextAppended(s.order, a, s.order[0]);
    } else {
      MemberReads(s, b);
      RegisterSays(s, fd, listenAddr, m, s.registed[b]);
      NextAppended(s.order, a, b);
      if b != last {
        assert b == s.order[IndexOf(s.order, b)];
        assert ToldRight(s, b);
      }
    }
  }

  lemma MemberReads(s: State, b: string)
    requires Consistent(s) && b in s.order
    ensures Distinct(s.order) && b in s.registed && s.registed[b] in s.listen
    ensures NextOf(s.order, b) in s.order && NextOf(s.order, b) in s.registed && s.registed[NextOf(s.order, b)] in s.listen
    ensures forall c :: c in s.order && c != b ==> c in s.registed && s.registed[c] != s.registed[b]
    ensures s.registed[b] in s.connected && s.connected[s.registed[b]] == b
  {
  }

  lemma RegisterKeepsBackups(s: State, fd: int, listenAddr: string, m: seq<Sent>)
    requires Inv(s) && Enabled(s, Register(fd, listenAddr)) && MoveRound(m, s.registed)
    requires Consistent(AfterRegister(s, fd, listenAddr, m))
    ensures BackedUp(AfterRegister(s, fd, listenAddr, m))
  {
    hide LastBackup, LastHash, IndexOf, NextOf, PrevOf, MoveRound, HashRound, RegisterTail;
    var s' := AfterRegister(s, fd, listenAddr, m);
    if |s'.order| >= 2 {
      forall b | b in s'.order ensures ToldRight(s', b) {
        RegisterBackup(s, fd, listenAddr, m, b);
      }
    }
  }

  lemma MovesOnly(m: seq<Sent>, registed: map<string, int>)
    requires MoveRound(m, registed)
    ensures forall i :: 0 <= i < |m| ==> m[i].msg == MoveData
  {
  }

  lemma OneBackup(f: int, g: int, b: string, fd: int)
    ensures var r := [Sent(f, RecoverBackup), Sent(g, UpdateBackup(b))];
      LastBackup(r, fd) == (if fd == g then Some(b) else None) && LastHash(r, fd) == None
  {
    var r := [Sent(f, RecoverBackup), Sent(g, UpdateBackup(b))];
    NoBackup(r[..1], fd);
    NoHash(r, fd);
  }

  lemma DisconnectSays(s: State, fd: int, g: int)
    requires Consistent(s) && Enabled(s, Disconnect(fd)) && s.connected[fd] in s.order
    ensures var a, s' := s.connected[fd], AfterDisconnect(s, fd);
      && NextOf(s.order, a) in s.registed && PrevOf(s.order, a) in s.registed
      && (g in s'.listen ==> LastHash(s'.sent, g) == Some(Table(s'.listen)))
      && var p, n := s.registed[PrevOf(s.order, a)], s.registed[NextOf(s.order, a)];
        && (n != fd && p != fd ==>
          (n in s.listen && LastBackup(s'.sent, g) == if g == p then Some(s.listen[n]) else LastBackup(s.sent, g)))
  {
    hide LastBackup, LastHash, NextOf, PrevOf, HashRound, IndexOf;
    var a, t := s.connected[fd], Left(s, fd);
    NeighboursIn(s, a);
    LeftNeighbours(s, fd);
    var p, n := s.registed[PrevOf(s.order, a)], s.registed[NextOf(s.order, a)];
    AfterRound(s.sent, t.listen, [], DisconnectTail(s, fd), g);
    assert s.sent + HashRound(t.listen) + [] == s.sent + HashRound(t.listen);
    if n != fd && p != fd {
      OneBackup(n, p, t.listen[n], g);
    }
  }

  lemma DisconnectBackup(s: State, fd: int, b: string)
    requires Inv(s) && Enabled(s, Disconnect(fd)) && s.connected[fd] in s.order
    requires b in s.order && b != s.connected[fd] && |s.order| >= 3
    requires Consistent(AfterDisconnect(s, fd))
    ensures ToldRight(AfterDisconnect(s, fd), b)
  {
    hide LastBackup, LastHash, NextOf, PrevOf, HashRound, Consistent, Table;
    var a, s' := s.connected[fd], AfterDisconnect(s, fd);
    var p, n := PrevOf(s.order, a), NextOf(s.order, a);
    Registered(s, fd);
    NeighboursIn(s, a);
    NeighboursIn(s, b);
    MemberReads(s, a);
    MemberReads(s, b);
    NotAlone(s.order, a);
    MemberReads(s, p);
    DisconnectSays(s, fd, s.registed[b]);
    NextWithout(s.order, IndexOf(s.order, a), b);
    NeighboursIn(s', b);
    MemberReads(s', b);
    if b != p {
      assert ToldRight(s, b);
    }
  }

  lemma NotAlone(o: seq<string>, a: string)
    requires Distinct(o) && a in o && |o| >= 2
    ensures NextOf(o, a) != a && PrevOf(o, a) != a
  {
  }

  lemma LeftMembers(s: State, fd: int)
    requires Consistent(s) && Enabled(s, Disconnect(fd)) && s.connected[fd] in s.order
    ensures var o := AfterDisconnect(s, fd).order;
      |o| == |s.order| - 1 && forall b :: b in o ==> b in s.order && b != s.connected[fd]
  {
    WithoutMembers(s.order, IndexOf(s.order, s.connected[fd]));
  }

  lemma DisconnectKeepsBackups(s: State, fd: int)
    requires Inv(s) && Enabled(s, Disconnect(fd)) && s.connected[fd] in s.order
    requires Consistent(AfterDisconnect(s, fd))
    ensures BackedUp(AfterDisconnect(s, fd))
  {
    hide LastBackup, LastHash, NextOf, PrevOf, HashRound, Table, Consistent;
    var s' := AfterDisconnect(s, fd);
    LeftMembers(s, fd);
    hide AfterDisconnect, Inv;
    if |s'.order| >= 2 {
      forall b | b in s'.order ensures ToldRight(s', b) {
        DisconnectBackup(s, fd, b);
      }
    }
  }

  lemma DisconnectKeepsHash(s: State, fd: int)
    requires Consistent(s) && Enabled(s, Disconnect(fd)) && s.connected[fd] in s.order
    ensures HashCurrent(AfterDisconnect(s, fd))
  {
    hide LastBackup, LastHash, NextOf, PrevOf, HashRound, Table, Consistent;
    var s' := AfterDisconnect(s, fd);
    forall g | g in s'.listen ensures LastHash(s'.sent, g) == Some(Table(s'.listen)) {
      DisconnectSays(s, fd, g);
    }
  }

  lemma DisconnectKeeps(s: State, fd: int)
    requires Inv(s) && Enabled(s, Disconnect(fd))
    ensures Inv(AfterDisconnect(s, fd))
  {
    if s.connected[fd] in s.order {
      LeftConsistent(s, fd);
      LeftSame(s, fd);
      DisconnectKeepsHash(s, fd);
      DisconnectKeepsBackups(s, fd);
      hide *;
    }
  }

  lemma LeftSame(s: State, fd: int)
    requires Consistent(s) && Enabled(s, Disconnect(fd)) && s.connected[fd] in s.order
    requires Consistent(Left(s, fd))
    ensures Consistent(AfterDisconnect(s, fd))
  {
  }

  lemma ConnectKeeps(s: State, fd: int, addr: string)
    requires Inv(s) && Enabled(s, Connect(fd, addr))
    ensures Inv(Connected(s, fd, addr))
  {
    hide LastBackup, LastHash, NextOf, PrevOf, IndexOf;
  }

  /** Every step that may happen keeps the invariant. */
  lemma StepKeeps(s: State, e: Event, s': State)
    requires Inv(s) && Next(s, e, s')
    ensures Inv(s')
  {
    hide LastBackup, LastHash, NextOf, PrevOf, IndexOf, HashRound, MoveRound, RegisterTail, Consistent, BackedUp, HashCurrent;
    match e
    case Connect(fd, addr) => ConnectKeeps(s, fd, addr);
    case Disconnect(fd) => DisconnectKeeps(s, fd);
    case Register(fd, listenAddr) =>
      var m :| MoveRound(m, s.registed) && s' == AfterRegister(s, fd, listenAddr, m);
      RegisterKeeps(s, fd, listenAddr, m);
  }

  lemma RegisterKeeps(s: State, fd: int, listenAddr: string, m: seq<Sent>)
    requires Inv(s) && Enabled(s, Register(fd, listenAddr)) && MoveRound(m, s.registed)
    ensures Inv(AfterRegister(s, fd, listenAddr, m))
  {
    hide LastBackup, LastHash, NextOf, PrevOf, IndexOf, HashRound, MoveRound, RegisterTail;
    JoinedConsistent(s, fd, listenAddr);
    RegisterKeepsHash(s, fd, listenAddr, m);
    assert Consistent(AfterRegister(s, fd, listenAddr, m));
    RegisterKeepsBackups(s, fd, listenAddr, m);
  }

  lemma InitInv()
    ensures Inv(INIT)
  {
  }

  // ---------- whole runs ----------

  /** A run: the states passed through and the events between them, each allowed where it happens. */
  ghost predicate Run(states: seq<State>, events: seq<Event>) {
    && |states| == |events| + 1 && states[0] == INIT
    && forall i :: 0 <= i < |events| ==> Next(states[i], events[i], states[i + 1])
  }

  /** In every state of every run: the maps agree, each member's last backup instruction names its
      present successor when there are two or more, and each member was last sent the present table. */
  lemma {:induction false} RunsKeep(states: seq<State>, events: seq<Event>, k: nat)
    requires Run(states, events) && k < |states|
    ensures Inv(states[k])
  {
    if k > 0 {
      RunsKeep(states, events, k - 1);
      StepKeeps(states[k - 1], events[k - 1], states[k]);
    }
  }

  // ---------- the table and the master's own ring ----------

  lemma TableElements(listen: map<int, string>)
    ensures Elements(Table(listen)) == Owners(listen)
  {
    var fds := Ascending(listen.Keys);
    AscendingElements(listen.Keys);
    forall a | a in Owners(listen) ensures a in Table(listen) {
      var fd :| fd in listen && listen[fd] == a;
      assert fd in Elements(fds);
      var i :| 0 <= i < |fds| && fds[i] == fd;
      assert Table(listen)[i] == a;
    }
    forall a | a in Table(listen) ensures a in Owners(listen) {
      var i :| 0 <= i < |fds| && Table(listen)[i] == a;
      assert fds[i] in Elements(fds);
    }
  }

  /** As long as nobody disconnects, the listen table holds just the addresses that joined the master's
      ring, as many times. */
  lemma {:induction false} JoinedStay(states: seq<State>, events: seq<Event>, k: nat)
    requires Run(states, events) && k < |states|
    requires forall i :: 0 <= i < |events| ==> !events[i].Disconnect?
    ensures Elements(states[k].joined) == Owners(states[k].listen) && |states[k].joined| == |states[k].listen|
  {
    if k > 0 {
      JoinedStay(states, events, k - 1);
      RunsKeep(states, events, k - 1);
      var s, s' := states[k - 1], states[k];
      assert Next(s, events[k - 1], s');
      if events[k - 1].Register? {
        RegisterGrows(s, events[k - 1].fd, events[k - 1].listenAddr, s');
      }
    }
  }

  lemma RegisterGrows(s: State, fd: int, listenAddr: string, s': State)
    requires Consistent(s) && Next(s, Register(fd, listenAddr), s')
    ensures s'.joined == s.joined + [listenAddr]
    ensures Elements(s'.joined) == Elements(s.joined) + {listenAddr}
    ensures Owners(s'.listen) == Owners(s.listen) + {listenAddr} && |s'.listen| == |s.listen| + 1
  {
    RegisterFields(s, fd, listenAddr, s');
    hide Consistent, Next;
    OwnersGrow(s.listen, fd, listenAddr);
  }

  lemma RegisterFields(s: State, fd: int, listenAddr: string, s': State)
    requires Consistent(s) && Next(s, Register(fd, listenAddr), s')
    ensures s'.listen == s.listen[fd := listenAddr] && s'.joined == s.joined + [listenAddr] && fd !in s.listen
  {
    hide Consistent, HashRound, RegisterTail;
  }

  lemma OwnersGrow(listen: map<int, string>, fd: int, a: string)
    requires fd !in listen
    ensures Owners(listen[fd := a]) == Owners(listen) + {a}
  {
    var m := listen[fd := a];
    assert m[fd] == a;
    forall b | b in Owners(listen) ensures b in Owners(m) {
      var g :| g in listen && listen[g] == b;
      assert m[g] == b;
    }
  }

  // ---------- runs from arriving events ----------

  /** `states` and `taken` are what comes of the events arriving one after the other: each is taken exactly
      when it may happen in the state in which it arrives. */
  ghost predicate Played(events: seq<Event>, states: seq<State>, taken: seq<Event>)
    decreases |events|, 0
  {
    if events == [] then states == [INIT] && taken == []
    else
      var n, e := |events| - 1, events[|events| - 1];
      || PlayedOn(events[..n], states, taken, e)
      || (Played(events[..n], states, taken) && states != [] && !Enabled(states[|states| - 1], e))
  }

  ghost predicate PlayedOn(before: seq<Event>, states: seq<State>, taken: seq<Event>, e: Event)
    decreases |before|, 1
  {
    && |states| >= 2 && taken != [] && taken[|taken| - 1] == e
    && Next(states[|states| - 2], e, states[|states| - 1])
    && Played(before, states[..|states| - 1], taken[..|taken| - 1])
  }

  /** One more event is taken, with a step, when it may happen, and else left out. */
  lemma PlayedStep(before: seq<Event>, e: Event, states: seq<State>, taken: seq<Event>)
    requires Played(before + [e], states, taken)
    ensures states != []
    ensures
      || (&& taken != [] && taken[|taken| - 1] == e && |states| >= 2
          && Played(before, states[..|states| - 1], taken[..|taken| - 1])
          && Next(states[|states| - 2], e, states[|states| - 1]))
      || (Played(before, states, taken) && !Enabled(states[|states| - 1], e))
  {
    hide Next, Enabled;
    assert (before + [e])[..|before|] == before;
  }

  lemma {:induction false} PlayedRun(events: seq<Event>, states: seq<State>, taken: seq<Event>)
    requires Played(events, states, taken)
    ensures Run(states, taken)
    decreases |events|
  {
    if events != [] {
      var n, e := |events| - 1, events[|events| - 1];
      if PlayedOn(events[..n], states, taken, e) {
        var ss, ts := states[..|states| - 1], taken[..|taken| - 1];
        PlayedRun(events[..n], ss, ts);
        RunGrows(ss, ts, e, states[|states| - 1]);
        assert states == ss + [states[|states| - 1]] && taken == ts + [e];
      } else {
        PlayedRun(events[..n], states, taken);
      }
    }
  }

  lemma RunGrows(states: seq<State>, events: seq<Event>, e: Event, s: State)
    requires Run(states, events) && Next(states[|states| - 1], e, s)
    ensures Run(states + [s], events + [e])
  {
    hide Next;
  }
}
