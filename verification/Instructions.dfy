/** What the master sends in each step of the membership protocol, to whom and in which order. */
module Instructions {
  import opened Membership
  import opened Options
  import opened RingSpec
  import opened Sequences
  import opened ServerList

  // ---------- the rounds ----------

  lemma {:induction false} AscendingSorted(ks: set<int>)
    ensures var s := Ascending(ks); forall i, j :: 0 <= i < j < |s| ==> s[i] < s[j]
    decreases |ks|
  {
    if exists x :: x in ks {
      var rest := ks - {Least(ks)};
      AscendingSorted(rest);
      AscendingElements(rest);
      forall j | 0 <= j < |Ascending(rest)| ensures Least(ks) < Ascending(rest)[j] {
        assert Ascending(rest)[j] in Elements(Ascending(rest));
      }
    }
  }

  /** One update_hash to each listed descriptor, in ascending order, with the listen addresses in that order. */
  ghost predicate TableRound(h: seq<Sent>, listen: map<int, string>) {
    && |h| == |listen|
    && (forall i, j :: 0 <= i < j < |h| ==> h[i].fd < h[j].fd)
    && (forall i :: 0 <= i < |h| ==> h[i].fd in listen && h[i].msg.UpdateHash? && |h[i].msg.addrs| == |h|)
    && (forall i, k :: 0 <= i < |h| && 0 <= k < |h| ==> h[i].msg.addrs[k] == listen[h[k].fd])
  }

  lemma HashRoundIs(listen: map<int, string>)
    ensures TableRound(HashRound(listen), listen)
  {
    var fds := Ascending(listen.Keys);
    AscendingSorted(listen.Keys);
    AscendingElements(listen.Keys);
    assert |listen.Keys| == |listen|;
    forall i | 0 <= i < |fds| ensures fds[i] in listen {
      assert fds[i] in Elements(fds);
    }
  }

  /** One move_data to each descriptor that is registered, and nothing else. */
  ghost predicate MovesTo(m: seq<Sent>, registed: map<string, int>) {
    && (forall i :: 0 <= i < |m| ==> m[i].msg == MoveData && exists a :: a in registed && registed[a] == m[i].fd)
    && (forall a :: a in registed ==> exists i :: 0 <= i < |m| && m[i].fd == registed[a])
    && (forall i, j :: 0 <= i < j < |m| ==> m[i].fd != m[j].fd)
  }

  lemma MoveRoundIs(s: State, m: seq<Sent>)
    requires Consistent(s) && MoveRound(m, s.registed)
    ensures MovesTo(m, s.registed)
  {
    forall a | a in s.registed ensures exists i :: 0 <= i < |m| && m[i].fd == s.registed[a] {
      var i :| 0 <= i < |m| && m[i] == Sent(s.registed[a], MoveData);
    }
    var moved := set a | a in s.registed :: Sent(s.registed[a], MoveData);
    assert moved == Elements(m);
    SizeOfImage(s, s.registed.Keys);
    ElementsSize(m);
    assert |s.registed.Keys| == |s.registed|;
    forall i, j | 0 <= i < j < |m| ensures m[i].fd != m[j].fd {
      assert m[i] != m[j];
    }
  }

  /** Different addresses have different descriptors. */
  lemma {:induction false} SizeOfImage(s: State, addrs: set<string>)
    requires Consistent(s) && addrs <= s.registed.Keys
    ensures |set a | a in addrs :: Sent(s.registed[a], MoveData)| == |addrs|
    decreases |addrs|
  {
    var image := set a | a in addrs :: Sent(s.registed[a], MoveData);
    if a :| a in addrs {
      var rest := addrs - {a};
      SizeOfImage(s, rest);
      var less := set b | b in rest :: Sent(s.registed[b], MoveData);
      assert Sent(s.registed[a], MoveData) !in less;
      assert image == less + {Sent(s.registed[a], MoveData)};
      assert |addrs| == |rest| + 1;
    } else {
      assert addrs == {} && image == {};
    }
  }

  // ---------- the last instruction of a kind ----------

  /** `sent[i]` is the last update_hash to `fd`. */
  ghost predicate HashAt(sent: seq<Sent>, fd: int, i: nat) {
    && i < |sent| && sent[i].fd == fd && sent[i].msg.UpdateHash?
    && forall j :: i < j < |sent| ==> !(sent[j].fd == fd && sent[j].msg.UpdateHash?)
  }

  /** `sent[i]` is the last update_backup to `fd`. */
  ghost predicate BackupAt(sent: seq<Sent>, fd: int, i: nat) {
    && i < |sent| && sent[i].fd == fd && sent[i].msg.UpdateBackup?
    && forall j :: i < j < |sent| ==> !(sent[j].fd == fd && sent[j].msg.UpdateBackup?)
  }

  lemma {:induction false} LastHashMeans(sent: seq<Sent>, fd: int, i: nat)
    requires HashAt(sent, fd, i)
    ensures LastHash(sent, fd) == Some(sent[i].msg.addrs)
    decreases |sent|
  {
    if i < |sent| - 1 {
      LastHashMeans(sent[..|sent| - 1], fd, i);
    }
  }

  lemma {:induction false} LastBackupMeans(sent: seq<Sent>, fd: int, i: nat)
    requires BackupAt(sent, fd, i)
    ensures LastBackup(sent, fd) == Some(sent[i].msg.addr)
    decreases |sent|
  {
    if i < |sent| - 1 {
      LastBackupMeans(sent[..|sent| - 1], fd, i);
    }
  }

  // ---------- the steps ----------

  /** Nothing is sent to a peer that connects. */
  lemma ConnectSends(s: State, fd: int, addr: string, s': State)
    requires Consistent(s) && Next(s, Connect(fd, addr), s')
    ensures s'.connected == if fd in s.connected then s.connected else s.connected[fd := addr]
    ensures s' == s.(connected := s'.connected)
  {
    hide Consistent;
  }

  /** A registration: first the table to all, then move_data to those that were there, and last, unless the
      server is alone, the backups of the last member and of the new one. */
  lemma RegisterSends(s: State, fd: int, listenAddr: string, s': State) returns (h: seq<Sent>, m: seq<Sent>, t: seq<Sent>)
    requires Consistent(s) && Next(s, Register(fd, listenAddr), s')
    ensures s'.sent == s.sent + h + m + t
    ensures TableRound(h, s'.listen) && MovesTo(m, s.registed)
    ensures s.order == [] ==> t == []
    ensures s.order != [] ==> var first, last := s.order[0], s.order[|s.order| - 1];
      && first in s.registed && last in s.registed && s.registed[first] in s.listen
      && t == [Sent(s.registed[last], UpdateBackup(listenAddr)), Sent(fd, UpdateBackup(s.listen[s.registed[first]]))]
    ensures s'.connected == s.connected && s'.listen == s.listen[fd := listenAddr]
    ensures s'.registed == s.registed[s.connected[fd] := fd]
    ensures s'.order == s.order + [s.connected[fd]] && s'.joined == s.joined + [listenAddr]
  {
    hide MoveRound, HashRound, RegisterTail, Consistent, TableRound, MovesTo;
    m :| MoveRound(m, s.registed) && s' == AfterRegister(s, fd, listenAddr, m);
    var u := Joined(s, fd, listenAddr);
    JoinedConsistent(s, fd, listenAddr);
    h, t := HashRound(u.listen), RegisterTail(u, fd);
    HashRoundIs(u.listen);
    MoveRoundIs(s, m);
    if s.order == [] {
      AloneTail(s, fd, listenAddr);
    } else {
      RegisterTailIs(s, fd, listenAddr);
    }
  }

  lemma AloneTail(s: State, fd: int, listenAddr: string)
    requires Consistent(s) && Enabled(s, Register(fd, listenAddr)) && s.order == []
    ensures var t := Joined(s, fd, listenAddr);
      Consistent(t) && fd in t.listen && NextOf(t.order, s.connected[fd]) in t.order && PrevOf(t.order, s.connected[fd]) in t.order
      && RegisterTail(t, fd) == []
  {
    JoinedConsistent(s, fd, listenAddr);
    assert Joined(s, fd, listenAddr).order == [s.connected[fd]];
  }

  /** A registered server leaves: the table to those that stay, and, unless there are none, one recover_backup
      to its successor and one update_backup to its predecessor. */
  lemma DisconnectSends(s: State, fd: int, s': State) returns (h: seq<Sent>, t: seq<Sent>)
    requires Consistent(s) && Next(s, Disconnect(fd), s')
    ensures fd !in s.listen ==> s' == s
    ensures fd in s.listen ==>
      && s'.sent == s.sent + h + t && TableRound(h, s'.listen)
      && s'.connected == s.connected - {fd} && s'.listen == s.listen - {fd} && s'.joined == s.joined
      && s.connected[fd] in s.order && s'.registed == s.registed - {s.connected[fd]}
      && s'.order == Without(s.order, IndexOf(s.order, s.connected[fd]))
      && (|s.order| == 1 ==> t == [])
    ensures fd in s.listen && |s.order| >= 2 ==> var a := s.connected[fd];
      && NextOf(s.order, a) in s.registed && PrevOf(s.order, a) in s.registed
      && var n, p := s.registed[NextOf(s.order, a)], s.registed[PrevOf(s.order, a)];
        && n in s'.listen && p in s'.listen
        && t == [Sent(n, RecoverBackup), Sent(p, UpdateBackup(s.listen[n]))]
  {
    hide HashRound, TableRound;
    Registered(s, fd);
    if fd in s.listen {
      var u, a := Left(s, fd), s.connected[fd];
      h, t := HashRound(u.listen), DisconnectTail(s, fd);
      HashRoundIs(u.listen);
      LeftNeighbours(s, fd);
      MemberReads(s, a);
      if |s.order| >= 2 {
        NotAlone(s.order, a);
        NeighboursIn(s, a);
      }
    } else {
      h, t := [], [];
    }
  }

  // ---------- who recovers a backup ----------

  /** Who has been told to recover its backup, in order. */
  function Recoveries(sent: seq<Sent>): seq<int> {
    if sent == [] then [] else
      Recoveries(sent[..|sent| - 1]) + if sent[|sent| - 1].msg.RecoverBackup? then [sent[|sent| - 1].fd] else []
  }

  lemma {:induction false} RecoveriesAppend(a: seq<Sent>, b: seq<Sent>)
    ensures Recoveries(a + b) == Recoveries(a) + Recoveries(b)
    decreases |b|
  {
    if b == [] {
      assert a + b == a;
    } else {
      RecoveriesAppend(a, b[..|b| - 1]);
      assert (a + b)[..|a + b| - 1] == a + b[..|b| - 1];
    }
  }

  lemma {:induction false} NoRecoveries(b: seq<Sent>)
    requires forall i :: 0 <= i < |b| ==> !b[i].msg.RecoverBackup?
    ensures Recoveries(b) == []
    decreases |b|
  {
    if b != [] {
      NoRecoveries(b[..|b| - 1]);
    }
  }

  /** Exactly the departure of one server of two or more has a backup recovered, by the server that the departed
      one was last told to back up to, which is its successor and stays. */
  lemma RecoveryStep(s: State, e: Event, s': State)
    requires Inv(s) && Next(s, e, s')
    ensures !(e.Disconnect? && e.fd in s.listen && |s.order| >= 2) ==> Recoveries(s'.sent) == Recoveries(s.sent)
    ensures e.Disconnect? && e.fd in s.listen && |s.order| >= 2 ==>
      && s.connected[e.fd] in s.order && NextOf(s.order, s.connected[e.fd]) in s.registed
      && var g := s.registed[NextOf(s.order, s.connected[e.fd])];
        && g in s'.listen && g in s.listen
        && Recoveries(s'.sent) == Recoveries(s.sent) + [g]
        && LastBackup(s.sent, e.fd) == Some(s.listen[g])
  {
    hide *;
    InvParts(s);
    match e
    case Connect(fd, addr) => ConnectSends(s, fd, addr, s');
    case Register(fd, listenAddr) => RegisterRecovers(s, fd, listenAddr, s');
    case Disconnect(fd) => DisconnectRecovers(s, fd, s');
  }

  lemma InvParts(s: State)
    requires Inv(s)
    ensures Consistent(s) && BackedUp(s)
  {
  }

  lemma RegisterRecovers(s: State, fd: int, listenAddr: string, s': State)
    requires Consistent(s) && Next(s, Register(fd, listenAddr), s')
    ensures Recoveries(s'.sent) == Recoveries(s.sent)
  {
    hide Consistent, Next, Recoveries;
    var h, m, t := RegisterSends(s, fd, listenAddr, s');
    RecoveriesAppend(s.sent + h + m, t);
    RecoveriesAppend(s.sent + h, m);
    RecoveriesAppend(s.sent, h);
    NoRecoveries(h);
    NoRecoveries(m);
    NoRecoveries(t);
  }

  lemma DisconnectRecovers(s: State, fd: int, s': State)
    requires Inv(s) && Next(s, Disconnect(fd), s')
    ensures fd !in s.listen || |s.order| < 2 ==> Recoveries(s'.sent) == Recoveries(s.sent)
    ensures fd in s.listen && |s.order| >= 2 ==>
      && s.connected[fd] in s.order && NextOf(s.order, s.connected[fd]) in s.registed
      && var g := s.registed[NextOf(s.order, s.connected[fd])];
        && g in s'.listen && g in s.listen
        && Recoveries(s'.sent) == Recoveries(s.sent) + [g]
        && LastBackup(s.sent, fd) == Some(s.listen[g])
  {
    hide NextOf, PrevOf, IndexOf, LastBackup, Consistent, HashCurrent, Next, Recoveries, TableRound;
    var h, t := DisconnectSends(s, fd, s');
    if fd in s.listen {
      RecoveriesAppend(s.sent + h, t);
      RecoveriesAppend(s.sent, h);
      TableOnly(h, s'.listen);
      NoRecoveries(h);
      ListenedIn(s, fd);
      Registered(s, fd);
      if |s.order| >= 2 {
        var a := s.connected[fd];
        var g, p := s.registed[NextOf(s.order, a)], s.registed[PrevOf(s.order, a)];
        OneRecovery(g, p, s.listen[g]);
        assert ToldRight(s, s.connected[fd]);
      } else {
        NoRecoveries(t);
      }
    }
  }

  lemma ListenedIn(s: State, fd: int)
    requires Consistent(s) && fd in s.listen
    ensures fd in s.connected && s.order != []
  {
    Registered(s, fd);
  }

  lemma TableOnly(h: seq<Sent>, listen: map<int, string>)
    requires TableRound(h, listen)
    ensures forall i :: 0 <= i < |h| ==> h[i].msg.UpdateHash?
  {
  }

  lemma OneRecovery(g: int, p: int, a: string)
    ensures Recoveries([Sent(g, RecoverBackup), Sent(p, UpdateBackup(a))]) == [g]
  {
    var t := [Sent(g, RecoverBackup), Sent(p, UpdateBackup(a))];
    assert t[..1] == [Sent(g, RecoverBackup)] && t[..1][..0] == [];
    assert Recoveries(t[..1]) == [g];
  }

  /** So it is in every step of every run. */
  lemma RunsRecover(states: seq<State>, events: seq<Event>, k: nat)
    requires Run(states, events) && k < |events|
    ensures var s, e, s' := states[k], events[k], states[k + 1];
      && (!(e.Disconnect? && e.fd in s.listen && |s.order| >= 2) ==> Recoveries(s'.sent) == Recoveries(s.sent))
      && (e.Disconnect? && e.fd in s.listen && |s.order| >= 2 ==>
        && e.fd in s.connected && s.connected[e.fd] in s.order && NextOf(s.order, s.connected[e.fd]) in s.registed
        && var g := s.registed[NextOf(s.order, s.connected[e.fd])];
          && g in s'.listen && g in s.listen
          && Recoveries(s'.sent) == Recoveries(s.sent) + [g]
          && LastBackup(s.sent, e.fd) == Some(s.listen[g]))
  {
    RunsKeep(states, events, k);
    RecoveryStep(states[k], events[k], states[k + 1]);
  }
}
