/** When the table of listen addresses no longer fits the buffer of an update_hash. */
module Overflow {
  import opened Agreement
  import opened Membership
  import opened Options
  import opened RingSpec
  import opened Text
  import opened Wire

  /** With addresses as the servers print them, every member's last update_hash is read as the present table,
      and as long as there are at most 45 members it fits the buffer. */
  lemma TableArrives(s: State, fd: int)
    requires Inv(s) && fd in s.listen && AllPrinted(Table(s.listen))
    ensures var last := LastHash(s.sent, fd);
      && last.Some? && '\n' in Encoded(last.value) && Decoded(Encoded(last.value)) == Some(Table(s.listen))
      && (|s.listen| <= 45 ==> |Encoded(last.value)| <= BUFFER)
      && (|Encoded(last.value)| <= BUFFER <==> Room(Table(s.listen)) <= 1011)
  {
    hide Encoded, Decoded;
    PrintedArrives(Table(s.listen));
    TableSize(s.listen);
    FitsIff(Table(s.listen));
  }

  // ---------- a run to 46 members ----------

  /** The connections and the listen addresses of 46 servers. */
  function Peer(i: int): string
    requires 0 <= i < 46
  {
    Address(Socket(192, 168, 100, 100 + i, 40000))
  }

  function Member(i: int): string
    requires 0 <= i < 46
  {
    Address(Socket(192, 168, 100, 100 + i, 50000))
  }

  lemma MemberLong(i: int)
    requires 0 <= i < 46
    ensures |Member(i)| == 21
  {
    DigitsPlain(192);
    DigitsPlain(168);
    DigitsPlain(100);
    DigitsPlain(100 + i);
    DigitsPlain(50000);
    hide Digits;
  }

  lemma PeersDiffer(i: int, j: int)
    requires 0 <= i < 46 && 0 <= j < 46 && Peer(i) == Peer(j)
    ensures i == j
  {
    AddressInjective(Socket(192, 168, 100, 100 + i, 40000), Socket(192, 168, 100, 100 + j, 40000));
  }

  /** `n` servers are connected and registered, with descriptors from 0. */
  ghost predicate Gathered(s: State, n: nat)
    requires n <= 46
  {
    && (forall fd :: fd in s.connected <==> 0 <= fd < n)
    && (forall fd :: fd in s.connected ==> s.connected[fd] == Peer(fd))
    && (forall fd :: fd in s.listen <==> 0 <= fd < n)
    && (forall fd :: fd in s.listen ==> s.listen[fd] == Member(fd))
    && |s.listen| == n && |s.registed| == n
  }

  function Moves(n: nat): (m: seq<Sent>)
    ensures |m| == n
  {
    seq(n, i requires 0 <= i < n => Sent(i, MoveData))
  }

  lemma MovesRound(s: State, n: nat)
    requires Consistent(s) && |s.registed| == n && forall fd :: fd in s.listen <==> 0 <= fd < n
    ensures MoveRound(Moves(n), s.registed)
  {
    var m := Moves(n);
    forall i | 0 <= i < |m| ensures m[i].msg == MoveData && exists a :: a in s.registed && s.registed[a] == m[i].fd {
      assert i in s.listen;
      var a := s.connected[i];
      assert a in s.registed && s.registed[a] == m[i].fd;
    }
    forall a | a in s.registed ensures Sent(s.registed[a], MoveData) in m {
      assert s.registed[a] in s.listen;
      assert m[s.registed[a]] == Sent(s.registed[a], MoveData);
    }
  }

  lemma NewPeer(s: State, n: nat)
    requires n < 46 && Consistent(s) && Gathered(s, n)
    ensures Enabled(s, Connect(n, Peer(n))) && n !in s.connected && Peer(n) !in s.registed
  {
    hide Peer, Member;
    forall g | g in s.connected ensures s.connected[g] != Peer(n) {
      if Peer(g) == Peer(n) {
        PeersDiffer(g, n);
      }
    }
    assert forall a :: a in s.registed ==> s.connected[s.registed[a]] == a;
  }

  lemma OneMoreGathered(s: State, n: nat, s': State)
    requires n < 46 && Gathered(s, n) && Peer(n) !in s.registed
    requires s'.connected == s.connected[n := Peer(n)] && s'.registed == s.registed[Peer(n) := n]
    requires s'.listen == s.listen[n := Member(n)]
    ensures Gathered(s', n + 1)
  {
    hide Peer, Member;
  }

  lemma OneMore(s: State, n: nat) returns (s1: State, s2: State)
    requires n < 46 && Inv(s) && Gathered(s, n)
    ensures Next(s, Connect(n, Peer(n)), s1) && Next(s1, Register(n, Member(n)), s2)
    ensures Inv(s2) && Gathered(s2, n + 1)
  {
    hide BackedUp, HashCurrent, Consistent, Next, Peer, Member, MoveRound;
    NewPeer(s, n);
    s1 := ConnectStep(s, n, Peer(n));
    MovesRound(s1, n);
    assert Enabled(s1, Register(n, Member(n)));
    s2 := RegisterStep(s1, n, Member(n), Moves(n));
    OneMoreGathered(s, n, s2);
  }

  lemma {:induction false} Gather(n: nat) returns (states: seq<State>, events: seq<Event>)
    requires n <= 46
    ensures Run(states, events) && |events| == 2 * n
    ensures Inv(states[2 * n]) && Gathered(states[2 * n], n)
  {
    hide Inv, Next;
    if n == 0 {
      InitInv();
      states, events := [INIT], [];
    } else {
      states, events := Gather(n - 1);
      var s1, s2 := OneMore(states[2 * n - 2], n - 1);
      RunGrows(states, events, Connect(n - 1, Peer(n - 1)), s1);
      states, events := states + [s1], events + [Connect(n - 1, Peer(n - 1))];
      RunGrows(states, events, Register(n - 1, Member(n - 1)), s2);
      states, events := states + [s2], events + [Register(n - 1, Member(n - 1))];
    }
  }

  lemma TableEntry(s: State, n: nat, k: nat)
    requires n <= 46 && Gathered(s, n) && k < |Table(s.listen)|
    ensures var fd := Ascending(s.listen.Keys)[k]; 0 <= fd < n && Table(s.listen)[k] == Member(fd)
  {
    var fds := Ascending(s.listen.Keys);
    AscendingElements(s.listen.Keys);
    assert fds[k] in Elements(fds);
  }

  /** The table then holds 46 addresses of 21 characters. */
  lemma GatheredTable(s: State)
    requires Gathered(s, 46)
    ensures AllPrinted(Table(s.listen)) && |Encoded(Table(s.listen))| > BUFFER
  {
    var table, fds := Table(s.listen), Ascending(s.listen.Keys);
    TableSize(s.listen);
    forall k | 0 <= k < 46 ensures 0 <= fds[k] < 46 && table[k] == Member(fds[k]) && |table[k]| == 21 {
      TableEntry(s, 46, k);
      MemberLong(fds[k]);
    }
    hide Encoded, Gathered, Table, Address;
    var xs := seq(46, k requires 0 <= k < 46 => Socket(192, 168, 100, 100 + fds[k], 50000));
    assert table == Addresses(xs);
    PrintedArrives(table);
    TooMany(table);
  }

  /** A run after which the text is longer than the buffer: 46 servers connect and register. */
  lemma RunThatOverflows() returns (states: seq<State>, events: seq<Event>)
    ensures Run(states, events) && |events| == 92
    ensures var s := states[92];
      |s.listen| == 46 && AllPrinted(Table(s.listen)) && |Encoded(Table(s.listen))| > BUFFER
  {
    states, events := Gather(46);
    GatheredTable(states[92]);
  }
}
