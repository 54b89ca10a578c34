/** The text of an update_hash instruction: written by `UpdateHash` of master_server/master_service.cpp,
    read by `dealwithMasterMsg` of cache_server/cache_service.cpp. */
module Wire {
  import opened Options
  import opened Sequences
  import opened Text

  const UPDATE_HASH := "update_hash"
  const BUFFER := 1024

  /** Every address followed by a newline. */
  function Lines(addrs: seq<string>): string {
    if addrs == [] then "" else Lines(addrs[..|addrs| - 1]) + addrs[|addrs| - 1] + "\n"
  }

  /** A text as `%s` prints it: up to its first zero. */
  function Cut(s: string): (c: string)
    ensures '\0' !in c && ('\0' !in s ==> c == s)
  {
    if s == "" || s[0] == '\0' then "" else [s[0]] + Cut(s[1..])
  }

  /** The bytes sent: tag, newline, lines, and the terminating zero that `strlen(buf) + 1` includes. */
  function Encoded(addrs: seq<string>): string {
    UPDATE_HASH + "\n" + Cut(Lines(addrs)) + "\0"
  }

  /** What is sent, unless the text is longer than the buffer. */
  method Encode(addrs: seq<string>) returns (bytes: Option<string>)
    ensures bytes == if |Encoded(addrs)| <= BUFFER then Some(Encoded(addrs)) else None
  {
    var msg := "";
    for i := 0 to |addrs|
      invariant msg == Lines(addrs[..i])
    {
      msg := msg + addrs[i];
      msg := msg + "\n";
      assert addrs[..i + 1][..i] == addrs[..i];
    }
    assert addrs[..|addrs|] == addrs;
    var text := UPDATE_HASH + "\n" + Cut(msg) + "\0";
    bytes := if |text| <= BUFFER then Some(text) else None;
  }

  /** What comes before the first newline, and what after it. */
  function Head(s: string): (h: string)
    requires '\n' in s
    ensures |h| < |s| && s == h + "\n" + s[|h| + 1..] && '\n' !in h
  {
    if s[0] == '\n' then "" else [s[0]] + Head(s[1..])
  }

  function Rest(s: string): string
    requires '\n' in s
  {
    s[|Head(s)| + 1..]
  }

  /** The complete lines of a text; what follows the last newline is dropped. */
  function Split(s: string): seq<string> {
    if '\n' in s then [Head(s)] + Split(Rest(s)) else []
  }

  lemma {:induction false} HeadIs(h: string, t: string)
    requires '\n' !in h
    ensures Head(h + "\n" + t) == h && Rest(h + "\n" + t) == t
  {
    var s := h + "\n" + t;
    if h != "" {
      HeadIs(h[1..], t);
      assert s[1..] == h[1..] + "\n" + t;
    }
  }

  lemma SplitLine(h: string, t: string)
    requires '\n' !in h
    ensures Split(h + "\n" + t) == [h] + Split(t)
  {
    HeadIs(h, t);
    assert (h + "\n" + t)[|h|] == '\n';
  }

  lemma SplitNone(h: string)
    requires '\n' !in h
    ensures Split(h) == []
  {
  }

  lemma Regroup<T>(a: seq<T>, b: seq<T>, c: seq<T>, d: seq<T>)
    ensures a + b + c + d == a + (b + c + d)
    ensures a + b + c + d == a + b + (c + d)
  {
  }

  lemma LastOut<T>(s: seq<T>, t: seq<T>)
    requires s != []
    ensures s[..|s| - 1] + ([s[|s| - 1]] + t) == s + t
  {
  }

  lemma LastLine(addrs: seq<string>, t: string)
    requires addrs != []
    ensures var n := |addrs| - 1; Lines(addrs) + t == Lines(addrs[..n]) + (addrs[n] + "\n" + t)
  {
    Regroup(Lines(addrs[..|addrs| - 1]), addrs[|addrs| - 1], "\n", t);
  }

  lemma {:induction false} SplitLines(addrs: seq<string>, t: string)
    requires forall i :: 0 <= i < |addrs| ==> '\n' !in addrs[i]
    ensures Split(Lines(addrs) + t) == addrs + Split(t)
    decreases |addrs|
  {
    if addrs == [] {
      assert Lines(addrs) + t == t;
    } else {
      hide Split, Lines;
      var n := |addrs| - 1;
      LastLine(addrs, t);
      SplitLines(addrs[..n], addrs[n] + "\n" + t);
      SplitLine(addrs[n], t);
      LastOut(addrs, Split(t));
    }
  }

  /** The instruction as read: the list of an update_hash, or nothing for another tag. */
  function Decoded(data: string): Option<seq<string>>
    requires '\n' in data
  {
    if Head(data) == UPDATE_HASH then Some(Split(Rest(data))) else None
  }

  /** The two scanning loops over the zeroed buffer into which `data` was received. */
  method Decode(data: string) returns (r: Option<seq<string>>)
    requires '\n' in data && |data| <= BUFFER
    ensures r == Decoded(data)
  {
    var temp, i := "", 0;
    while data[i] != '\n'
      invariant 0 <= i < |data| && temp == data[..i] && '\n' !in temp
      invariant exists k :: i <= k < |data| && data[k] == '\n'
      decreases |data| - i
    {
      temp := temp + [data[i]];
      i := i + 1;
    }
    assert data == temp + "\n" + data[i + 1..];
    HeadIs(temp, data[i + 1..]);
    if temp != UPDATE_HASH { return None; }
    var ipPorts := ScanLines(data, i + 1);
    r := Some(ipPorts);
  }

  method ScanLines(data: string, start: nat) returns (ipPorts: seq<string>)
    requires start <= |data|
    ensures ipPorts == Split(data[start..])
  {
    hide Split;
    ipPorts := [];
    var temp, i := "", start;
    assert temp + data[i..] == data[start..];
    while i < |data|
      invariant start <= i <= |data| && '\n' !in temp
      invariant Split(data[start..]) == ipPorts + Split(temp + data[i..])
    {
      ghost var rest := data[i + 1..];
      assert data[i..] == [data[i]] + rest;
      if data[i] == '\n' {
        assert temp + data[i..] == temp + "\n" + rest;
        SplitLine(temp, rest);
        assert ipPorts + ([temp] + Split(rest)) == ipPorts + [temp] + Split(rest);
        ipPorts := ipPorts + [temp];
        temp := "";
        assert temp + rest == rest;
      } else {
        assert temp + data[i..] == temp + [data[i]] + rest;
        temp := temp + [data[i]];
      }
      i := i + 1;
    }
    assert temp + data[i..] == temp;
    SplitNone(temp);
  }

  /** An address that a line of the text can hold. */
  predicate Plain(a: string) {
    '\n' !in a && '\0' !in a
  }

  ghost predicate AllPlain(ss: seq<string>) {
    forall i :: 0 <= i < |ss| ==> Plain(ss[i])
  }

  lemma {:induction false} LinesPlain(addrs: seq<string>)
    requires AllPlain(addrs)
    ensures '\0' !in Lines(addrs)
    decreases |addrs|
  {
    if addrs != [] {
      LinesPlain(addrs[..|addrs| - 1]);
    }
  }

  lemma HeadRest(c: string)
    requires '\n' in c && '\0' !in c
    ensures c == Head(c) + "\n" + Rest(c) && |Rest(c)| < |c|
    ensures Plain(Head(c)) && '\0' !in Rest(c)
  {
  }

  lemma PlainFirst(h: string, ss: seq<string>)
    requires Plain(h) && AllPlain(ss)
    ensures AllPlain([h] + ss)
  {
  }

  lemma {:induction false} SplitPlain(c: string)
    requires '\0' !in c
    ensures AllPlain(Split(c + "\0"))
    decreases |c|
  {
    if '\n' in c {
      var h, r := Head(c), Rest(c);
      HeadRest(c);
      SplitPlain(r);
      SplitLine(h, r + "\0");
      Regroup(h, "\n", r, "\0");
      PlainFirst(h, Split(r + "\0"));
      hide *;
      assert c + "\0" == h + "\n" + (r + "\0");
    } else {
      SplitNone(c + "\0");
    }
  }

  /** A text with another tag is not read as an update_hash. */
  lemma OtherTag(tag: string, rest: string)
    requires '\n' !in tag
    ensures '\n' in tag + "\n" + rest
    ensures Decoded(tag + "\n" + rest) == None <==> tag != "update_hash"
  {
    HeadIs(tag, rest);
    assert (tag + "\n" + rest)[|tag|] == '\n';
  }

  /** What goes over the wire: the tag in a line of its own, then each address in a line, and a zero. */
  lemma EncodedIs(addrs: seq<string>, a: string)
    requires AllPlain(addrs) && Plain(a)
    ensures Encoded([]) == "update_hash\n\0"
    ensures Encoded(addrs)[|Encoded(addrs)| - 1] == '\0'
    ensures Encoded(addrs + [a]) == Encoded(addrs)[..|Encoded(addrs)| - 1] + a + "\n\0"
  {
    var more := addrs + [a];
    assert more[..|addrs|] == addrs;
    LinesPlain(addrs);
    LinesPlain(more);
  }

  /** A list of addresses survives the journey exactly when none of them holds a newline or a zero. */
  lemma RoundTrip(addrs: seq<string>)
    ensures '\n' in Encoded(addrs)
    ensures Decoded(Encoded(addrs)) == Some(addrs) <==> AllPlain(addrs)
  {
    var c := Cut(Lines(addrs));
    assert Encoded(addrs) == UPDATE_HASH + "\n" + (c + "\0");
    HeadIs(UPDATE_HASH, c + "\0");
    assert Encoded(addrs)[|UPDATE_HASH|] == '\n';
    assert Decoded(Encoded(addrs)) == Some(Split(c + "\0"));
    SplitPlain(c);
    if AllPlain(addrs) {
      LinesPlain(addrs);
      SplitLines(addrs, "\0");
      assert addrs + [] == addrs;
    }
  }

  // ---------- the buffer ----------

  /** The bytes that the lines need. */
  function Room(addrs: seq<string>): nat {
    if addrs == [] then 0 else Room(addrs[..|addrs| - 1]) + |addrs[|addrs| - 1]| + 1
  }

  lemma {:induction false} LinesRoom(addrs: seq<string>)
    ensures |Lines(addrs)| == Room(addrs)
    decreases |addrs|
  {
    if addrs != [] {
      LinesRoom(addrs[..|addrs| - 1]);
    }
  }

  /** The text of an update_hash fits its buffer exactly when the lines need at most 1011 bytes. */
  lemma FitsIff(addrs: seq<string>)
    requires AllPlain(addrs)
    ensures |Encoded(addrs)| <= BUFFER <==> Room(addrs) <= 1011
  {
    LinesPlain(addrs);
    LinesRoom(addrs);
  }

  lemma {:induction false} RoomAtLeast(addrs: seq<string>, low: nat)
    requires forall i :: 0 <= i < |addrs| ==> low <= |addrs[i]|
    ensures |addrs| * (low + 1) <= Room(addrs)
    decreases |addrs|
  {
    if addrs != [] {
      var n := |addrs| - 1;
      RoomAtLeast(addrs[..n], low);
      assert n * (low + 1) + low + 1 == |addrs| * (low + 1);
    }
  }

  lemma {:induction false} RoomAtMost(addrs: seq<string>, high: nat)
    requires forall i :: 0 <= i < |addrs| ==> |addrs[i]| <= high
    ensures Room(addrs) <= |addrs| * (high + 1)
    decreases |addrs|
  {
    if addrs != [] {
      var n := |addrs| - 1;
      RoomAtMost(addrs[..n], high);
      assert n * (high + 1) + high + 1 == |addrs| * (high + 1);
    }
  }

  // ---------- the addresses that the servers print ----------

  function Addresses(xs: seq<Socket>): seq<string> {
    seq(|xs|, i requires 0 <= i < |xs| => Address(xs[i]))
  }

  ghost predicate AllPrinted(addrs: seq<string>) {
    exists xs :: addrs == Addresses(xs)
  }

  /** What the servers print arrives as it was sent, and 45 addresses always fit the buffer. */
  lemma PrintedArrives(addrs: seq<string>)
    requires AllPrinted(addrs)
    ensures AllPlain(addrs) && '\n' in Encoded(addrs) && Decoded(Encoded(addrs)) == Some(addrs)
    ensures |addrs| <= 45 ==> |Encoded(addrs)| <= BUFFER
  {
    var xs :| addrs == Addresses(xs);
    forall i | 0 <= i < |addrs| ensures Plain(addrs[i]) && |addrs[i]| <= 21 {
      AddressPlain(xs[i]);
    }
    hide Encoded, Decoded;
    RoundTrip(addrs);
    FitsIff(addrs);
    RoomAtMost(addrs, 21);
  }

  /** From 46 addresses of 21 characters on they do not. */
  lemma TooMany(addrs: seq<string>)
    requires AllPlain(addrs) && |addrs| >= 46 && forall i :: 0 <= i < |addrs| ==> |addrs[i]| >= 21
    ensures |Encoded(addrs)| > BUFFER
  {
    hide Encoded;
    FitsIff(addrs);
    RoomAtLeast(addrs, 21);
  }
}
