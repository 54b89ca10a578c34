/** How numbers and socket addresses are printed and read (endPoint.h). */
module Text {
  import opened Options

  type octet = n: nat | n < 256
  type port = n: nat | n < 65536

  /** A `sockaddr_in`: the four bytes of the address and the port. */
  datatype Socket = Socket(a: octet, b: octet, c: octet, d: octet, port: port)

  /** A number in decimal. */
  function Digits(n: nat): string {
    var last := ['0' + (n % 10) as char];
    if n < 10 then last else Digits(n / 10) + last
  }

  ghost predicate AllDigits(s: string) {
    forall i :: 0 <= i < |s| ==> '0' <= s[i] <= '9'
  }

  lemma {:induction false} DigitsPlain(n: nat)
    ensures AllDigits(Digits(n)) && |Digits(n)| >= 1
    ensures |Digits(n)| == 1 <==> n < 10
    ensures |Digits(n)| <= 2 <==> n < 100
    ensures |Digits(n)| <= 3 <==> n < 1000
    ensures |Digits(n)| <= 4 <==> n < 10000
    ensures |Digits(n)| <= 5 <==> n < 100000
  {
    if n >= 10 {
      DigitsPlain(n / 10);
    }
  }

  /** The text of a port, empty for port 0. */
  function PortText(p: nat): string {
    if p == 0 then "" else Digits(p)
  }

  lemma PortTextIs(p: nat)
    requires p != 0
    ensures PortText(p) == PortText(p / 10) + ['0' + (p % 10) as char]
  {
  }

  /** `port2str`. */
  method PortToText(portNumber: nat) returns (text: string)
    ensures text == PortText(portNumber)
  {
    hide Digits;
    text := "";
    var p := portNumber;
    while p != 0
      invariant PortText(p) + text == PortText(portNumber)
    {
      PortTextIs(p);
      var digit := ['0' + (p % 10) as char];
      assert PortText(p / 10) + digit + text == PortText(p / 10) + (digit + text);
      text := digit + text;
      p := p / 10;
    }
  }

  /** The number that a text of digits denotes, 0 for the empty text, -1 when there is another character. */
  function Number(s: string): int {
    if s == "" then 0 else
    var n, c := Number(s[..|s| - 1]), s[|s| - 1];
    if n < 0 || !('0' <= c <= '9') then -1 else n * 10 + (c as int - '0' as int)
  }

  lemma {:induction false} BadNumber(s: string, i: nat)
    requires i < |s| && !('0' <= s[i] <= '9')
    ensures Number(s) == -1
    decreases |s|
  {
    if i < |s| - 1 {
      BadNumber(s[..|s| - 1], i);
    }
  }

  /** `str2port`. */
  method TextToPort(s: string) returns (n: int)
    ensures n == Number(s)
  {
    n := 0;
    for i := 0 to |s|
      invariant n == Number(s[..i]) && n >= 0
    {
      if '0' <= s[i] <= '9' {
        assert s[..i + 1][..i] == s[..i];
        n := n * 10 + (s[i] as int - '0' as int);
      } else {
        BadNumber(s, i);
        return -1;
      }
    }
    assert s[..|s|] == s;
  }

  lemma {:induction false} DigitsBack(n: nat)
    ensures Number(Digits(n)) == n
  {
    var last := ['0' + (n % 10) as char];
    if n < 10 {
      assert last[..0] == "";
    } else {
      DigitsBack(n / 10);
      assert Digits(n)[..|Digits(n)| - 1] == Digits(n / 10);
    }
  }

  /** Leading zeros do not change a number. */
  lemma {:induction false} ZerosBefore(z: string, d: string)
    requires forall i :: 0 <= i < |z| ==> z[i] == '0'
    ensures Number(z + d) == Number(d)
    decreases |d|, |z|
  {
    var s := z + d;
    if d != "" {
      assert s[..|s| - 1] == z + d[..|d| - 1];
      ZerosBefore(z, d[..|d| - 1]);
    } else if z != "" {
      assert s == z && z[..|z| - 1] + "" == z[..|z| - 1];
      ZerosBefore(z[..|z| - 1], "");
    }
  }

  /** What `inet_ntoa` prints. */
  function Dotted(x: Socket): string {
    Digits(x.a) + "." + (Digits(x.b) + "." + (Digits(x.c) + "." + Digits(x.d)))
  }

  /** `sock_addr2str`. */
  function Address(x: Socket): string {
    Dotted(x) + ":" + PortText(x.port)
  }

  lemma PortPlain(p: port)
    ensures AllDigits(PortText(p)) && |PortText(p)| <= 5
    ensures Number(PortText(p)) == p
  {
    DigitsPlain(p);
    DigitsBack(p);
  }

  lemma DottedPlain(x: Socket)
    ensures forall i :: 0 <= i < |Dotted(x)| ==> Dotted(x)[i] == '.' || '0' <= Dotted(x)[i] <= '9'
    ensures |Dotted(x)| <= 15
  {
    DigitsPlain(x.a);
    DigitsPlain(x.b);
    DigitsPlain(x.c);
    DigitsPlain(x.d);
    hide Digits;
    var t := Digits(x.c) + "." + Digits(x.d);
    assert forall i :: 0 <= i < |t| ==> t[i] == '.' || '0' <= t[i] <= '9';
    var u := Digits(x.b) + "." + t;
    assert forall i :: 0 <= i < |u| ==> u[i] == '.' || '0' <= u[i] <= '9';
  }

  /** The text of an address holds digits, points and a colon only, and is short. */
  lemma AddressPlain(x: Socket)
    ensures |Address(x)| <= 21 && '\n' !in Address(x) && '\0' !in Address(x)
  {
    DottedPlain(x);
    PortPlain(x.port);
  }

  /** The place of the first `c`, or the length. */
  function Find(c: char, s: string): (i: nat)
    ensures i <= |s| && c !in s[..i] && (i < |s| ==> s[i] == c)
  {
    if s == "" || s[0] == c then 0 else 1 + Find(c, s[1..])
  }

  lemma {:induction false} FindIs(c: char, h: string, t: string)
    requires c !in h
    ensures Find(c, h + [c] + t) == |h|
  {
    if h != "" {
      FindIs(c, h[1..], t);
      assert (h + [c] + t)[1..] == h[1..] + [c] + t;
    }
  }

  lemma {:induction false} FindEnd(c: char, s: string, i: nat)
    requires i <= |s| && c !in s[..i] && (i < |s| ==> s[i] == c)
    ensures Find(c, s) == i
  {
    if i > 0 {
      assert s[0] == s[..i][0] && s[1..][..i - 1] == s[..i][1..];
      FindEnd(c, s[1..], i - 1);
    }
  }

  lemma FirstMark(c: char, h: string, t: string, h': string, t': string)
    requires c !in h && c !in h' && h + [c] + t == h' + [c] + t'
    ensures h == h' && t == t'
  {
    FindIs(c, h, t);
    FindIs(c, h', t');
    assert h == (h + [c] + t)[..|h|] && t == (h + [c] + t)[|h| + 1..];
    assert h' == (h' + [c] + t')[..|h'|] && t' == (h' + [c] + t')[|h'| + 1..];
  }

  lemma SamePart(n: nat, t: string, n': nat, t': string)
    requires Digits(n) + "." + t == Digits(n') + "." + t'
    ensures n == n' && t == t'
  {
    DigitsPlain(n);
    DigitsPlain(n');
    FirstMark('.', Digits(n), t, Digits(n'), t');
    DigitsBack(n);
    DigitsBack(n');
  }

  /** No two sockets have the same text: a server is known by its address. */
  lemma AddressInjective(x: Socket, y: Socket)
    requires Address(x) == Address(y)
    ensures x == y
  {
    DottedPlain(x);
    DottedPlain(y);
    FirstMark(':', Dotted(x), PortText(x.port), Dotted(y), PortText(y.port));
    PortPlain(x.port);
    PortPlain(y.port);
    hide Digits, PortText;
    SamePart(x.a, Digits(x.b) + "." + (Digits(x.c) + "." + Digits(x.d)), y.a, Digits(y.b) + "." + (Digits(y.c) + "." + Digits(y.d)));
    SamePart(x.b, Digits(x.c) + "." + Digits(x.d), y.b, Digits(y.c) + "." + Digits(y.d));
    SamePart(x.c, Digits(x.d), y.c, Digits(y.d));
    DigitsBack(x.d);
    DigitsBack(y.d);
  }

  /** What comes before the first colon, and the number that follows it; nothing when that is 0. */
  function Parsed(s: string): Option<(string, int)> {
    var i := Find(':', s);
    var n := Number(if i < |s| then s[i + 1..] else "");
    if n == 0 then None else Some((s[..i], n))
  }

  /** `str2sock_addr`, up to `inet_pton`: the text given to that and the port, or nothing when no field is set. */
  method TextToSocket(s: string) returns (r: Option<(string, int)>)
    ensures r == Parsed(s)
  {
    if s == "" { return None; }
    var ip, i := "", 0;
    while i < |s| && s[i] != ':'
      invariant i <= |s| && ip == s[..i] && ':' !in ip
    {
      ip := ip + [s[i]];
      i := i + 1;
    }
    var portText := "";
    ghost var colon := i;
    FindEnd(':', s, colon);
    i := i + 1;
    while i < |s|
      invariant colon < i && (colon == |s| ==> portText == "")
      invariant colon < |s| ==> i <= |s| && portText == s[colon + 1..i]
    {
      assert s[colon + 1..i + 1] == s[colon + 1..i] + [s[i]];
      portText := portText + [s[i]];
      i := i + 1;
    }
    assert colon < |s| ==> s[colon + 1..|s|] == s[colon + 1..];
    var n := TextToPort(portText);
    if n != 0 { return Some((ip, n)); }
    r := None;
  }

  /** Reading a text that need not be an address: without a colon, or with the number 0 behind it, nothing is read;
      behind the first colon anything but digits counts as -1. */
  lemma ParsedIs(h: string, t: string)
    requires ':' !in h
    ensures Parsed(h) == None
    ensures Parsed(h + ":" + t) == if Number(t) == 0 then None else Some((h, Number(t)))
  {
    FindEnd(':', h, |h|);
    FindIs(':', h, t);
    assert (h + ":" + t)[..|h|] == h && (h + ":" + t)[|h| + 1..] == t;
  }

  /** A number in decimal: its last digit, after the others if there are any. */
  lemma DigitsIs(n: nat)
    ensures n < 10 ==> Digits(n) == ["0123456789"[n]]
    ensures n >= 10 ==> Digits(n) == Digits(n / 10) + Digits(n % 10)
  {
  }

  /** An address in full. */
  lemma Sample()
    ensures Address(Socket(1, 2, 3, 4, 80)) == "1.2.3.4:80" && PortText(0) == ""
  {
    assert Digits(1) == "1" && Digits(2) == "2" && Digits(3) == "3" && Digits(4) == "4" && Digits(80) == "80";
    hide Digits;
    assert Dotted(Socket(1, 2, 3, 4, 80)) == "1.2.3.4";
  }

  /** An address is read back as it was printed; with port 0 nothing is read. */
  lemma AddressBack(x: Socket)
    ensures Parsed(Address(x)) == if x.port == 0 then None else Some((Dotted(x), x.port as int))
  {
    var s, i := Address(x), |Dotted(x)|;
    DottedPlain(x);
    PortPlain(x.port);
    FindIs(':', Dotted(x), PortText(x.port));
    assert i < |s| && s[..i] == Dotted(x) && s[i + 1..] == PortText(x.port);
  }
}
