/** The streaming layer of conhash/md5.c.  What `md5_process` does with one block is a parameter. */
module Md5 {
  const U32 := 0x1_0000_0000
  const U64 := 0x1_0000_0000_0000_0000

  type Byte = b: int | 0 <= b < 256
  type Word = w: int | 0 <= w < 0x1_0000_0000

  /** The four words of the digest buffer. */
  datatype Abcd = Abcd(a: Word, b: Word, c: Word, d: Word) {
    function At(i: nat): Word
      requires i < 4
    {
      if i == 0 then a else if i == 1 then b else if i == 2 then c else d
    }
  }

  type Compress = (Abcd, seq<Byte>) -> Abcd

  const INIT: Abcd := Abcd(0x67452301, 0xFFFF_FFFF - 0x10325476, 0xFFFF_FFFF - 0x67452301, 0x10325476)

  // ---------- bytes and words ----------

  /** The value of bytes with the low-order one first. */
  function LeValue(bs: seq<Byte>): (v: nat) {
    if bs == [] then 0 else bs[0] + 256 * LeValue(bs[1..])
  }

  /** `w >> (k << 3)` cut to a byte. */
  function ByteOf(w: Word, k: nat): Byte
    requires k < 4
  {
    var v: int := if k == 0 then w else if k == 1 then w / 0x100 else if k == 2 then w / 0x1_0000 else w / 0x100_0000;
    v % 256
  }

  lemma LeFour(bs: seq<Byte>)
    requires |bs| == 4
    ensures LeValue(bs) == bs[0] as int + 0x100 * bs[1] as int + 0x1_0000 * bs[2] as int + 0x100_0000 * bs[3] as int
  {
    var b1, b2, b3 := bs[1..], bs[1..][1..], bs[1..][1..][1..];
    assert LeValue(b3) == b3[0] + 256 * LeValue(b3[1..]);
    assert LeValue(b2) == b2[0] + 256 * LeValue(b3);
    assert LeValue(b1) == b1[0] + 256 * LeValue(b2);
    assert LeValue(bs) == bs[0] + 256 * LeValue(b1);
  }

  lemma Quotients(w: int, q2: int, r2: int, q3: int, r3: int)
    requires w == 0x1_0000 * q2 + r2 && 0 <= r2 < 0x1_0000
    requires w == 0x100_0000 * q3 + r3 && 0 <= r3 < 0x100_0000
    ensures w / 0x1_0000 == q2 && w / 0x100_0000 == q3
  {
  }

  lemma LeWord(w: Word, bs: seq<Byte>)
    requires |bs| == 4 && forall k :: 0 <= k < 4 ==> bs[k] == ByteOf(w, k)
    ensures LeValue(bs) == w
  {
    var q1, b0: int := w / 0x100, w % 0x100;
    var q2, b1 := q1 / 0x100, q1 % 0x100;
    var q3, b2 := q2 / 0x100, q2 % 0x100;
    assert w == 0x1_0000 * q2 + (0x100 * b1 + b0) && w == 0x100_0000 * q3 + (0x1_0000 * b2 + 0x100 * b1 + b0);
    Quotients(w, q2, 0x100 * b1 + b0, q3, 0x1_0000 * b2 + 0x100 * b1 + b0);
    LeFour(bs);
  }

  lemma {:induction false} LeAppend(a: seq<Byte>, b: seq<Byte>, p: nat)
    requires |a| == 4 && p == U32
    ensures LeValue(a + b) == LeValue(a) + p * LeValue(b)
  {
    var s := a + b;
    LeFour(a);
    assert s[1..][1..][1..][1..] == b;
    assert LeValue(s) == s[0] + 256 * LeValue(s[1..]);
    assert LeValue(s[1..]) == s[1] + 256 * LeValue(s[1..][1..]);
    assert LeValue(s[1..][1..]) == s[2] + 256 * LeValue(s[1..][1..][1..]);
    assert LeValue(s[1..][1..][1..]) == s[3] + 256 * LeValue(b);
  }

  /** Bytes are determined by their value and number, so the specifications below leave no choice. */
  lemma {:induction false} LeUnique(a: seq<Byte>, b: seq<Byte>)
    requires |a| == |b| && LeValue(a) == LeValue(b)
    ensures a == b
  {
    if a != [] {
      LeUnique(a[1..], b[1..]);
      assert a == [a[0]] + a[1..] && b == [b[0]] + b[1..];
    }
  }

  // ---------- the specification: RFC 1321 ----------

  /** Section 3.4: the buffer after all blocks of a message of whole blocks. */
  function Fold(process: Compress, m: seq<Byte>): Abcd
    requires |m| % 64 == 0
  {
    if m == [] then INIT else process(Fold(process, m[..|m| - 64]), m[|m| - 64..])
  }

  /** Sections 3.1 and 3.2: `p` is `m`, a byte 0x80, as few zeros as make it 56 modulo 64, and the number
      of bits of `m` modulo 2^64 in eight bytes, the low-order one first. */
  ghost predicate Padded(m: seq<Byte>, p: seq<Byte>) {
    exists z: nat :: PaddedBy(m, p, z)
  }

  predicate Fills(len: nat, z: nat) {
    (len + 1 + z) % 64 == 56
  }

  ghost predicate PaddedBy(m: seq<Byte>, p: seq<Byte>, z: nat) {
    && |p| == |m| + 1 + z + 8
    && p[..|m|] == m && p[|m|] == 0x80
    && (forall i :: |m| < i < |m| + 1 + z ==> p[i] == 0)
    && Fills(|m|, z) && (forall y: nat :: y < z ==> !Fills(|m|, y))
    && LeValue(p[|m| + 1 + z..]) == 8 * |m| % U64
  }

  /** Section 3.5: the words of the buffer, low-order bytes first. */
  ghost predicate IsDigest(digest: seq<Byte>, w: Abcd) {
    && |digest| == 16
    && LeValue(digest[..4]) == w.a && LeValue(digest[4..8]) == w.b
    && LeValue(digest[8..12]) == w.c && LeValue(digest[12..]) == w.d
  }

  /** `digest` is the message digest of `m`. */
  ghost predicate Digests(process: Compress, m: seq<Byte>, digest: seq<Byte>) {
    exists p :: Padded(m, p) && |p| % 64 == 0 && IsDigest(digest, Fold(process, p))
  }

  lemma PaddedUnique(m: seq<Byte>, p: seq<Byte>, q: seq<Byte>)
    requires Padded(m, p) && Padded(m, q)
    ensures p == q && |p| % 64 == 0
  {
    var y: nat :| PaddedBy(m, p, y);
    var z: nat :| PaddedBy(m, q, z);
    hide Fills, LeValue;
    assert y == z;
    FilledWhole(|m|, z);
    PaddedByUnique(m, p, q, z);
  }

  lemma FilledWhole(len: nat, z: nat)
    requires Fills(len, z)
    ensures (len + 1 + z + 8) % 64 == 0
  {
  }

  lemma PaddedByUnique(m: seq<Byte>, p: seq<Byte>, q: seq<Byte>, z: nat)
    requires PaddedBy(m, p, z) && PaddedBy(m, q, z)
    ensures p == q
  {
    var e := |m| + 1 + z;
    LeUnique(p[e..], q[e..]);
    hide LeValue, Fills;
    forall i | 0 <= i < e ensures p[i] == q[i] {
      if i < |m| {
        assert p[i] == p[..|m|][i] && q[i] == q[..|m|][i];
      }
    }
    hide PaddedBy;
    assert p == p[..e] + p[e..] && q == q[..e] + q[e..];
  }

  lemma Slice(s: seq<Byte>, a: nat, b: nat, c: nat, d: nat)
    requires a <= b <= |s| && c <= d <= b - a
    ensures s[a..b][c..d] == s[a + c..a + d]
    ensures b == |s| ==> s[a..] == s[a..b]
  {
    var t := s[a..b];
    assert forall i :: 0 <= i < d - c ==> t[c..d][i] == t[c + i] == s[a + c + i];
  }

  /** A message has one digest. */
  lemma DigestUnique(process: Compress, m: seq<Byte>, d: seq<Byte>, e: seq<Byte>)
    requires Digests(process, m, d) && Digests(process, m, e)
    ensures d == e
  {
    var p :| Padded(m, p) && |p| % 64 == 0 && IsDigest(d, Fold(process, p));
    var q :| Padded(m, q) && |q| % 64 == 0 && IsDigest(e, Fold(process, q));
    PaddedUnique(m, p, q);
    BytesUnique(d, e, Fold(process, p));
  }

  lemma BytesUnique(d: seq<Byte>, e: seq<Byte>, w: Abcd)
    requires IsDigest(d, w) && IsDigest(e, w)
    ensures d == e
  {
    LeUnique(d[..4], e[..4]);
    LeUnique(d[4..8], e[4..8]);
    LeUnique(d[8..12], e[8..12]);
    LeUnique(d[12..], e[12..]);
    hide LeValue;
    assert d == d[..4] + d[4..8] + d[8..12] + d[12..];
    assert e == e[..4] + e[4..8] + e[8..12] + e[12..];
  }

  /** Section 3.3: the bytes that the buffer starts as. */
  const START: seq<Byte> :=
    [0x01, 0x23, 0x45, 0x67, 0x89, 0xAB, 0xCD, 0xEF, 0xFE, 0xDC, 0xBA, 0x98, 0x76, 0x54, 0x32, 0x10]

  lemma InitialBytes()
    ensures IsDigest([0x01, 0x23, 0x45, 0x67, 0x89, 0xAB, 0xCD, 0xEF, 0xFE, 0xDC, 0xBA, 0x98, 0x76, 0x54, 0x32, 0x10], INIT)
  {
    LeFour(START[..4]);
    LeFour(START[4..8]);
    LeFour(START[8..12]);
    LeFour(START[12..]);
  }

  /** The words are determined by the bytes. */
  lemma WordsUnique(d: seq<Byte>, v: Abcd, w: Abcd)
    requires IsDigest(d, v) && IsDigest(d, w)
    ensures v == w
  {
  }

  /** Sections 3.3 and 3.4: the fold starts with the words of these bytes, and goes block by block from the first
      to the last. */
  lemma FoldLaws(process: Compress, m: seq<Byte>, block: seq<Byte>)
    requires |m| % 64 == 0 && |block| == 64
    ensures IsDigest(START, Fold(process, []))
    ensures Fold(process, m + block) == process(Fold(process, m), block)
  {
    InitialBytes();
    assert (m + block)[..|m|] == m && (m + block)[|m|..] == block;
  }

  /** Sections 3.1 and 3.2 for a message of one byte: a byte 0x80, 54 zeros and the length, 8 bits. */
  lemma OneBytePadded(x: Byte)
    ensures Padded([x], [x, 0x80] + seq(54, _ => 0) + [8, 0, 0, 0, 0, 0, 0, 0])
  {
    var len: seq<Byte> := [8, 0, 0, 0, 0, 0, 0, 0];
    var p: seq<Byte> := [x, 0x80] + seq(54, _ => 0) + len;
    LeAppend([8, 0, 0, 0], [0, 0, 0, 0], U32);
    LeFour([8, 0, 0, 0]);
    LeFour([0, 0, 0, 0]);
    assert len == [8, 0, 0, 0] + [0, 0, 0, 0];
    hide LeValue;
    assert p[56..] == len;
    assert PaddedBy([x], p, 54);
  }

  /** So a message of one block is one step from the start. */
  lemma OneBlock(process: Compress, block: seq<Byte>, w: Abcd)
    requires |block| == 64
    requires IsDigest(START, w)
    ensures Fold(process, block) == process(w, block)
  {
    FoldLaws(process, [], block);
    WordsUnique(START, w, Fold(process, []));
    assert [] + block == block;
  }

  // ---------- counting ----------

  function Low(n: nat): Word { 8 * n % U32 }

  function High(n: nat): Word { 8 * n / U32 % U32 }

  lemma CountIs(n: nat)
    ensures Low(n) + U32 * High(n) == 8 * n % U64
    ensures Low(n) / 8 % 64 == Part(n)
  {
    var a, r := 8 * n, n % 0x2000_0000;
    var q := a / U32;
    assert a == U32 * q + Low(n) && q == U32 * (q / U32) + High(n);
    DivMod64(a, q / U32, Low(n) + U32 * High(n));
    assert n == 0x2000_0000 * (n / 0x2000_0000) + r;
    DivMod(a, n / 0x2000_0000, 8 * r);
    OffsetIs(n, n / 0x2000_0000, r);
  }

  lemma OffsetIs(n: nat, q: nat, r: nat)
    requires n == 0x2000_0000 * q + r
    ensures r % 64 == n % 64 && 8 * r / 8 == r
  {
  }

  lemma DivMod64(n: int, q: int, r: int)
    requires n == U64 * q + r && 0 <= r < U64
    ensures n % U64 == r
  {
  }

  lemma DivMod(n: int, q: int, r: int)
    requires n == U32 * q + r && 0 <= r < U32
    ensures n / U32 == q && n % U32 == r
  {
  }

  /** The two counters with their carry count bits modulo 2^64. */
  lemma CountStep(n: nat, k: nat)
    ensures var nbits := 8 * k % U32;
      var low := (Low(n) + nbits) % U32;
      var high := (High(n) + k / 0x2000_0000) % U32;
      && low == Low(n + k)
      && (if low < nbits then (high + 1) % U32 else high) == High(n + k)
  {
    var a, b := 8 * n, 8 * k;
    var qa, ra, qb, rb := a / U32, a % U32, b / U32, b % U32;
    var carry := if ra + rb >= U32 then 1 else 0;
    assert k / 0x2000_0000 == qb;
    DivMod(a + b, qa + qb + carry, ra + rb - U32 * carry);
    DivMod(ra + rb, carry, ra + rb - U32 * carry);
    ModSum(qa, qb, carry);
  }

  lemma ModSum(x: nat, y: nat, c: nat)
    ensures ((x % U32 + y) % U32 + c) % U32 == (x + y + c) % U32
  {
  }

  // ---------- the state between calls ----------

  /** How many of `n` bytes are in an unfinished block, and how many in whole blocks. */
  function Part(n: nat): (r: nat)
    ensures r < 64
  {
    n % 64
  }

  function Whole(n: nat): (q: nat)
    ensures q <= n && q % 64 == 0
  {
    n - Part(n)
  }

  /** What the state is after the bytes of `m`: the counters hold its number of bits, `abcd` the fold
      over its full blocks, and the front of `buf` the rest. */
  ghost predicate Holds(process: Compress, m: seq<Byte>, count0: Word, count1: Word, abcd: Abcd, buf: seq<Byte>) {
    && |buf| == 64
    && count0 == Low(|m|) && count1 == High(|m|)
    && abcd == Fold(process, m[..Whole(|m|)])
    && buf[..Part(|m|)] == m[Whole(|m|)..]
  }

  lemma FoldBlock(process: Compress, m: seq<Byte>, q: nat)
    requires q % 64 == 0 && q + 64 <= |m|
    ensures Fold(process, m[..q + 64]) == process(Fold(process, m[..q]), m[q..q + 64])
  {
    assert m[..q + 64][..q] == m[..q] && m[..q + 64][q..] == m[q..q + 64];
  }

  /** `md5_state_t`. */
  class State {
    const process: Compress
    var count0: Word
    var count1: Word
    var abcd: Abcd
    const buf: array<Byte>
    /** All bytes appended so far. */
    ghost var message: seq<Byte>

    ghost predicate Valid()
      reads this, buf
    {
      Holds(process, message, count0, count1, abcd, buf[..])
    }

    /** `md5_init`. */
    constructor (process: Compress)
      ensures Valid() && message == [] && this.process == process && fresh(buf)
      ensures count0 == 0 && count1 == 0
      ensures IsDigest(START, abcd)
    {
      this.process := process;
      count0, count1 := 0, 0;
      abcd := INIT;
      buf := new Byte[64](_ => 0);
      message := [];
      new;
      InitialBytes();
    }

    /** `memcpy` into the buffer. */
    method Copy(offset: nat, src: seq<Byte>, p: nat, n: nat)
      requires offset + n <= buf.Length && p + n <= |src|
      modifies buf
      ensures buf[..offset] == old(buf[..offset]) && buf[offset..offset + n] == src[p..p + n]
    {
      forall i | 0 <= i < n {
        buf[offset + i] := src[p + i];
      }
    }

    /** The counting of `md5_append`. */
    method Count(nbytes: nat, ghost n: nat)
      requires count0 == Low(n) && count1 == High(n)
      modifies this`count0, this`count1
      ensures count0 == Low(n + nbytes) && count1 == High(n + nbytes)
    {
      CountStep(n, nbytes);
      var nbits: Word := 8 * nbytes % U32;
      count1 := (count1 + nbytes / 0x2000_0000) % U32;
      count0 := (count0 + nbits) % U32;
      if count0 < nbits {
        count1 := (count1 + 1) % U32;
      }
    }

    /** The loop of `md5_append` over full blocks. */
    method FullBlocks(data: seq<Byte>, p0: nat, left0: nat, ghost m: seq<Byte>, ghost q0: nat)
      returns (p: nat, left: nat, ghost q: nat)
      requires p0 + left0 <= |data| && q0 % 64 == 0 && q0 <= |m| && m[q0..] == data[p0..p0 + left0]
      requires abcd == Fold(process, m[..q0])
      modifies this`abcd
      ensures q <= |m| && q % 64 == 0 && left < 64 && abcd == Fold(process, m[..q])
      ensures p + left == p0 + left0 && m[q..] == data[p..p + left]
    {
      hide Fold;
      p, left, q := p0, left0, q0;
      while left >= 64
        invariant p0 <= p && p + left == p0 + left0 && q - p == q0 - p0 && q % 64 == 0
        invariant abcd == Fold(process, m[..q])
      {
        FoldBlock(process, m, q);
        Slice(data, p0, p0 + left0, p - p0, p - p0 + 64);
        Slice(m, q0, |m|, p - p0, p - p0 + 64);
        assert m[q..q + 64] == data[p..p + 64];
        abcd := process(abcd, data[p..p + 64]);
        p := p + 64;
        left := left - 64;
        q := q + 64;
      }
      Slice(m, q0, |m|, p - p0, left0);
      Slice(data, p0, p0 + left0, p - p0, left0);
      assert m[q..] == m[q..|m|];
    }

    /** The rest of `md5_append` once a partial block is done. */
    method Rest(data: seq<Byte>, p0: nat, left0: nat, ghost m: seq<Byte>, ghost q0: nat)
      requires p0 + left0 <= |data| && q0 % 64 == 0 && q0 <= |m| && m[q0..] == data[p0..p0 + left0]
      requires abcd == Fold(process, m[..q0]) && buf.Length == 64
      modifies this`abcd, buf
      ensures abcd == Fold(process, m[..Whole(|m|)]) && buf[..Part(|m|)] == m[Whole(|m|)..]
    {
      hide Fold, Whole;
      var p, left, q := FullBlocks(data, p0, left0, m, q0);
      CutAt(|m|, q, left);
      if left != 0 {
        Copy(0, data, p, left);
        assert buf[..left] == buf[0..0 + left];
      }
    }

    /** The partial block of `md5_append`, processed once it is full. */
    method Partial(data: seq<Byte>, nbytes: nat, offset: nat, copy: nat, ghost m0: seq<Byte>)
      requires copy <= nbytes <= |data| && offset + copy <= 64 == buf.Length && offset == Part(|m0|)
      requires abcd == Fold(process, m0[..Whole(|m0|)]) && buf[..offset] == m0[Whole(|m0|)..]
      modifies this`abcd, buf
      ensures var q, m := Whole(|m0|), m0 + data[..nbytes];
        && (q + 64) % 64 == 0
        && q + offset == |m0| && m[..q] == m0[..q] && m[q + offset + copy..] == data[..nbytes][copy..]
        && (if offset + copy < 64 then abcd == old(abcd) && buf[..offset + copy] == m[q..q + offset + copy]
            else q + 64 <= |m| && abcd == Fold(process, m[..q + 64]))
    {
      hide Fold, Whole;
      ghost var d, m, q := data[..nbytes], m0 + data[..nbytes], Whole(|m0|);
      Copy(offset, data, 0, copy);
      Cut(m0, d);
      FirstBlock(m0, d, copy, buf[..]);
      if offset + copy < 64 {
        return;
      }
      FoldBlock(process, m, q);
      abcd := process(abcd, buf[..]);
    }

    /** `md5_append`.  The caller's lengths are C ints, and `offset + nbytes` must be one too. */
    method Append(data: seq<Byte>, nbytes: int)
      requires Valid() && nbytes <= |data| && Part(|message|) + nbytes < 0x8000_0000
      modifies this`count0, this`count1, this`abcd, this`message, buf
      ensures Valid() && message == old(message) + (if nbytes <= 0 then [] else data[..nbytes])
    {
      hide Low, High, Fold, Whole, Part;
      var p := 0;
      var left := nbytes;
      var offset: nat := count0 / 8 % 64;
      if nbytes <= 0 {
        assert message + [] == message;
        return;
      }
      ghost var m0, m := message, message + data[..nbytes];
      ghost var q := Whole(|m0|);
      CountIs(|m0|);
      Cut(m0, data[..nbytes]);
      Count(nbytes, |m0|);
      message := m;
      if offset != 0 {
        var copy := if offset + nbytes > 64 then 64 - offset else nbytes;
        Partial(data, nbytes, offset, copy, m0);
        if offset + copy < 64 {
          CutAt(|m|, q, offset + copy);
          assert m[q..q + offset + copy] == m[q..];
          return;
        }
        p := p + copy;
        left := left - copy;
        q := q + 64;
        Slice(data, 0, nbytes, p, nbytes);
      }
      assert m[q..] == data[p..p + left];
      Rest(data, p, left, m, q);
    }

    /** The first loop of `md5_finish`. */
    method LengthBytes() returns (data: array<Byte>)
      requires Valid()
      ensures fresh(data) && data.Length == 8 && LeValue(data[..]) == 8 * |message| % U64
    {
      hide Low, High, Fold, ByteOf, LeValue;
      data := new Byte[8](_ => 0);
      for i := 0 to 8
        invariant forall j :: 0 <= j < i ==> data[j] == ByteOf(if j / 4 == 0 then count0 else count1, j % 4)
      {
        data[i] := ByteOf(if i / 4 == 0 then count0 else count1, i % 4);
      }
      LengthValue(|message|, data[..]);
    }

    /** `md5_finish`: no bytes are left unprocessed. */
    method Finish(digest: array<Byte>)
      requires Valid() && digest.Length == 16 && digest != buf
      modifies this`count0, this`count1, this`abcd, this`message, buf, digest
      ensures Valid() && |message| % 64 == 0 && Padded(old(message), message)
      ensures Digests(process, old(message), digest[..])
    {
      hide Low, High, Fold, Padded, LeValue;
      var data := LengthBytes();
      var n := (55 - count0 / 8) % U32 % 64 + 1;
      ghost var bs := data[..];
      Pads(message, bs, n);
      hide Holds;
      Append(PAD, n);
      assert data[..] == bs == bs[..8];
      Append(data[..], 8);
      Output(digest);
    }

    /** The last loop of `md5_finish`. */
    method Output(digest: array<Byte>)
      requires Valid() && |message| % 64 == 0 && digest.Length == 16 && digest != buf
      modifies digest
      ensures IsDigest(digest[..], Fold(process, message))
    {
      hide Low, High, Fold, ByteOf, LeValue, Holds;
      for i := 0 to 16
        invariant forall j :: 0 <= j < i ==> digest[j] == ByteOf(abcd.At(j / 4), j % 4)
      {
        digest[i] := ByteOf(abcd.At(i / 4), i % 4);
      }
      DigestBytes(digest[..], abcd);
      AllFolded();
    }

    lemma AllFolded()
      requires Valid() && |message| % 64 == 0
      ensures abcd == Fold(process, message)
    {
      assert message[..Whole(|message|)] == message;
    }
  }

  lemma CutAt(n: nat, q: nat, r: nat)
    requires n == q + r && q % 64 == 0 && r < 64
    ensures Whole(n) == q && Part(n) == r
  {
  }

  /** What an appended message keeps. */
  lemma Cut(m: seq<Byte>, d: seq<Byte>)
    ensures var q := Whole(|m|);
      && q + Part(|m|) == |m| && q % 64 == 0 && (m + d)[..q] == m[..q]
      && (Part(|m|) == 0 ==> (m + d)[q..] == d)
  {
  }

  /** A partial block with the first bytes that follow it. */
  lemma FirstBlock(m: seq<Byte>, d: seq<Byte>, copy: nat, buf: seq<Byte>)
    requires var offset := Part(|m|); var q := Whole(|m|);
      && copy <= |d| && offset + copy <= 64 == |buf|
      && buf[..offset] == m[q..] && buf[offset..offset + copy] == d[..copy]
    ensures var offset := Part(|m|); var q := Whole(|m|);
      && q + offset == |m| && (m + d)[q..q + offset + copy] == buf[..offset + copy]
      && (m + d)[q + offset + copy..] == d[copy..]
      && (offset + copy == 64 ==> (m + d)[q..q + 64] == buf)
  {
  }

  const PAD: seq<Byte> := seq(64, i => if i == 0 then 0x80 else 0)

  lemma LengthValue(n: nat, bs: seq<Byte>)
    requires |bs| == 8 && forall j :: 0 <= j < 8 ==> bs[j] == ByteOf(if j / 4 == 0 then Low(n) else High(n), j % 4)
    ensures LeValue(bs) == 8 * n % U64
  {
    hide ByteOf, Low, High;
    var a, b := bs[..4], bs[4..];
    LeWord(Low(n), a);
    LeWord(High(n), b);
    LeAppend(a, b, U32);
    assert bs == a + b;
    CountIs(n);
  }

  lemma DigestBytes(d: seq<Byte>, w: Abcd)
    requires |d| == 16 && forall j :: 0 <= j < 16 ==> d[j] == ByteOf(w.At(j / 4), j % 4)
    ensures IsDigest(d, w)
  {
    hide ByteOf;
    LeWord(w.At(0), d[..4]);
    LeWord(w.At(1), d[4..8]);
    LeWord(w.At(2), d[8..12]);
    LeWord(w.At(3), d[12..]);
  }

  lemma PadCount(len: nat, n: int)
    requires n == (55 - Low(len) / 8) % U32 % 64 + 1
    ensures 1 <= n <= 64 && Fills(len, n - 1) && (forall y: nat :: y < n - 1 ==> !Fills(len, y))
    ensures (len + n + 8) % 64 == 0
  {
    CountIs(len);
    var x := Low(len) / 8;
    assert 0 <= x < 0x2000_0000;
    hide Low;
    var r := (55 - x) % U32;
    assert r == if x <= 55 then 55 - x else 55 - x + U32;
    var b := len % 64;
    assert x == 64 * (x / 64) + b;
    PadRest(r, if x <= 55 then -(x / 64) else U32 / 64 - x / 64, b);
    PadFills(len, b);
  }

  lemma PadRest(r: int, a: int, b: int)
    requires r == 64 * a + 55 - b && 0 <= b < 64
    ensures r % 64 == if b <= 55 then 55 - b else 119 - b
  {
  }

  lemma PadFills(len: nat, b: nat)
    requires b == len % 64
    ensures var z := if b <= 55 then 55 - b else 119 - b;
      Fills(len, z) && (forall y: nat :: y < z ==> !Fills(len, y)) && (len + z + 1 + 8) % 64 == 0
  {
  }

  /** The number of padding bytes that `md5_finish` works out is the one of section 3.1. */
  lemma Pads(m: seq<Byte>, len: seq<Byte>, n: int)
    requires |len| == 8 && LeValue(len) == 8 * |m| % U64 && n == (55 - Low(|m|) / 8) % U32 % 64 + 1
    ensures 1 <= n <= 64 && Padded(m, m + PAD[..n] + len) && |m + PAD[..n] + len| % 64 == 0
  {
    PadCount(|m|, n);
    hide Low, LeValue, Fills;
    var p, z := m + PAD[..n] + len, n - 1;
    assert p[|m| + 1 + z..] == len;
    assert PaddedBy(m, p, z);
  }

  /** The state depends on the bytes only, not on how they were cut into calls of `Append`. */
  lemma SplitIndependent(s: State, t: State)
    requires s.Valid() && t.Valid() && s.process == t.process && s.message == t.message
    ensures s.count0 == t.count0 && s.count1 == t.count1 && s.abcd == t.abcd
    ensures s.buf[..s.count0 / 8 % 64] == t.buf[..t.count0 / 8 % 64]
  {
    CountIs(|s.message|);
  }

  function Joined(pieces: seq<seq<Byte>>): seq<Byte> {
    if pieces == [] then [] else Joined(pieces[..|pieces| - 1]) + pieces[|pieces| - 1]
  }

  lemma {:induction false} JoinedIs(pieces: seq<seq<Byte>>, more: seq<seq<Byte>>, m: seq<Byte>)
    ensures Joined([m]) == m && Joined(pieces + more) == Joined(pieces) + Joined(more)
    decreases |more|
  {
    assert [m][..0] == [];
    if more == [] {
      assert pieces + more == pieces;
    } else {
      var n := |more| - 1;
      JoinedIs(pieces, more[..n], m);
      assert (pieces + more)[..|pieces + more| - 1] == pieces + more[..n];
    }
  }

  /** `conhash_md5_digest` for a message that arrives in pieces: the digest is that of the whole. */
  method DigestPieces(process: Compress, pieces: seq<seq<Byte>>, digest: array<Byte>)
    requires digest.Length == 16 && forall i :: 0 <= i < |pieces| ==> |pieces[i]| < 0x8000_0000 - 63
    modifies digest
    ensures Digests(process, Joined(pieces), digest[..])
  {
    hide Fold, Digests, Holds, Padded;
    var s := new State(process);
    for i := 0 to |pieces|
      invariant s.Valid() && s.message == Joined(pieces[..i]) && s.process == process
      invariant fresh(s) && fresh(s.buf)
    {
      s.Append(pieces[i], |pieces[i]|);
      assert pieces[..i + 1][..i] == pieces[..i];
      assert pieces[i][..|pieces[i]|] == pieces[i];
    }
    assert pieces[..|pieces|] == pieces;
    s.Finish(digest);
  }

  /** `conhash_md5_digest`. */
  method Digest(process: Compress, instr: seq<Byte>) returns (digest: array<Byte>)
    requires |instr| < 0x8000_0000
    ensures fresh(digest) && digest.Length == 16 && Digests(process, instr, digest[..])
  {
    hide Fold, Digests, Holds, Padded;
    digest := new Byte[16](_ => 0);
    var s := new State(process);
    s.Append(instr, |instr|);
    assert [] + instr[..|instr|] == instr;
    s.Finish(digest);
  }

  lemma WordsOf(d: seq<Byte>, w: Abcd, i: nat)
    requires IsDigest(d, w) && i < 4
    ensures w.At(i) ==
      d[4 * i] as int + 0x100 * d[4 * i + 1] as int + 0x1_0000 * d[4 * i + 2] as int + 0x100_0000 * d[4 * i + 3] as int
  {
    LeFour(if i == 0 then d[..4] else if i == 1 then d[4..8] else if i == 2 then d[8..12] else d[12..]);
  }

  /** `__conhash_hash_def`: the sum of the four words of the digest, which fits a 64-bit long. */
  method HashDef(process: Compress, instr: seq<Byte>) returns (hash: int, ghost p: seq<Byte>)
    requires |instr| < 0x8000_0000
    ensures Padded(instr, p) && |p| % 64 == 0
    ensures var w := Fold(process, p); hash == w.a + w.b + w.c + w.d
    ensures 0 <= hash < 4 * U32
  {
    hide Fold, Padded, IsDigest;
    var d := Digest(process, instr);
    p :| Padded(instr, p) && |p| % 64 == 0 && IsDigest(d[..], Fold(process, p));
    ghost var w, bs := Fold(process, p), d[..];
    hash := 0;
    for i := 0 to 4
      invariant d[..] == bs && IsDigest(bs, w)
      invariant hash == (if i > 0 then w.a else 0) + (if i > 1 then w.b else 0)
        + (if i > 2 then w.c else 0) + (if i > 3 then w.d else 0)
    {
      WordsOf(bs, w, i);
      hash := hash + (d[4 * i + 3] as int * 0x100_0000 + d[4 * i + 2] as int * 0x1_0000
        + d[4 * i + 1] as int * 0x100 + d[4 * i] as int);
    }
  }
}
