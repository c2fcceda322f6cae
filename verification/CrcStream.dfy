/** Crc32 over whole buffers: the loop of the source, chunked computation, and what the checksum detects. */
module CrcStream {
  import opened Crc32

  /** The loop of Crc32 (source/kernel/src/Crc32.c). */
  method Compute(prevCrc: bv32, buf: seq<bv8>) returns (crc: bv32)
    ensures crc == Bitwise(prevCrc, buf)
  {
    crc := prevCrc;
    var i := 0;
    while i < |buf|
      invariant 0 <= i <= |buf|
      invariant Bitwise(crc, buf[i..]) == Bitwise(prevCrc, buf)
    {
      TableStepIsBitwise(crc, buf[i]);
      crc := TableStep(crc, buf[i]);
      assert buf[i..][1..] == buf[i + 1..];
      i := i + 1;
    }
  }

  /** A buffer may be handed over in pieces, each call continuing from the last result. */
  lemma {:induction false} Chunks(p: bv32, a: seq<bv8>, b: seq<bv8>)
    ensures Bitwise(Bitwise(p, a), b) == Bitwise(p, a + b)
    decreases |a|
  {
    if a == [] {
      assert a + b == b;
    } else {
      assert (a + b)[1..] == a[1..] + b;
      Chunks(BitsIn(p, a[0], 8), a[1..], b);
    }
  }

  // ----- differences travel through the register on their own -----

  ghost predicate Differ(a: seq<bv8>, b: seq<bv8>, d: seq<bv8>) {
    |a| == |b| == |d| && forall k :: 0 <= k < |a| ==> d[k] == a[k] ^ b[k]
  }

  lemma AddLoads(p: bv32, q: bv32, r: bv32, a: bv8, b: bv8)
    requires Sum(p, q, r)
    ensures Sum(p ^ Load(a), q ^ Load(b), r ^ Load(a ^ b))
  {}

  lemma ByteIn(s: bv32, b: bv8)
    ensures BitsIn(s, b, 8) == Clocks(s ^ Load(b), 8)
  {
    EmptyAfterEight(b);
    BitsInIsClocks(s, b, 8, s ^ Load(b));
  }

  lemma ByteSum(p: bv32, q: bv32, r: bv32, a: bv8, b: bv8)
    requires Sum(p, q, r)
    ensures Sum(BitsIn(p, a, 8), BitsIn(q, b, 8), BitsIn(r, a ^ b, 8))
  {
    AddLoads(p, q, r, a, b);
    ClocksSum(p ^ Load(a), q ^ Load(b), r ^ Load(a ^ b), 8);
    ByteIn(p, a);
    ByteIn(q, b);
    ByteIn(r, a ^ b);
  }

  lemma {:induction false} BitwiseSum(p: bv32, q: bv32, r: bv32, a: seq<bv8>, b: seq<bv8>, d: seq<bv8>)
    requires Sum(p, q, r) && Differ(a, b, d)
    ensures Sum(Bitwise(p, a), Bitwise(q, b), Bitwise(r, d))
    decreases |a|
  {
    if a != [] {
      ByteSum(p, q, r, a[0], b[0]);
      BitwiseSum(BitsIn(p, a[0], 8), BitsIn(q, b[0], 8), BitsIn(r, d[0], 8), a[1..], b[1..], d[1..]);
    }
  }

  lemma SumZero(a: bv32, b: bv32, c: bv32)
    requires Sum(a, b, c)
    ensures c == 0 <==> a == b
  {}

  /** Two messages of one length share a checksum exactly when the checksum of their difference is 0, whatever the
      start. */
  lemma SameChecksum(p: bv32, a: seq<bv8>, b: seq<bv8>, d: seq<bv8>)
    requires Differ(a, b, d)
    ensures Bitwise(p, a) == Bitwise(p, b) <==> Bitwise(0, d) == 0
  {
    BitwiseSum(p, p, 0, a, b, d);
    SumZero(Bitwise(p, a), Bitwise(p, b), Bitwise(0, d));
  }

  // ----- running the register backwards -----

  lemma {:induction false} ClocksOfZero(n: nat)
    ensures Clocks(0, n) == 0
    decreases n
  {
    if n > 0 {
      ClocksOfZero(n - 1);
    }
  }

  lemma ClocksInjective(x: bv32, y: bv32, z: bv32, n: nat)
    requires Sum(x, y, z)
    ensures Clocks(x, n) == Clocks(y, n) <==> x == y
  {
    if Clocks(x, n) == Clocks(y, n) {
      ClocksSum(x, y, z, n);
      SumZero(Clocks(x, n), Clocks(y, n), Clocks(z, n));
      ClocksZero(z, n);
      SumZero(x, y, z);
    }
  }

  /** The state before a byte that led to t, for a t whose lowest byte is 0. */
  function Before(b: bv8, t: bv32): bv32 { Load(b) ^ (t >> 8) }

  lemma MovedUp(t: bv32)
    requires t & 0xff == 0
    ensures Clocks(t >> 8, 8) == t
  {
    DownAndUp(t);
    ClocksWithoutTop(t >> 8);
  }

  lemma DownAndUp(t: bv32)
    requires t & 0xff == 0
    ensures (t >> 8) & 0xff00_0000 == 0 && (t >> 8) << 8 == t
  {}

  lemma Rotate(a: bv32, b: bv32, c: bv32)
    requires Sum(a, b, c)
    ensures Sum(b, c, a)
  {}

  lemma MoveTerm(s: bv32, w: bv32, x: bv32, u: bv32)
    requires Sum(s, w, x)
    ensures x == u <==> Sum(w, u, s)
  {
    if x == u {
      Rotate(s, w, u);
    }
    if Sum(w, u, s) {
      Rotate(w, u, s);
      Rotate(u, s, w);
    }
  }

  lemma ByteBefore(s: bv32, b: bv8, t: bv32)
    requires t & 0xff == 0
    ensures BitsIn(s, b, 8) == t <==> s == Before(b, t)
  {
    MovedUp(t);
    ByteFromAny(s, b, t, t >> 8);
    BeforeIsSum(s, b, t);
  }

  lemma BeforeIsSum(s: bv32, b: bv8, t: bv32)
    ensures Sum(Load(b), t >> 8, s) <==> s == Before(b, t)
  {}

  lemma ByteFromAny(s: bv32, b: bv8, t: bv32, u: bv32)
    requires Clocks(u, 8) == t
    ensures BitsIn(s, b, 8) == t <==> Sum(Load(b), u, s)
  {
    ByteFrom(s, b, s ^ Load(b), t, u);
  }

  lemma ByteFrom(s: bv32, b: bv8, x: bv32, t: bv32, u: bv32)
    requires Sum(s, Load(b), x) && Clocks(u, 8) == t
    ensures BitsIn(s, b, 8) == t <==> Sum(Load(b), u, s)
  {
    EmptyAfterEight(b);
    BitsInIsClocks(s, b, 8, x);
    OnlyFrom(x, u, t);
    MoveTerm(s, Load(b), x, u);
  }

  lemma OnlyFrom(x: bv32, y: bv32, t: bv32)
    requires Clocks(y, 8) == t
    ensures Clocks(x, 8) == t <==> x == y
  {
    ClocksInjective(x, y, x ^ y, 8);
  }

  /** Four message bytes as the register sees them, first byte on top. */
  function Word(b0: bv8, b1: bv8, b2: bv8, b3: bv8): bv32 {
    Before(b0, Before(b1, Before(b2, Before(b3, 0))))
  }

  lemma BeforeLow(b0: bv8, b1: bv8, b2: bv8, b3: bv8)
    ensures Before(b3, 0) & 0x00ff_ffff == 0
    ensures Before(b2, Before(b3, 0)) & 0x0000_ffff == 0
    ensures Before(b1, Before(b2, Before(b3, 0))) & 0x0000_00ff == 0
    ensures Word(b0, b1, b2, b3) == 0 <==> b0 == b1 == b2 == b3 == 0
  {}

  lemma FirstByte(s: bv32, b: bv8, rest: seq<bv8>)
    ensures Bitwise(s, [b] + rest) == Bitwise(BitsIn(s, b, 8), rest)
  {
    assert ([b] + rest)[1..] == rest;
  }

  lemma FourBytes(s: bv32, b0: bv8, b1: bv8, b2: bv8, b3: bv8)
    ensures Bitwise(s, [b0, b1, b2, b3]) == BitsIn(BitsIn(BitsIn(BitsIn(s, b0, 8), b1, 8), b2, 8), b3, 8)
  {
    var s1 := BitsIn(s, b0, 8);
    var s2 := BitsIn(s1, b1, 8);
    FirstByte(s, b0, [b1] + ([b2] + ([b3] + [])));
    FirstByte(s1, b1, [b2] + ([b3] + []));
    FirstByte(s2, b2, [b3] + []);
    FirstByte(BitsIn(s2, b2, 8), b3, []);
    assert [b0, b1, b2, b3] == [b0] + ([b1] + ([b2] + ([b3] + [])));
  }

  lemma FourBytesBefore(s: bv32, b0: bv8, b1: bv8, b2: bv8, b3: bv8)
    ensures BitsIn(BitsIn(BitsIn(BitsIn(s, b0, 8), b1, 8), b2, 8), b3, 8) == 0 <==> s == Word(b0, b1, b2, b3)
  {
    var s1 := BitsIn(s, b0, 8);
    var s2 := BitsIn(s1, b1, 8);
    BeforeLow(b0, b1, b2, b3);
    ByteBefore(BitsIn(s2, b2, 8), b3, 0);
    ByteBefore(s2, b2, Before(b3, 0));
    ByteBefore(s1, b1, Before(b2, Before(b3, 0)));
    ByteBefore(s, b0, Before(b1, Before(b2, Before(b3, 0))));
  }

  /** Four bytes lead to 0 from exactly one state: the state that equals them. */
  lemma WordIn(s: bv32, b0: bv8, b1: bv8, b2: bv8, b3: bv8)
    ensures Bitwise(s, [b0, b1, b2, b3]) == 0 <==> s == Word(b0, b1, b2, b3)
  {
    FourBytes(s, b0, b1, b2, b3);
    FourBytesBefore(s, b0, b1, b2, b3);
  }

  // ----- what follows for the checksum -----

  /** The checksum as four bytes, highest first. */
  function BigEndian(c: bv32): seq<bv8> {
    [(c >> 24) as bv8, ((c >> 16) & 0xff) as bv8, ((c >> 8) & 0xff) as bv8, (c & 0xff) as bv8]
  }

  lemma BigEndianIsWord(c: bv32)
    ensures c == Word((c >> 24) as bv8, ((c >> 16) & 0xff) as bv8, ((c >> 8) & 0xff) as bv8, (c & 0xff) as bv8)
  {}

  /** A message followed by its checksum has checksum 0. */
  lemma Residue(p: bv32, m: seq<bv8>)
    ensures Bitwise(p, m + BigEndian(Bitwise(p, m))) == 0
  {
    var c := Bitwise(p, m);
    BigEndianIsWord(c);
    WordIn(c, (c >> 24) as bv8, ((c >> 16) & 0xff) as bv8, ((c >> 8) & 0xff) as bv8, (c & 0xff) as bv8);
    Chunks(p, m, BigEndian(c));
  }

  /** No run of equal bytes after an error hides it: the register only reaches 0 from 0. */
  lemma {:induction false} ZerosKeep(r: bv32, d: seq<bv8>)
    requires Zero(d)
    ensures Bitwise(r, d) == 0 <==> r == 0
    decreases |d|
  {
    if d != [] {
      ByteBefore(r, 0, 0);
      ZerosKeep(BitsIn(r, d[0], 8), d[1..]);
    }
  }

  ghost predicate Zero(d: seq<bv8>) { forall k :: 0 <= k < |d| ==> d[k] == 0 }

  lemma FourAmongZeros(head: seq<bv8>, w: seq<bv8>, tail: seq<bv8>)
    requires Zero(head) && |w| == 4 && Zero(tail)
    ensures Bitwise(0, head + (w + tail)) == 0 <==> w[0] == w[1] == w[2] == w[3] == 0
  {
    Chunks(0, head, w + tail);
    ZerosKeep(0, head);
    Chunks(0, w, tail);
    ZerosKeep(Bitwise(0, w), tail);
    assert w == [w[0], w[1], w[2], w[3]];
    WordIn(0, w[0], w[1], w[2], w[3]);
    BeforeLow(w[0], w[1], w[2], w[3]);
  }

  lemma WindowDetected(d: seq<bv8>, i: nat, k: nat)
    requires i <= k < i + 4 <= |d| && d[k] != 0
    requires forall j :: 0 <= j < |d| && !(i <= j < i + 4) ==> d[j] == 0
    ensures Bitwise(0, d) != 0
  {
    var head, w, tail := d[..i], d[i..i + 4], d[i + 4..];
    assert d == head + (w + tail);
    assert Zero(head) && Zero(tail) by {
      assert forall j :: 0 <= j < |head| ==> head[j] == d[j];
      assert forall j :: 0 <= j < |tail| ==> tail[j] == d[i + 4 + j];
    }
    FourAmongZeros(head, w, tail);
    assert w[k - i] == d[k];
  }

  lemma XorZero(x: bv8, y: bv8)
    ensures x ^ y == 0 <==> x == y
  {}

  lemma Difference(a: seq<bv8>, b: seq<bv8>) returns (d: seq<bv8>)
    requires |a| == |b|
    ensures Differ(a, b, d) && forall k :: 0 <= k < |a| ==> (d[k] == 0 <==> a[k] == b[k])
  {
    d := seq(|a|, k requires 0 <= k < |a| => a[k] ^ b[k]);
    forall k | 0 <= k < |a|
      ensures d[k] == 0 <==> a[k] == b[k]
    {
      XorZero(a[k], b[k]);
    }
  }

  lemma ShortWindowDetected(d: seq<bv8>, i: nat, k: nat)
    requires k < |d| && d[k] != 0
    requires forall j :: 0 <= j < |d| && !(i <= j < i + 4) ==> d[j] == 0
    ensures Bitwise(0, d) != 0
  {
    var zeros: seq<bv8> := [0, 0, 0, 0];
    Chunks(0, d, zeros);
    ZerosKeep(Bitwise(0, d), zeros);
    WindowDetected(d + zeros, i, k);
  }

  /** Every change confined to four neighbouring bytes (near the end of a message: to what is left of them) changes
      the checksum. */
  lemma BurstDetected(p: bv32, a: seq<bv8>, b: seq<bv8>, i: nat)
    requires |a| == |b| && a != b
    requires forall k :: 0 <= k < |a| && !(i <= k < i + 4) ==> a[k] == b[k]
    ensures Bitwise(p, a) != Bitwise(p, b)
  {
    var d := Difference(a, b);
    SameChecksum(p, a, b, d);
    var k :| 0 <= k < |a| && a[k] != b[k];
    ShortWindowDetected(d, i, k);
  }
}
