/** The Fletcher-16 check bytes of source/kernel/src/Fletcher.c, and the event identifiers made with them. */
module Fletcher {
  import opened Base

  type Bytes = seq<U8>

  function Plain(d: Bytes): nat
    decreases |d|
  {
    if d == [] then 0 else d[0] + Plain(d[1..])
  }

  /** Every byte weighted by its distance to the end. */
  function Weighted(d: Bytes): nat
    decreases |d|
  {
    if d == [] then 0 else |d| * d[0] + Weighted(d[1..])
  }

  /** The checksum as a function of the two sums. */
  function CheckBytes(plain: nat, weighted: nat): (r: (U8, U8))
    ensures 1 <= r.0 && 1 <= r.1
    ensures (plain + r.0 + r.1) % 255 == 0 && (weighted + plain + r.0) % 255 == 0
  {
    var cb0 := 0xFF - (plain + weighted) % 0xFF;
    (cb0, 0xFF - (plain + cb0) % 0xFF)
  }

  function Checksum(d: Bytes): U16 {
    if d == [] then 0
    else
      var (cb0, cb1) := CheckBytes(Plain(d), Weighted(d));
      cb0 * 0x100 + cb1
  }

  lemma {:induction false} Append(d: Bytes, x: U8)
    ensures Plain(d + [x]) == Plain(d) + x
    ensures Weighted(d + [x]) == Weighted(d) + Plain(d) + x
    decreases |d|
  {
    if d == [] {
    } else {
      assert (d + [x])[1..] == d[1..] + [x];
      Append(d[1..], x);
      calc {
        Weighted(d + [x]);
        (|d| + 1) * d[0] + Weighted(d[1..] + [x]);
        |d| * d[0] + d[0] + Weighted(d[1..]) + Plain(d[1..]) + x;
      }
    }
  }

  lemma ModAdd(a: nat, b: nat)
    ensures (a % 255 + b) % 255 == (a + b) % 255
  {}

  lemma CheckBytesMod(p: nat, w: nat)
    ensures CheckBytes(p % 255, w % 255) == CheckBytes(p, w)
  {
    ModAdd(p, w % 255);
    ModAdd(w, p);
    var cb0 := 0xFF - (p + w) % 0xFF;
    ModAdd(p, cb0);
  }

  /** The two running sums of the loop below. */
  ghost predicate RunningSums(d: Bytes, sum1: U16, sum2: U16) {
    Residues(Plain(d), Weighted(d), sum1, sum2)
  }

  lemma NextSums(d: Bytes, x: U8, sum1: U16, sum2: U16)
    requires RunningSums(d, sum1, sum2)
    ensures RunningSums(d + [x], (sum1 + x) % 0xFF, (sum2 + (sum1 + x) % 0xFF) % 0xFF)
  {
    Append(d, x);
    NextResidues(Plain(d), Weighted(d), x, Plain(d + [x]), Weighted(d + [x]), sum1, sum2);
  }

  predicate Residues(p: nat, w: nat, sum1: U16, sum2: U16) { sum1 == p % 255 && sum2 == w % 255 }

  lemma NextResidues(p: nat, w: nat, x: U8, p': nat, w': nat, sum1: U16, sum2: U16)
    requires Residues(p, w, sum1, sum2) && p' == p + x && w' == w + p + x
    ensures Residues(p', w', (sum1 + x) % 0xFF, (sum2 + (sum1 + x) % 0xFF) % 0xFF)
  {
    ModAdd(p, x);
    ModAdd(w, p' % 255);
    ModAdd(p', w);
  }

  /** FletcherGenerate. */
  method Generate(data: Bytes) returns (checksum: U16)
    requires |data| < 0x1_0000
    ensures checksum == Checksum(data)
  {
    if |data| == 0 {
      return 0;
    }
    var sum1: U16, sum2: U16 := 0, 0;
    var index := 0;
    while index < |data|
      invariant 0 <= index <= |data|
      invariant RunningSums(data[..index], sum1, sum2)
    {
      assert data[..index + 1] == data[..index] + [data[index]];
      NextSums(data[..index], data[index], sum1, sum2);
      sum1 := (sum1 + data[index]) % 0xFF;
      sum2 := (sum2 + sum1) % 0xFF;
      index := index + 1;
    }
    assert data[..index] == data;
    CheckBytesMod(Plain(data), Weighted(data));
    var cb0 := 0xFF - (sum1 + sum2) % 0xFF;
    var cb1 := 0xFF - (sum1 + cb0) % 0xFF;
    checksum := cb0 * 0x100 + cb1;
  }

  /** FletcherVerify. */
  method Verify(fletcher: U16, data: Bytes) returns (ok: bool)
    requires |data| < 0x1_0000
    ensures ok <==> data != [] && fletcher == Checksum(data)
  {
    if |data| == 0 {
      return false;
    }
    var expected := Generate(data);
    return fletcher == expected;
  }

  // ----- what the checksum promises -----

  predicate BothVanish(p: nat, w: nat) { p % 255 == 0 && w % 255 == 0 }

  /** Data followed by the two bytes of its checksum, the upper one first, has both sums 0. */
  lemma AppendedSumsVanish(d: Bytes)
    requires d != []
    ensures var c0, c1 := Checksum(d) / 0x100, Checksum(d) % 0x100;
            BothVanish(Plain(d + [c0, c1]), Weighted(d + [c0, c1]))
  {
    var c := CheckBytes(Plain(d), Weighted(d));
    BytesOfChecksum(d, c);
    AppendTwo(d, c.0, c.1);
    CheckBytesVanish(Plain(d), Weighted(d), c, Plain(d + [c.0, c.1]), Weighted(d + [c.0, c.1]));
  }

  lemma BytesOfChecksum(d: Bytes, c: (U8, U8))
    requires d != [] && c == CheckBytes(Plain(d), Weighted(d))
    ensures Checksum(d) / 0x100 == c.0 && Checksum(d) % 0x100 == c.1
  {
    BytesOf(c.0, c.1);
  }

  lemma BytesOf(a: U8, b: U8)
    ensures (a * 0x100 + b) / 0x100 == a && (a * 0x100 + b) % 0x100 == b
  {}

  lemma CheckBytesVanish(p: nat, w: nat, c: (U8, U8), p': nat, w': nat)
    requires c == CheckBytes(p, w) && p' == p + c.0 + c.1 && w' == w + p + c.0 + p'
    ensures BothVanish(p', w')
  {
    SumVanishes(p', w + p + c.0);
  }

  lemma AppendTwo(d: Bytes, x: U8, y: U8)
    ensures Plain(d + [x, y]) == Plain(d) + x + y
    ensures Weighted(d + [x, y]) == Weighted(d) + Plain(d) + x + (Plain(d) + x + y)
  {
    assert d + [x, y] == d + [x] + [y];
    Append(d, x);
    Append(d + [x], y);
  }

  lemma SumVanishes(p: nat, w: nat)
    requires p % 255 == 0 && w % 255 == 0
    ensures (w + p) % 255 == 0
  {}

  lemma NeverZero(d: Bytes)
    requires d != []
    ensures Checksum(d) % 0x100 != 0 && Checksum(d) / 0x100 != 0
  {}

  lemma SameResidue(a: int, b: int, c: int)
    requires (a + c) % 255 == 0 && (b + c) % 255 == 0
    ensures a % 255 == b % 255
  {}

  lemma SameWord(a: U8, b: U8, a': U8, b': U8)
    ensures a * 0x100 + b == a' * 0x100 + b' <==> a == a' && b == b'
  {}

  /** The check bytes are told by the checksum. */
  lemma SamePair(d: Bytes, e: Bytes)
    requires d != [] && e != []
    ensures Checksum(d) == Checksum(e) <==> CheckBytes(Plain(d), Weighted(d)) == CheckBytes(Plain(e), Weighted(e))
  {
    var c, c' := CheckBytes(Plain(d), Weighted(d)), CheckBytes(Plain(e), Weighted(e));
    SameWord(c.0, c.1, c'.0, c'.1);
  }

  predicate SumsAgree(p: nat, w: nat, p': nat, w': nat) { p % 255 == p' % 255 && w % 255 == w' % 255 }

  /** Two byte strings share a checksum exactly when both sums agree modulo 255. */
  lemma SameChecksum(d: Bytes, e: Bytes)
    requires d != [] && e != []
    ensures Checksum(d) == Checksum(e) <==> SumsAgree(Plain(d), Weighted(d), Plain(e), Weighted(e))
  {
    SamePair(d, e);
    SameCheckBytes(Plain(d), Weighted(d), Plain(e), Weighted(e));
  }

  lemma SameCheckBytes(p: nat, w: nat, p': nat, w': nat)
    ensures CheckBytes(p, w) == CheckBytes(p', w') <==> SumsAgree(p, w, p', w')
  {
    var c := CheckBytes(p, w);
    if c == CheckBytes(p', w') {
      SameResidue(p, p', c.0 + c.1);
      SameResidue(w + p, w' + p', c.0);
      SameDifference(w, p, w', p');
    }
    if p % 255 == p' % 255 && w % 255 == w' % 255 {
      CheckBytesMod(p, w);
      CheckBytesMod(p', w');
    }
  }

  lemma SameDifference(w: nat, p: nat, w': nat, p': nat)
    requires (w + p) % 255 == (w' + p') % 255 && p % 255 == p' % 255
    ensures w % 255 == w' % 255
  {}

  lemma Distribute(n: int, x: int, y: int)
    ensures n * y == n * x + n * (y - x)
  {}

  lemma {:induction false} UpdateSums(d: Bytes, i: nat, v: U8)
    requires i < |d|
    ensures Plain(d[i := v]) == Plain(d) - d[i] + v
    ensures Weighted(d[i := v]) == Weighted(d) + (|d| - i) * (v - d[i])
    decreases |d|
  {
    if i == 0 {
      assert d[0 := v][1..] == d[1..];
      Distribute(|d|, d[0], v);
    } else {
      assert d[i := v][1..] == d[1..][i - 1 := v] && |d[1..]| - (i - 1) == |d| - i;
      UpdateSums(d[1..], i - 1, v);
    }
  }

  predicate ZeroAndFull(x: U8, y: U8) { (x == 0 && y == 0xFF) || (x == 0xFF && y == 0) }

  /** A changed byte goes unnoticed only if 0 became 255 or 255 became 0. */
  lemma OneByteChange(d: Bytes, i: nat, v: U8)
    requires i < |d|
    ensures Checksum(d[i := v]) == Checksum(d) <==> v == d[i] || ZeroAndFull(v, d[i])
  {
    if v == d[i] {
      assert d[i := v] == d;
    } else {
      SamePlain(d, i, v);
      SameChecksum(d[i := v], d);
      if ZeroAndFull(v, d[i]) {
        SameWeighted(d, i, v);
      }
    }
  }

  lemma SamePlain(d: Bytes, i: nat, v: U8)
    requires i < |d|
    ensures Plain(d[i := v]) % 255 == Plain(d) % 255 <==> v == d[i] || ZeroAndFull(v, d[i])
  {
    UpdateSums(d, i, v);
    ByteInSum(d, i);
    SameByteResidue(Plain(d), d[i], v);
  }

  lemma SameWeighted(d: Bytes, i: nat, v: U8)
    requires i < |d| && ZeroAndFull(v, d[i])
    ensures Weighted(d[i := v]) % 255 == Weighted(d) % 255
  {
    UpdateSums(d, i, v);
    if v == 0xFF {
      AddMultiple(Weighted(d), |d| - i);
    } else {
      AddMultiple(Weighted(d[i := v]), |d| - i);
    }
  }

  lemma SameByteResidue(p: nat, x: U8, y: U8)
    requires x <= p
    ensures (p - x + y) % 255 == p % 255 <==> y == x || ZeroAndFull(y, x)
  {}

  lemma AddMultiple(w: nat, n: nat)
    ensures (w + n * 255) % 255 == w % 255
  {}

  lemma {:induction false} ByteInSum(d: Bytes, i: nat)
    requires i < |d|
    ensures d[i] <= Plain(d)
    decreases |d|
  {
    if i > 0 {
      ByteInSum(d[1..], i - 1);
    }
  }

  /** Two neighbours that change places go unnoticed only if they are equal, or 0 and 255. */
  lemma NeighboursSwapped(d: Bytes, i: nat)
    requires i + 1 < |d|
    ensures Checksum(d[i := d[i + 1]][i + 1 := d[i]]) == Checksum(d) <==>
            d[i] == d[i + 1] || ZeroAndFull(d[i], d[i + 1])
  {
    var once := d[i := d[i + 1]];
    var swapped := once[i + 1 := d[i]];
    UpdateSums(d, i, d[i + 1]);
    UpdateSums(once, i + 1, d[i]);
    var x: int, y: int := d[i], d[i + 1];
    Telescope(|d| - i, x, y);
    assert Plain(swapped) == Plain(d) && Weighted(swapped) == Weighted(d) + (y - x);
    SameChecksum(swapped, d);
    SameShift(Weighted(d), y - x);
  }

  lemma Telescope(n: nat, x: int, y: int)
    ensures n * (y - x) + (n - 1) * (x - y) == y - x
  {}

  lemma SameShift(w: nat, delta: int)
    requires -255 <= delta <= 255 && w + delta >= 0
    ensures (w + delta) % 255 == w % 255 <==> delta in {-255, 0, 255}
  {
  }

  // ----- event identifiers -----

  function LittleEndian(x: U32): (b: Bytes)
    ensures |b| == 4
  {
    [x % 0x100, x / 0x100 % 0x100, x / 0x1_0000 % 0x100, x / 0x100_0000]
  }

  /** The 64-bit word (source_id << 32) | code in memory order. */
  function EventBytes(sourceId: U32, code: U32): Bytes { LittleEndian(code) + LittleEndian(sourceId) }

  /** The number with these four digits to the base 0x100, the lowest one first. */
  function Number(b0: int, b1: int, b2: int, b3: int): int { b0 + 0x100 * b1 + 0x1_0000 * b2 + 0x100_0000 * b3 }

  lemma BytesAreDigits(x: U32)
    ensures var b := LittleEndian(x); Number(b[0], b[1], b[2], b[3]) == x
  {
    Digits(x, x / 0x100, x / 0x1_0000, x / 0x100_0000);
  }

  lemma Digits(x: U32, y: nat, z: nat, u: nat)
    requires y == x / 0x100 && z == x / 0x1_0000 && u == x / 0x100_0000
    ensures Number(x % 0x100, y % 0x100, z % 0x100, u) == x
  {
    HigherBytes(x);
    assert z == y / 0x100 && u == z / 0x100;
  }

  /** The eight bytes are the code and the source, each with its lowest byte first, and tell both. */
  lemma EventBytesTell(sourceId: U32, code: U32)
    ensures var b := EventBytes(sourceId, code);
            |b| == 8 && Number(b[0], b[1], b[2], b[3]) == code && Number(b[4], b[5], b[6], b[7]) == sourceId
  {
    BytesAreDigits(code);
    BytesAreDigits(sourceId);
    EightBytes(LittleEndian(code), LittleEndian(sourceId));
  }

  lemma EightBytes(a: Bytes, b: Bytes)
    requires |a| == |b| == 4
    ensures forall i :: 0 <= i < 4 ==> (a + b)[i] == a[i] && (a + b)[4 + i] == b[i]
  {}

  /** EventToHash. */
  function EventToHash(sourceId: U32, code: U32): (hash: U16)
    ensures hash != 0
  {
    NeverZero(EventBytes(sourceId, code));
    Checksum(EventBytes(sourceId, code))
  }

  lemma FillLowByte(code: U32)
    requires code % 0x100 == 0
    ensures LittleEndian(code)[0] == 0 && LittleEndian(code + 0xFF) == LittleEndian(code)[0 := 0xFF]
  {
    assert (code + 0xFF) / 0x100 == code / 0x100;
    HigherBytes(code);
    HigherBytes(code + 0xFF);
  }

  lemma HigherBytes(x: U32)
    ensures x / 0x1_0000 == x / 0x100 / 0x100 && x / 0x100_0000 == x / 0x100 / 0x1_0000
  {}

  /** Different events can have the same identifier: specifiers 0x0000 and 0x00FF of one source and type do. */
  lemma HashCollides(sourceId: U32, code: U32)
    requires code % 0x100 == 0
    ensures EventToHash(sourceId, code) == EventToHash(sourceId, code + 0xFF)
  {
    LowByteFilled(sourceId, code);
    OneByteChange(EventBytes(sourceId, code), 0, 0xFF);
  }

  lemma LowByteFilled(sourceId: U32, code: U32)
    requires code % 0x100 == 0
    ensures EventBytes(sourceId, code)[0] == 0
    ensures EventBytes(sourceId, code + 0xFF) == EventBytes(sourceId, code)[0 := 0xFF]
  {
    FillLowByte(code);
  }

  /** Exactly when two events get the same identifier. */
  lemma HashEqual(s: U32, c: U32, s': U32, c': U32)
    ensures EventToHash(s, c) == EventToHash(s', c') <==>
            && Plain(EventBytes(s, c)) % 255 == Plain(EventBytes(s', c')) % 255
            && Weighted(EventBytes(s, c)) % 255 == Weighted(EventBytes(s', c')) % 255
  {
    SameChecksum(EventBytes(s, c), EventBytes(s', c'));
  }
}
