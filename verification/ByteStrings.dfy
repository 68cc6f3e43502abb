/** Bytes, and unsigned numbers of variable length. */
module ByteStrings {
  import opened Basics
  import opened Options

  type byte = x: int | 0 <= x < 256
  type Bytes = seq<byte>


  /** Seven bits a byte, low bits first; the high bit says that more follow. */
  function VarUInt(n: nat): (r: Bytes)
    ensures |r| > 0
  {
    if n < 128 then [n] else [n % 128 + 128] + VarUInt(n / 128)
  }

  /** Writes a number of variable length; `ok` is false for one that is too big. */
  method WriteVarUInt32(val: nat, data: Bytes) returns (ok: bool, r: Bytes)
    ensures ok <==> val < UINT32
    ensures ok ==> r == data + VarUInt(val)
  {
    r := data;
    ok := val < UINT32;
    if !ok {
      return;
    }
    var v := val;
    var more := true;
    while more
      invariant (if more then r + VarUInt(v) else r) == data + VarUInt(val)
      decreases more, v
    {
      var b := v % 128;
      v := v / 128;
      r := r + [if v > 0 then b + 128 else b];
      more := v > 0;
    }
  }

  function Pow128(k: nat): nat {
    Power(128, k)
  }

  datatype Read = Read(value: nat, rest: Bytes)

  /** Reading a number after `k` bytes of it; None for `limit` bytes that are not the end,
      and when the data runs out.  Bits outside the machine's integer are lost. */
  function VarUIntIn(data: Bytes, k: nat, limit: nat, modulus: nat): Option<Read>
    requires modulus > 0
    decreases |data|
  {
    if k == limit || data == [] then None
    else
      var low := data[0] % 128 * Pow128(k) % modulus;
      if data[0] < 128 then Some(Read(low, data[1..]))
      else
        var r := VarUIntIn(data[1..], k + 1, limit, modulus);
        if r.None? then None else Some(Read(low + r.value.value, r.value.rest))
  }

  /** A number of 32 bits takes at most five bytes. */
  function VarUIntFrom(data: Bytes, k: nat): Option<Read> {
    VarUIntIn(data, k, 5, UINT32)
  }

  lemma Powers128()
    ensures Pow128(0) == 1 && Pow128(1) == 0x80 && Pow128(2) == 0x4000 && Pow128(3) == 0x20_0000 && Pow128(4) == 0x1000_0000 && Pow128(5) == 0x8_0000_0000
  {
    assert Pow128(2) == 128 * Pow128(1);
    assert Pow128(3) == 128 * Pow128(2);
    assert Pow128(4) == 128 * Pow128(3);
    assert Pow128(5) == 128 * Pow128(4);
  }

  lemma Distribute(q: int, r: int, p: int)
    ensures (128 * q + r) * p == q * (128 * p) + r * p
  {
  }

  lemma Product(a: nat, b: nat)
    ensures a * b >= 0 && (a > 0 ==> a * b >= b)
  {
    if a > 0 { assert (a - 1) * b >= 0; }
  }

  /** The last seven bits of a number, and what is left. */
  lemma Digits128(n: nat, k: nat, limit: nat, modulus: nat) returns (low: nat, high: nat)
    requires n >= 128 && k < limit && n * Pow128(k) < modulus <= Pow128(limit)
    ensures low == n % 128 * Pow128(k) && high == n / 128 * Pow128(k + 1) && n * Pow128(k) == low + high && k + 1 < limit
  {
    assert Pow128(k + 1) == 128 * Pow128(k);
    hide Pow128;
    var q, r := n / 128, n % 128;
    assert n == 128 * q + r;
    Distribute(q, r, Pow128(k));
    Product(r, Pow128(k));
    Product(q, Pow128(k + 1));
    low, high := r * Pow128(k), q * Pow128(k + 1);
  }

  lemma ReadOne(n: nat, k: nat, low: nat, tail: Bytes, limit: nat, modulus: nat)
    requires n >= 128 && k < limit && low == n % 128 * Pow128(k) < modulus
    ensures VarUIntIn([n % 128 + 128] + tail, k, limit, modulus) ==
              var r := VarUIntIn(tail, k + 1, limit, modulus);
              if r.None? then None else Some(Read(low + r.value.value, r.value.rest))
  {
    var b := n % 128 + 128;
    assert b % 128 == n % 128;
    Below(low, modulus);
    hide Pow128;
    assert ([b] + tail)[1..] == tail && ([b] + tail)[0] == b;
  }

  lemma Below(a: nat, m: nat)
    requires a < m
    ensures a % m == a
  {
  }

  lemma ReadLast(n: nat, k: nat, low: nat, rest: Bytes, limit: nat, modulus: nat)
    requires n < 128 && k < limit && low == n * Pow128(k) < modulus
    ensures VarUIntIn([n] + rest, k, limit, modulus) == Some(Read(low, rest))
  {
    Below(low, modulus);
    hide Pow128;
    assert ([n] + rest)[1..] == rest && ([n] + rest)[0] % 128 == n;
  }

  lemma VarUIntIs(n: nat, rest: Bytes)
    ensures VarUInt(n) + rest == if n < 128 then [n] + rest else [n % 128 + 128] + (VarUInt(n / 128) + rest)
  {
  }

  /** Reading undoes writing, and leaves what follows. */
  lemma {:induction false} VarUIntReads(n: nat, k: nat, rest: Bytes, limit: nat, modulus: nat)
    requires k < limit && n * Pow128(k) < modulus <= Pow128(limit)
    ensures VarUIntIn(VarUInt(n) + rest, k, limit, modulus) == Some(Read(n * Pow128(k), rest))
    decreases n
  {
    hide Pow128, VarUInt, VarUIntIn;
    VarUIntIs(n, rest);
    if n < 128 {
      Product(n, Pow128(k));
      ReadLast(n, k, n * Pow128(k), rest, limit, modulus);
    } else {
      var low, high := Digits128(n, k, limit, modulus);
      ReadOne(n, k, low, VarUInt(n / 128) + rest, limit, modulus);
      VarUIntReads(n / 128, k + 1, rest, limit, modulus);
    }
  }

  /** What was written reads back, whatever follows it. */
  lemma ReadBack(n: nat, rest: Bytes)
    requires n < UINT32
    ensures VarUIntFrom(VarUInt(n) + rest, 0) == Some(Read(n, rest))
  {
    Powers128();
    hide VarUInt, VarUIntIn, Pow128;
    VarUIntReads(n, 0, rest, 5, UINT32);
  }

  /** The number is written in the fewest bytes, and has at most 32 bits. */
  predicate Shortest(data: Bytes, k: nat) {
    data != [] &&
    if data[0] < 128 then (k > 0 ==> data[0] > 0) && (k == 4 ==> data[0] < 16) else k < 4 && Shortest(data[1..], k + 1)
  }

  /** A written number is written in the fewest bytes. */
  lemma {:induction false} WrittenIsShortest(n: nat, k: nat, rest: Bytes)
    requires k < 5 && n * Pow128(k) < UINT32 && (k > 0 ==> n > 0)
    ensures Shortest(VarUInt(n) + rest, k)
    decreases n
  {
    Powers128();
    hide Pow128, VarUInt;
    VarUIntIs(n, rest);
    if n < 128 {
      assert ([n] + rest)[0] == n;
    } else {
      var low, high := Digits128(n, k, 5, UINT32);
      WrittenIsShortest(n / 128, k + 1, rest);
      assert ([n % 128 + 128] + (VarUInt(n / 128) + rest))[1..] == VarUInt(n / 128) + rest;
    }
  }

  /** Data in the fewest bytes is what writing some number gives. */
  lemma {:induction false} ShortestIsWritten(data: Bytes, k: nat) returns (n: nat, rest: Bytes)
    requires k < 5 && Shortest(data, k)
    ensures data == VarUInt(n) + rest && n * Pow128(k) < UINT32 && (k > 0 ==> n > 0)
    decreases |data|
  {
    Powers128();
    hide Pow128, VarUInt;
    if data[0] < 128 {
      n, rest := data[0], data[1..];
      VarUIntIs(n, rest);
      assert data == [n] + rest;
    } else {
      n, rest := ShortestIsWritten(data[1..], k + 1);
      var low, high := data[0] - 128, n;
      n := low + 128 * high;
      OneMore(low, high, k);
      VarUIntIs(n, rest);
      assert data == [data[0]] + data[1..];
    }
  }

  lemma OneMore(low: nat, high: nat, k: nat)
    requires low < 128 && k < 4 && high * Pow128(k + 1) < UINT32
    ensures (low + 128 * high) * Pow128(k) < UINT32
    ensures (low + 128 * high) % 128 == low && (low + 128 * high) / 128 == high
  {
    Powers128();
    hide Pow128;
    if k == 0 {
      assert high < 0x200_0000;
    } else if k == 1 {
      assert high < 0x4_0000;
    } else if k == 2 {
      assert high < 0x800;
    } else {
      assert high < 16;
    }
  }

  /** Reads a number of variable length from position `pos`. */
  method ReadVarUInt32(data: Bytes, pos: nat) returns (ok: bool, result: nat, end: nat)
    requires pos <= |data|
    ensures pos <= end <= |data| && (ok <==> VarUIntFrom(data[pos..], 0).Some?)
    ensures ok ==> VarUIntFrom(data[pos..], 0) == Some(Read(result, data[end..]))
  {
    result, end, ok := 0, pos, false;
    var k := 0;
    var more := true;
    while more
      invariant pos <= end <= |data| && k <= 5 && (k == 5 ==> true)
      invariant more ==> (var r := VarUIntFrom(data[end..], k);
                          VarUIntFrom(data[pos..], 0) == if r.None? then None else Some(Read(result + r.value.value, r.value.rest)))
      invariant !more ==> VarUIntFrom(data[pos..], 0) == Some(Read(result, data[end..]))
      decreases more, |data| - end
    {
      if k == 5 || end == |data| {
        return;
      }
      var b := data[end];
      assert data[end..][0] == b && data[end..][1..] == data[end + 1..];
      end := end + 1;
      result := result + b % 128 * Pow128(k) % UINT32;
      k := k + 1;
      more := b >= 128;
    }
    ok := true;
  }

  // ----- what the bytes mean -----

  /** Seven bits of each byte, low bits first. */
  function Sevens(b: Bytes): nat {
    if b == [] then 0 else b[0] % 128 + 128 * Sevens(b[1..])
  }

  /** The bytes of a number are its bits in sevens; all but the last have the high bit, and none
      is superfluous. */
  lemma {:induction false} VarUIntMeans(n: nat)
    ensures var b := VarUInt(n);
            && Sevens(b) == n && b[|b| - 1] < 128 && (|b| > 1 ==> b[|b| - 1] > 0)
            && forall i :: 0 <= i < |b| - 1 ==> b[i] >= 128
    decreases n
  {
    if n >= 128 {
      VarUIntMeans(n / 128);
      var b, rest := VarUInt(n), VarUInt(n / 128);
      assert b[1..] == rest;
    } else {
      assert [n][1..] == [];
    }
  }

  /** The number at the start of the data has `e` bytes, and after `k` others that is not too many. */
  ghost predicate EndsAfter(data: Bytes, k: nat, e: nat) {
    0 < e <= |data| && k + e <= 5 && data[e - 1] < 128 && forall i :: 0 <= i < e - 1 ==> data[i] >= 128
  }

  /** A number reads exactly when one of the first five bytes has no high bit; its value is the
      sevens of the bytes up to there, in 32 bits. */
  lemma {:induction false} NumberRead(data: Bytes, k: nat)
    requires k <= 5
    ensures VarUIntFrom(data, k).Some? <==> exists e: nat :: EndsAfter(data, k, e)
    ensures forall e: nat :: EndsAfter(data, k, e) ==>
              VarUIntFrom(data, k) == Some(Read(Sevens(data[..e]) * Pow128(k) % UINT32, data[e..]))
    decreases |data|
  {
    if k < 5 && data != [] {
      if data[0] < 128 {
        EndHere(data, k);
      } else {
        NumberRead(data[1..], k + 1);
        EndLater(data, data[1..], k, k + 1);
      }
    }
  }

  lemma EndHere(data: Bytes, k: nat)
    requires k < 5 && data != [] && data[0] < 128
    ensures EndsAfter(data, k, 1) && forall e: nat :: EndsAfter(data, k, e) ==> e == 1
    ensures Sevens(data[..1]) == data[0]
  {
    assert data[..1][1..] == [] && Sevens([]) == 0;
  }

  lemma EndLater(data: Bytes, tail: Bytes, k: nat, k1: nat)
    requires k < 5 && data != [] && data[0] >= 128 && tail == data[1..] && k1 == k + 1
    requires VarUIntFrom(tail, k1).Some? <==> exists e: nat :: EndsAfter(tail, k1, e)
    requires forall e: nat :: EndsAfter(tail, k1, e) ==>
               VarUIntFrom(tail, k1) == Some(Read(Sevens(tail[..e]) * Pow128(k1) % UINT32, tail[e..]))
    ensures VarUIntFrom(data, k).Some? <==> exists e: nat :: EndsAfter(data, k, e)
    ensures forall e: nat :: EndsAfter(data, k, e) ==> VarUIntFrom(data, k) == Some(Read(Sevens(data[..e]) * Pow128(k) % UINT32, data[e..]))
  {
    ContinueRead(data, k);
    hide VarUIntFrom, Pow128;
    forall e: nat | EndsAfter(data, k, e)
      ensures VarUIntFrom(data, k) == Some(Read(Sevens(data[..e]) * Pow128(k) % UINT32, data[e..]))
    {
      EndShift(data, k, e);
      SumInRange(data[0] % 128, Sevens(tail[..e - 1]), k);
    }
    if VarUIntFrom(data, k).Some? {
      var e: nat :| EndsAfter(tail, k1, e);
      assert EndsAfter(data, k, e + 1);
    }
  }

  lemma ContinueRead(data: Bytes, k: nat)
    requires k < 5 && data != [] && data[0] >= 128
    ensures var r := VarUIntFrom(data[1..], k + 1);
            VarUIntFrom(data, k) == if r.None? then None else Some(Read(data[0] % 128 * Pow128(k) % UINT32 + r.value.value, r.value.rest))
  {
  }

  lemma EndShift(data: Bytes, k: nat, e: nat)
    requires k < 5 && data != [] && data[0] >= 128 && EndsAfter(data, k, e)
    ensures e > 1 && k < 4 && EndsAfter(data[1..], k + 1, e - 1) && data[1..][e - 1..] == data[e..]
    ensures Sevens(data[..e]) == data[0] % 128 + 128 * Sevens(data[1..][..e - 1])
  {
    assert data[..e][1..] == data[1..][..e - 1];
  }

  /** Low bits and high bits do not overlap in 32 bits. */
  lemma SumInRange(d: nat, s: nat, k: nat)
    requires d < 128 && k < 4
    ensures d * Pow128(k) % UINT32 + s * Pow128(k + 1) % UINT32 == (d + 128 * s) * Pow128(k) % UINT32
  {
    Powers128();
    var p, m := Pow128(k), if k == 0 then 0x200_0000 else if k == 1 then 0x4_0000 else if k == 2 then 0x800 else 16;
    assert Pow128(k + 1) == 128 * p && UINT32 == 128 * p * m;
    hide Pow128;
    Overlap(d, s, p, m);
  }

  lemma Overlap(d: nat, s: nat, p: nat, m: nat)
    requires d < 128 && p > 0 && m > 0
    ensures 128 * p * m > 0
    ensures d * p % (128 * p * m) + s * (128 * p) % (128 * p * m) == (d + 128 * s) * p % (128 * p * m)
  {
    var q := 128 * p;
    var u := q * m;
    var w, t := Multiples(s, m, q);
    Scaled(d, s, p);
    var low := d * p;
    Remainder(low, 0, low, u);
    Remainder(s * q, w, t, u);
    Remainder(low + s * q, w, low + t, u);
  }

  lemma Scaled(d: nat, s: nat, p: nat)
    requires d < 128 && p > 0
    ensures (d + 128 * s) * p == d * p + s * (128 * p) && 0 <= d * p < 128 * p
  {
    assert (128 - d) * p > 0;
  }

  /** A multiple of `q` in the range of `q * m`. */
  lemma Multiples(s: nat, m: nat, q: nat) returns (w: nat, t: nat)
    requires m > 0 && q > 0
    ensures s * q == w * (q * m) + t && t + q <= q * m
  {
    var r := s % m;
    w, t := s / m, r * q;
    assert s == m * w + r;
    Split(m, w, r, q);
    Product(m - 1 - r, q);
    assert (m - 1 - r) * q == m * q - q - r * q;
  }

  lemma Split(m: nat, w: nat, r: nat, q: nat)
    ensures (m * w + r) * q == w * (q * m) + r * q
  {
    assert (m * w + r) * q == m * w * q + r * q;
    assert m * w * q == w * (q * m);
  }

  lemma Remainder(x: int, q: int, r: int, u: int)
    requires x == q * u + r && 0 <= r < u
    ensures x % u == r && x / u == q
  {
    var a := x / u - q;
    assert a * u == r - x % u by { assert (x / u - q) * u == x / u * u - q * u; }
    AtLeast(a, u);
  }

  lemma AtLeast(a: int, u: int)
    requires u > 0
    ensures (a > 0 ==> a * u >= u) && (a < 0 ==> a * u <= -u)
  {
    if a > 0 { assert (a - 1) * u >= 0; }
    if a < 0 { assert (-a - 1) * u >= 0; }
  }

  /** The examples of unsigned numbers in section 7.6 of DWARF version 4. */
  lemma UnsignedExamples()
    ensures VarUInt(2) == [2] && VarUInt(127) == [127] && VarUInt(128) == [0x80, 1] && VarUInt(129) == [0x81, 1]
    ensures VarUInt(130) == [0x82, 1] && VarUInt(12857) == [0xb9, 0x64]
  {
  }

  // ----- numbers of fixed width -----

  function Pow256(k: nat): (r: nat)
    ensures r > 0
  {
    Power(256, k)
  }

  function LittleEndian(n: nat, width: nat): (r: seq<byte>)
    ensures |r| == width
  {
    if width == 0 then [] else [n % 256] + LittleEndian(n / 256, width - 1)
  }

  function FromLittle(b: Bytes): nat {
    if b == [] then 0 else b[0] + 256 * FromLittle(b[1..])
  }

  lemma {:induction false} LittleReadsBack(n: nat, width: nat)
    requires n < Pow256(width)
    ensures FromLittle(LittleEndian(n, width)) == n
  {
    if width > 0 {
      assert LittleEndian(n, width)[1..] == LittleEndian(n / 256, width - 1);
      LittleReadsBack(n / 256, width - 1);
    }
  }

  /** The bytes of a number of fixed width, low ones first. */
  lemma LittleMeans(n: nat, width: nat, i: nat)
    requires i < width
    ensures LittleEndian(n, width)[i] == n / Pow256(i) % 256
    decreases width
  {
    if i > 0 {
      LittleMeans(n / 256, width - 1, i - 1);
      Quotients(n, Pow256(i - 1));
    }
  }

  lemma Quotients(n: nat, p: nat)
    requires p > 0
    ensures n / 256 / p == n / (256 * p)
  {
    var q, r := n / (256 * p), n % (256 * p);
    assert n == q * p * 256 + r by { assert q * (256 * p) == q * p * 256; }
    assert n / 256 == q * p + r / 256;
    Remainder(n / 256, q, r / 256, p);
  }
}
