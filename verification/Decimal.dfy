/** Decimal text and little-endian numbers of fixed width. */
module Decimal {
  import opened Basics
  import opened ByteStrings
  import opened Radix

  predicate IsDigit(c: char) { '0' <= c <= '9' }

  predicate AllDigits(s: string) {
    forall i :: 0 <= i < |s| ==> IsDigit(s[i])
  }

  function DigitsOf(s: string): (d: seq<nat>)
    requires AllDigits(s)
    ensures |d| == |s| && Digits(d, 10) && forall i :: 0 <= i < |s| ==> d[i] == s[i] as int - '0' as int
  {
    seq(|s|, i requires 0 <= i < |s| => s[i] as int - '0' as int)
  }

  function CharOf(d: nat): char
    requires d < 10
  {
    ('0' as int + d) as char
  }

  function Chars(d: seq<nat>): (s: string)
    requires Digits(d, 10)
    ensures |s| == |d| && forall i :: 0 <= i < |d| ==> s[i] == CharOf(d[i])
  {
    seq(|d|, i requires 0 <= i < |d| => CharOf(d[i]))
  }

  function DecimalValue(s: string): nat
    requires AllDigits(s)
  {
    Value(DigitsOf(s), 10)
  }

  /** The decimal text of a number: no zeros in front, and one for zero. */
  function DecimalText(n: nat): string {
    if n == 0 then "0" else Chars(Reversed(Minimal(n, 10)))
  }

  // ----- bytes of fixed width -----

  lemma {:induction false} LittleBound(b: Bytes)
    ensures 0 <= FromLittle(b) < Pow256(|b|)
  {
    if b != [] { LittleBound(b[1..]); }
  }

  lemma {:induction false} LittleUnique(a: Bytes, b: Bytes)
    requires |a| == |b| && FromLittle(a) == FromLittle(b)
    ensures a == b
  {
    if a != [] {
      LittleUnique(a[1..], b[1..]);
      assert a == [a[0]] + a[1..] && b == [b[0]] + b[1..];
    }
  }

  /** The bytes of ten times a number plus `c`, and what is carried out of them. */
  function Tenfold(b: Bytes, c: nat): (r: (Bytes, nat))
    ensures |r.0| == |b|
  {
    if b == [] then ([], c)
    else
      var x := b[0] * 10 + c;
      var r := Tenfold(b[1..], x / 256);
      ([x % 256] + r.0, r.1)
  }

  lemma {:induction false} TenfoldIs(b: Bytes, c: nat)
    ensures var r := Tenfold(b, c); FromLittle(r.0) + Pow256(|b|) * r.1 == FromLittle(b) * 10 + c
  {
    if b != [] {
      var x := b[0] * 10 + c;
      TenfoldIs(b[1..], x / 256);
      var r := Tenfold(b[1..], x / 256);
      assert ([x % 256] + r.0)[1..] == r.0;
      Regroup(256, Pow256(|b| - 1), r.1);
    }
  }

  lemma AtLeastOnce(p: nat, n: nat)
    ensures n == 0 ==> p * n == 0
    ensures n > 0 ==> p * n >= p
  {
    if n > 0 { assert p * (n - 1) >= 0; }
  }

  /** Nothing is carried out exactly when the result fits. */
  lemma TenfoldFits(b: Bytes, c: nat)
    ensures Tenfold(b, c).1 == 0 <==> FromLittle(b) * 10 + c < Pow256(|b|)
    ensures Tenfold(b, c).1 == 0 ==> FromLittle(Tenfold(b, c).0) == FromLittle(b) * 10 + c
  {
    hide Tenfold, FromLittle, Pow256;
    TenfoldIs(b, c);
    LittleBound(Tenfold(b, c).0);
    AtLeastOnce(Pow256(|b|), Tenfold(b, c).1);
  }

  lemma {:induction false} PrefixIsLess(s: string, k: nat)
    requires AllDigits(s) && k <= |s|
    ensures DecimalValue(s[..k]) <= DecimalValue(s)
    decreases |s| - k
  {
    if k < |s| {
      NextDigit(s, k);
      PrefixIsLess(s, k + 1);
    } else {
      assert s[..k] == s;
    }
  }

  lemma NextDigit(s: string, k: nat)
    requires k < |s| && AllDigits(s[..k + 1])
    ensures AllDigits(s[..k]) && IsDigit(s[k]) && DecimalValue(s[..k + 1]) == DecimalValue(s[..k]) * 10 + (s[k] as int - '0' as int)
  {
    assert s[..k + 1] == s[..k] + [s[k]];
    assert s[..k + 1][k] == s[k];
    assert DigitsOf(s[..k + 1]) == DigitsOf(s[..k]) + [s[k] as int - '0' as int];
    ValueNext(DigitsOf(s[..k]), s[k] as int - '0' as int, 10);
  }

  /** Reads decimal text into the array.  It is accepted exactly when it is all digits and
      the number fits. */
  method DecimalToBinary(result: array<byte>, s: string) returns (ok: bool)
    modifies result
    ensures ok <==> AllDigits(s) && DecimalValue(s) < Pow256(result.Length)
    ensures ok ==> FromLittle(result[..]) == DecimalValue(s)
  {
    hide Value, FromLittle, Pow256, Tenfold;
    for i := 0 to result.Length
      invariant forall j :: 0 <= j < i ==> result[j] == 0
    {
      result[i] := 0;
    }
    ZeroValue(result[..]);
    NoDigits(10);
    assert DigitsOf(s[..0]) == [];
    for k := 0 to |s|
      invariant AllDigits(s[..k]) && FromLittle(result[..]) == DecimalValue(s[..k]) < Pow256(result.Length)
    {
      if !IsDigit(s[k]) {
        return false;
      }
      ghost var before := result[..];
      var carry := TimesTen(result, s[k] as int - '0' as int);
      TenfoldFits(before, s[k] as int - '0' as int);
      NextDigit(s, k);
      if carry != 0 {
        if AllDigits(s) { PrefixIsLess(s, k + 1); }
        return false;
      }
    }
    assert s[..|s|] == s;
    ok := true;
  }

  lemma {:induction false} ZeroValue(b: Bytes)
    requires forall j :: 0 <= j < |b| ==> b[j] == 0
    ensures FromLittle(b) == 0 && Pow256(|b|) > 0
  {
    if b != [] { ZeroValue(b[1..]); }
  }

  /** The inner loop: ten times the number in the array plus a digit. */
  method TimesTen(result: array<byte>, digit: nat) returns (carry: nat)
    requires digit <= 9
    modifies result
    ensures (result[..], carry) == Tenfold(old(result[..]), digit)
  {
    hide Tenfold;
    carry := digit;
    ghost var before := result[..];
    assert before[0..] == before;
    for i := 0 to result.Length
      invariant carry <= 9 && result[i..] == before[i..]
      invariant Tenfold(before, digit).0 == result[..i] + Tenfold(before[i..], carry).0
      invariant Tenfold(before, digit).1 == Tenfold(before[i..], carry).1
    {
      var x: int := result[i] * 10 + carry;
      TenfoldNext(before, i, carry, x);
      assert result[i] == result[i..][0] == before[i];
      ghost var done := result[..i];
      result[i] := x % 256;
      assert result[..i + 1] == done + [x % 256];
      carry := x / 256;
    }
    TenfoldEnd(carry);
    assert before[result.Length..] == [];
    assert result[..result.Length] + [] == result[..];
  }

  lemma TenfoldNext(b: Bytes, i: nat, c: nat, x: int)
    requires i < |b| && x == b[i] * 10 + c
    ensures Tenfold(b[i..], c) == ([x % 256] + Tenfold(b[i + 1..], x / 256).0, Tenfold(b[i + 1..], x / 256).1)
  {
    assert b[i..][1..] == b[i + 1..];
  }

  lemma TenfoldEnd(c: nat)
    ensures Tenfold([], c) == ([], c)
  {
  }

  // ----- printing -----

  /** The digits while printing: a single zero as long as the number is zero. */
  function Shown(n: nat): (d: seq<nat>)
    ensures Digits(d, 10)
  {
    if n == 0 then [0] else Minimal(n, 10)
  }

  /** One more byte after the number printed so far. */
  lemma ShownNext(n: nat, b: byte)
    ensures MulAdd(Shown(n), 256, b, 10) == Shown(n * 256 + b)
  {
    hide Minimal, MulAdd;
    if n > 0 {
      MulAddIs(n, 256, b, 10);
    } else {
      assert [0] + [] == [0];
      MulAddNext(0, [], 256, b, 10, b / 10, b % 10);
      NothingLeft(256, b / 10);
      if b > 0 { MinimalNext(b, b / 10, b % 10, 10); } else { NoDigits(10); }
    }
  }

  lemma NothingLeft(m: nat, c: nat)
    ensures MulAdd([], m, c, 10) == Minimal(c, 10)
  {
  }

  lemma {:induction false} TopByte(b: Bytes, k: nat)
    requires k < |b|
    ensures FromLittle(b[k..]) == b[k] + 256 * FromLittle(b[k + 1..])
  {
    assert b[k..][1..] == b[k + 1..];
  }

  /** Prints a number from its bytes, the highest first. */
  method BinaryToDecimal(bin: Bytes) returns (s: string)
    ensures s == DecimalText(FromLittle(bin))
  {
    hide Minimal, MulAdd, FromLittle;
    s := "0";
    ghost var d := [0];
    var k := |bin|;
    assert bin[k..] == [];
    Nothing();
    while k > 0
      invariant 0 <= k <= |bin| && Digits(d, 10) && s == Chars(d) && d == Shown(FromLittle(bin[k..]))
    {
      k := k - 1;
      TopByte(bin, k);
      ShownNext(FromLittle(bin[k + 1..]), bin[k]);
      s, d := ShiftIn(s, d, bin[k]);
    }
    assert bin[0..] == bin;
    assert Reversed(s) == Chars(Reversed(d));
    ShownIs(FromLittle(bin));
    s := Reversed(s);
  }

  lemma Nothing()
    ensures FromLittle([]) == 0
  {
  }

  lemma ShownIs(n: nat)
    ensures Digits(Reversed(Shown(n)), 10) && Chars(Reversed(Shown(n))) == DecimalText(n)
  {
    if n == 0 { assert Chars(Reversed([0])) == "0"; }
  }

  /** The inner loops: the number in `s` times 256 plus a byte. */
  method ShiftIn(s0: string, ghost d0: seq<nat>, b: byte) returns (s: string, ghost d: seq<nat>)
    requires Digits(d0, 10) && s0 == Chars(d0)
    ensures d == MulAdd(d0, 256, b, 10) && Digits(d, 10) && s == Chars(d)
  {
    hide MulAdd, Minimal;
    s, d := s0, d0;
    var carry: nat := b;
    for i := 0 to |s0|
      invariant |s| == |s0| == |d0| == |d| && Digits(d, 10) && s == Chars(d)
      invariant d[i..] == d0[i..]
      invariant d[..i] + MulAdd(d0[i..], 256, carry, 10) == MulAdd(d0, 256, b, 10)
    {
      assert d[i] == d[i..][0] == d0[i];
      var x: int := (s[i] as int - '0' as int) * 256 + carry;
      DigitDone(d, d0, i, 256, carry, 10, x / 10, x % 10);
      d := d[i := x % 10];
      s := s[i := CharOf(x % 10)];
      carry := x / 10;
    }
    NothingLeft(256, carry);
    s, d := PushCarry(s, d, carry);
  }

  method PushCarry(s0: string, ghost d0: seq<nat>, carry0: nat) returns (s: string, ghost d: seq<nat>)
    requires Digits(d0, 10) && s0 == Chars(d0)
    ensures d == d0 + Minimal(carry0, 10) && Digits(d, 10) && s == Chars(d)
  {
    hide Minimal;
    s, d := s0, d0;
    var carry := carry0;
    while carry != 0
      invariant Digits(d, 10) && s == Chars(d) && d + Minimal(carry, 10) == d0 + Minimal(carry0, 10)
      decreases carry
    {
      MinimalNext(carry, carry / 10, carry % 10, 10);
      d := d + [carry % 10];
      s := s + [CharOf(carry % 10)];
      carry := carry / 10;
    }
    NoDigits(10);
  }

  /** The text of a number is all digits and has its value, so reading it into as many
      bytes gives the bytes back. */
  lemma PrintedReadsBack(b: Bytes)
    ensures var s := DecimalText(FromLittle(b)); AllDigits(s) && DecimalValue(s) == FromLittle(b) < Pow256(|b|)
  {
    hide Value, Minimal, FromLittle, Pow256;
    LittleBound(b);
    TextHasValue(FromLittle(b));
  }

  lemma TextHasValue(n: nat)
    ensures AllDigits(DecimalText(n)) && DecimalValue(DecimalText(n)) == n
  {
    hide Value, Minimal;
    if n == 0 {
      assert DigitsOf("0") == [] + [0];
      NoDigits(10);
      ValueNext([], 0, 10);
    } else {
      DigitsBack(Reversed(Minimal(n, 10)));
      ValueOfMinimal(n, 10);
    }
  }

  lemma CharsNext(d: seq<nat>, r: nat)
    requires Digits(d, 10) && r < 10
    ensures Digits(d + [r], 10) && Chars(d + [r]) == Chars(d) + [('0' as int + r) as char]
    ensures Chars([]) == ""
  {
  }

  /** The last character is the last decimal digit, in front of it is the text of the rest. */
  lemma TextMeans(n: nat)
    ensures n >= 10 ==> DecimalText(n) == DecimalText(n / 10) + [('0' as int + n % 10) as char]
    ensures n < 10 ==> DecimalText(n) == [('0' as int + n) as char]
  {
    hide Minimal, Chars, Reversed;
    if n > 0 {
      var q, r := n / 10, n % 10;
      MinimalNext(n, q, r, 10);
      ReversedNext(r, Minimal(q, 10));
      CharsNext(Reversed(Minimal(q, 10)), r);
      if n < 10 { NoDigits(10); }
    }
  }

  /** What text stands for: nothing but digits, zeros in front allowed. */
  lemma ValueOfText()
    ensures AllDigits("0042") && DecimalValue("0042") == 42 && DecimalValue("") == 0
    ensures !AllDigits("4/") && !AllDigits("4:") && !AllDigits("-4") && !AllDigits(" 4")
  {
    assert DigitsOf("0042") == [] + [0] + [0] + [4] + [2];
    ValueNext([] + [0] + [0] + [4], 2, 10);
    ValueNext([] + [0] + [0], 4, 10);
    ValueNext([] + [0], 0, 10);
    ValueNext([], 0, 10);
    NoDigits(10);
    assert DigitsOf("") == [];
    assert "4/"[1] == '/' && "4:"[1] == ':' && "-4"[0] == '-' && " 4"[0] == ' ';
  }

  lemma DigitsBack(d: seq<nat>)
    requires Digits(d, 10)
    ensures AllDigits(Chars(d)) && DigitsOf(Chars(d)) == d
  {
  }

  /** Printing and reading again leaves every number of bytes unchanged. */
  method PrintAndRead(bin: array<byte>) returns (ok: bool)
    modifies bin
    ensures ok && bin[..] == old(bin[..])
  {
    ghost var before := bin[..];
    var s := BinaryToDecimal(bin[..]);
    PrintedReadsBack(before);
    ok := DecimalToBinary(bin, s);
    LittleUnique(bin[..], before);
  }

  // ----- the sign -----

  /** Negates a two's complement number in place. */
  method Negate(a: array<byte>)
    modifies a
    ensures FromLittle(a[..]) == (Pow256(a.Length) - FromLittle(old(a[..]))) % Pow256(a.Length)
  {
    hide FromLittle, Pow256;
    var carry := 1;
    ghost var before := a[..];
    NegatedStart(before);
    for i := 0 to a.Length
      invariant 0 <= carry <= 1 && a[i..] == before[i..]
      invariant FromLittle(a[..i]) + Pow256(i) * carry == Pow256(i) - FromLittle(before[..i])
    {
      assert a[i] == a[i..][0] == before[i];
      var x: int := (255 - a[i]) + carry;
      ghost var done := a[..i];
      a[i] := x % 256;
      assert a[..i + 1] == done + [x % 256];
      assert before[..i + 1] == before[..i] + [before[i]];
      NegatedNext(done, before[..i], before[i], carry, x);
      carry := x / 256;
    }
    assert a[..] == a[..a.Length] && before[..a.Length] == before;
    LittleBound(a[..]);
    LittleBound(before);
    Wraps(FromLittle(a[..]), FromLittle(before), Pow256(a.Length), carry);
  }

  lemma NegatedStart(b: Bytes)
    ensures FromLittle(b[..0]) == 0 && Pow256(0) == 1
  {
  }

  lemma {:induction false} LittleAppend(b: Bytes, x: byte)
    ensures FromLittle(b + [x]) == FromLittle(b) + Pow256(|b|) * x
  {
    if b == [] {
      assert [] + [x] == [x] && [x][1..] == [];
    } else {
      assert (b + [x])[1..] == b[1..] + [x];
      LittleAppend(b[1..], x);
      Regroup(256, Pow256(|b| - 1), x);
    }
  }

  lemma NegatedNext(done: Bytes, before: Bytes, b: byte, carry: int, x: int)
    requires |done| == |before| && 0 <= carry <= 1 && x == 255 - b + carry
    requires FromLittle(done) + Pow256(|done|) * carry == Pow256(|done|) - FromLittle(before)
    ensures FromLittle(done + [x % 256]) + Pow256(|done| + 1) * (x / 256) == Pow256(|done| + 1) - FromLittle(before + [b])
  {
    hide FromLittle, Pow256;
    LittleAppend(done, x % 256);
    LittleAppend(before, b);
    NextPower(|done|);
    NegatedDigit(FromLittle(done), FromLittle(before), Pow256(|done|), b, carry, x, x / 256, x % 256);
  }

  lemma NextPower(k: nat)
    ensures Pow256(k + 1) == 256 * Pow256(k)
  {
  }

  lemma NegatedDigit(a: int, b: int, p: int, d: int, carry: int, x: int, q: int, r: int)
    requires a + p * carry == p - b && x == 255 - d + carry && x == 256 * q + r
    ensures a + p * r + 256 * p * q == 256 * p - (b + p * d)
  {
    Spreads(p, x, q, r);
    Complement(p, x, d, carry);
  }

  lemma Spreads(p: int, x: int, q: int, r: int)
    requires x == 256 * q + r
    ensures p * x == 256 * p * q + p * r
  {
  }

  lemma Complement(p: int, x: int, d: int, carry: int)
    requires x == 255 - d + carry
    ensures p * x == 255 * p - p * d + p * carry
  {
  }

  lemma Wraps(n: nat, m: nat, p: nat, carry: int)
    requires 0 <= carry <= 1 && n < p && m < p && n + p * carry == p - m
    ensures n == (p - m) % p
  {
    if carry == 1 {
      assert n == 0 && m == 0;
    }
  }
}
