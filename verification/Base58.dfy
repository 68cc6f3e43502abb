/** Base 58 text and bytes. */
module Base58 {
  import opened Basics
  import opened Options
  import opened ByteStrings
  import opened Radix

  /** The map from characters to digits: 1 to 9, then the capitals without I and O, then
      the small letters without l.  It has an entry for the NUL at the end of the
      alphabet too. */
  function DigitOf(c: char): (d: Option<nat>)
    ensures d.Some? ==> d.value <= 58
  {
    var n := c as int;
    if '1' <= c <= '9' then Some(n - '1' as int)
    else if 'A' <= c <= 'H' then Some(n - 'A' as int + 9)
    else if 'J' <= c <= 'N' then Some(n - 'J' as int + 17)
    else if 'P' <= c <= 'Z' then Some(n - 'P' as int + 22)
    else if 'a' <= c <= 'k' then Some(n - 'a' as int + 33)
    else if 'm' <= c <= 'z' then Some(n - 'm' as int + 44)
    else if c == '\0' then Some(58)
    else None
  }

  /** The character of a digit, by stretches of the alphabet. */
  function CharOf(d: nat): char
    requires d < 58
  {
    if d < 9 then ('1' as int + d) as char
    else if d < 17 then ('A' as int + (d - 9)) as char
    else if d < 22 then ('J' as int + (d - 17)) as char
    else if d < 33 then ('P' as int + (d - 22)) as char
    else if d < 44 then ('a' as int + (d - 33)) as char
    else ('m' as int + (d - 44)) as char
  }

  lemma DigitOfChar(d: nat)
    requires d < 58
    ensures DigitOf(CharOf(d)) == Some(d)
  {
  }

  lemma CharOfDigit(c: char)
    requires DigitOf(c).Some? && c != '\0'
    ensures DigitOf(c).value < 58 && CharOf(DigitOf(c).value) == c
  {
  }

  function Chars(d: seq<nat>): (s: string)
    requires Digits(d, 58)
    ensures |s| == |d| && forall i :: 0 <= i < |d| ==> s[i] == CharOf(d[i])
  {
    seq(|d|, i requires 0 <= i < |d| => CharOf(d[i]))
  }

  predicate Accepted(s: string) {
    forall i :: 0 <= i < |s| ==> DigitOf(s[i]).Some?
  }

  function DigitsOf(s: string): (d: seq<nat>)
    requires Accepted(s)
    ensures |d| == |s| && forall i :: 0 <= i < |s| ==> d[i] == DigitOf(s[i]).value
  {
    seq(|s|, i requires 0 <= i < |s| => DigitOf(s[i]).value)
  }

  /** Only characters of the alphabet. */
  predicate InAlphabet(s: string) {
    forall i :: 0 <= i < |s| ==> DigitOf(s[i]).Some? && s[i] != '\0'
  }

  lemma CharsBack(d: seq<nat>)
    requires Digits(d, 58)
    ensures InAlphabet(Chars(d)) && DigitsOf(Chars(d)) == d
  {
    forall i | 0 <= i < |d| ensures DigitOf(Chars(d)[i]) == Some(d[i]) { DigitOfChar(d[i]); }
  }

  lemma DigitsBack(s: string)
    requires InAlphabet(s)
    ensures Digits(DigitsOf(s), 58) && Chars(DigitsOf(s)) == s
  {
    forall i | 0 <= i < |s| ensures DigitOf(s[i]).value < 58 && CharOf(DigitOf(s[i]).value) == s[i] { CharOfDigit(s[i]); }
  }

  function ToBytes(d: seq<nat>): (b: Bytes)
    requires Digits(d, 256)
    ensures |b| == |d| && forall i :: 0 <= i < |d| ==> b[i] == d[i]
  {
    seq(|d|, i requires 0 <= i < |d| => d[i])
  }

  function Nats(b: Bytes): (d: seq<nat>)
    ensures |d| == |b| && Digits(d, 256) && forall i :: 0 <= i < |b| ==> d[i] == b[i]
  {
    seq(|b|, i requires 0 <= i < |b| => b[i])
  }

  // ----- what the loops compute -----

  function Decoded(s: string): seq<nat>
    requires Accepted(s)
  {
    Converted(DigitsOf(s), 58, 256)
  }

  function Encoded(b: Bytes): seq<nat> { Converted(Nats(b), 256, 58) }

  lemma NextChar(s: string, k: nat)
    requires k < |s| && Accepted(s[..k]) && DigitOf(s[k]).Some?
    ensures Accepted(s[..k + 1])
    ensures Value(DigitsOf(s[..k + 1]), 58) == Value(DigitsOf(s[..k]), 58) * 58 + DigitOf(s[k]).value
  {
    assert s[..k + 1] == s[..k] + [s[k]];
    assert DigitsOf(s[..k + 1]) == DigitsOf(s[..k]) + [DigitOf(s[k]).value];
    ValueNext(DigitsOf(s[..k]), DigitOf(s[k]).value, 58);
  }

  /** Appends the bytes of base 58 text to `result`; `ok` is false for a bad character. */
  method Base58ToBinary(result: Bytes, s: string) returns (ok: bool, r: Bytes)
    ensures ok <==> Accepted(s)
    ensures ok ==> Digits(Decoded(s), 256) && r == result + ToBytes(Decoded(s))
  {
    hide Minimal, Value, MulAdd, DigitOf;
    r := result;
    var offset := |result|;
    ghost var d: seq<nat> := [];
    NoDigits(256);
    NoDigits(58);
    assert DigitsOf(s[..0]) == [];
    for k := 0 to |s|
      invariant forall i :: 0 <= i < k ==> DigitOf(s[i]).Some?
      invariant Digits(d, 256) && r == result + ToBytes(d) && d == Minimal(Value(DigitsOf(s[..k]), 58), 256)
    {
      var digit := DigitOf(s[k]);
      if digit.None? {
        return false, r;
      }
      r, d := MultiplyAdd(r, offset, d, digit.value);
      NextChar(s, k);
      MulAddIs(Value(DigitsOf(s[..k]), 58), 58, digit.value, 256);
    }
    assert s[..|s|] == s;
    r, d := PushZeros(s, r, d, result);
    var tail := r[offset..];
    assert tail == ToBytes(d);
    r := r[..offset] + Reversed(tail);
    ReversedConcat(Minimal(Value(DigitsOf(s), 58), 256), LeadingZeros(DigitsOf(s)));
    ReversedBytes(d);
    ok := true;
  }

  /** A zero byte for every leading '1'. */
  method PushZeros(s: string, r0: Bytes, ghost d0: seq<nat>, ghost before: Bytes) returns (r: Bytes, ghost d: seq<nat>)
    requires Accepted(s) && Digits(d0, 256) && r0 == before + ToBytes(d0)
    ensures d == d0 + Zeros(LeadingZeros(DigitsOf(s))) && Digits(d, 256) && r == before + ToBytes(d)
  {
    hide DigitOf;
    r, d := r0, d0;
    var k := 0;
    while k < |s| && s[k] == '1'
      invariant k <= |s| && k <= LeadingZeros(DigitsOf(s)) && Digits(d, 256) && r == before + ToBytes(d) && d == d0 + Zeros(k)
    {
      OneIsZero(s, k);
      d := d + [0];
      r := r + [0];
      k := k + 1;
    }
    ZerosEnd(s, k);
  }

  lemma ReversedBytes(d: seq<nat>)
    requires Digits(d, 256)
    ensures Digits(Reversed(d), 256) && Reversed(ToBytes(d)) == ToBytes(Reversed(d))
  {
  }

  /** The inner loop: the number in r[offset..] times 58 plus a digit. */
  method MultiplyAdd(r0: Bytes, offset: nat, ghost d0: seq<nat>, digit: nat) returns (r: Bytes, ghost d: seq<nat>)
    requires offset <= |r0| && Digits(d0, 256) && r0[offset..] == ToBytes(d0) && digit <= 58
    ensures d == MulAdd(d0, 58, digit, 256) && Digits(d, 256) && r == r0[..offset] + ToBytes(d)
  {
    hide MulAdd, Minimal, DigitOf, CharOf, ToBytes;
    assert r0 == r0[..offset] + ToBytes(d0);
    r, d := r0, d0;
    var carry: nat := digit;
    for i := offset to |r0|
      invariant |r| == |r0| == offset + |d0| && |d| == |d0| && Digits(d, 256) && r == r0[..offset] + ToBytes(d) && carry <= 58
      invariant d[i - offset..] == d0[i - offset..]
      invariant d[..i - offset] + MulAdd(d0[i - offset..], 58, carry, 256) == MulAdd(d0, 58, digit, 256)
    {
      var x: int := r[i] * 58 + carry;
      ghost var j := i - offset;
      assert d[j] == d[j..][0] == d0[j];
      Carried(x);
      DigitDone(d, d0, j, 58, carry, 256, x / 256, x % 256);
      SetByte(r0[..offset], d, j, x % 256);
      d := d[j := x % 256];
      r := r[i := x % 256];
      carry := x / 256;
    }
    CarryDigit(carry);
    if carry != 0 {
      r := r + [carry];
      d := d + [carry];
    }
  }

  lemma Carried(x: int)
    requires 0 <= x <= 255 * 58 + 58
    ensures 0 <= x / 256 <= 58 && 0 <= x % 256 < 256
  {
  }

  lemma SetByte(before: Bytes, d: seq<nat>, j: nat, x: byte)
    requires Digits(d, 256) && j < |d|
    ensures Digits(d[j := x], 256) && (before + ToBytes(d))[|before| + j := x] == before + ToBytes(d[j := x])
    ensures (before + ToBytes(d))[|before| + j] == d[j]
  {
  }

  lemma CarryDigit(carry: nat)
    requires carry < 256
    ensures MulAdd([], 58, carry, 256) == if carry == 0 then [] else [carry]
  {
    assert Minimal(0, 256) == [];
  }

  /** The base 58 text of bytes. */
  method BinaryToBase58(bin: Bytes) returns (s: string)
    ensures Digits(Encoded(bin), 58) && s == Chars(Encoded(bin))
  {
    hide Minimal, Value, MulAdd, DigitOf, CharOf;
    s := "";
    ghost var d: seq<nat> := [];
    NoDigits(256);
    NoDigits(58);
    assert Nats(bin[..0]) == [];
    for k := 0 to |bin|
      invariant Digits(d, 58) && s == Chars(d) && d == Minimal(Value(Nats(bin[..k]), 256), 58)
    {
      s, d := ShiftIn(s, d, bin[k]);
      NextByte(bin, k);
      MulAddIs(Value(Nats(bin[..k]), 256), 256, bin[k], 58);
    }
    assert bin[..|bin|] == bin;
    s, d := PushOnes(bin, s, d);
    ReversedConcat(Minimal(Value(Nats(bin), 256), 58), LeadingZeros(Nats(bin)));
    ReversedChars(d);
    s := Reversed(s);
  }

  /** A '1' for every leading zero byte. */
  method PushOnes(bin: Bytes, s0: string, ghost d0: seq<nat>) returns (s: string, ghost d: seq<nat>)
    requires Digits(d0, 58) && s0 == Chars(d0)
    ensures d == d0 + Zeros(LeadingZeros(Nats(bin))) && Digits(d, 58) && s == Chars(d)
  {
    hide CharOf;
    s, d := s0, d0;
    var k := 0;
    while k < |bin| && bin[k] == 0
      invariant k <= |bin| && k <= LeadingZeros(Nats(bin)) && Digits(d, 58) && s == Chars(d) && d == d0 + Zeros(k)
    {
      assert Nats(bin)[k] == 0;
      OneChar();
      d := d + [0];
      s := s + ['1'];
      k := k + 1;
    }
    assert k < |bin| ==> Nats(bin)[k] != 0;
  }

  lemma ReversedChars(d: seq<nat>)
    requires Digits(d, 58)
    ensures Digits(Reversed(d), 58) && Reversed(Chars(d)) == Chars(Reversed(d))
  {
  }

  lemma OneChar()
    ensures CharOf(0) == '1'
  {
  }

  lemma NextByte(b: Bytes, k: nat)
    requires k < |b|
    ensures Value(Nats(b[..k + 1]), 256) == Value(Nats(b[..k]), 256) * 256 + b[k]
  {
    assert Nats(b[..k + 1]) == Nats(b[..k]) + [b[k]];
    ValueNext(Nats(b[..k]), b[k], 256);
  }

  /** The inner loops: the number in `s` times 256 plus a byte. */
  method ShiftIn(s0: string, ghost d0: seq<nat>, b: byte) returns (s: string, ghost d: seq<nat>)
    requires Digits(d0, 58) && s0 == Chars(d0)
    ensures d == MulAdd(d0, 256, b, 58) && Digits(d, 58) && s == Chars(d)
  {
    hide MulAdd, Minimal, DigitOf, CharOf;
    s, d := s0, d0;
    var carry: nat := b;
    for i := 0 to |s0|
      invariant |s| == |s0| == |d0| == |d| && Digits(d, 58) && s == Chars(d)
      invariant d[i..] == d0[i..]
      invariant d[..i] + MulAdd(d0[i..], 256, carry, 58) == MulAdd(d0, 256, b, 58)
    {
      DigitOfChar(d[i]);
      var x: int := DigitOf(s[i]).value * 256 + carry;
      assert d[i] == d[i..][0] == d0[i];
      DigitDone(d, d0, i, 256, carry, 58, x / 58, x % 58);
      d := d[i := x % 58];
      s := s[i := CharOf(x % 58)];
      carry := x / 58;
    }
    NoneLeft(256, carry, 58);
    s, d := PushCarry(s, d, carry);
  }

  method PushCarry(s0: string, ghost d0: seq<nat>, carry0: nat) returns (s: string, ghost d: seq<nat>)
    requires Digits(d0, 58) && s0 == Chars(d0)
    ensures d == d0 + Minimal(carry0, 58) && Digits(d, 58) && s == Chars(d)
  {
    hide Minimal, DigitOf, CharOf;
    s, d := s0, d0;
    var carry := carry0;
    while carry != 0
      invariant Digits(d, 58) && s == Chars(d) && d + Minimal(carry, 58) == d0 + Minimal(carry0, 58)
      decreases carry
    {
      MinimalNext(carry, carry / 58, carry % 58, 58);
      d := d + [carry % 58];
      s := s + [CharOf(carry % 58)];
      carry := carry / 58;
    }
    NoDigits(58);
  }

  lemma NoneLeft(m: nat, c: nat, base: nat)
    requires base >= 2
    ensures MulAdd([], m, c, base) == Minimal(c, base)
  {
  }

  /** Decoding encoded bytes gives the bytes, leading zeros included. */
  lemma BytesComeBack(b: Bytes)
    ensures Digits(Encoded(b), 58) && Accepted(Chars(Encoded(b)))
    ensures Decoded(Chars(Encoded(b))) == Nats(b)
  {
    ConvertedBack(Nats(b), 256, 58);
    CharsBack(Encoded(b));
  }

  /** Encoding decoded text gives the text, for every text over the alphabet. */
  lemma TextComesBack(s: string)
    requires InAlphabet(s)
    ensures Digits(Decoded(s), 256) && Digits(Encoded(ToBytes(Decoded(s))), 58)
    ensures Chars(Encoded(ToBytes(Decoded(s)))) == s
  {
    DigitsBack(s);
    ConvertedBack(DigitsOf(s), 58, 256);
    assert Nats(ToBytes(Decoded(s))) == Decoded(s);
  }

  /** Of the text that is accepted exactly the text over the alphabet comes back: a NUL, the
      one other character with a digit, never does. */
  lemma AcceptedComesBack(s: string)
    requires Accepted(s)
    ensures Digits(Decoded(s), 256) && Digits(Encoded(ToBytes(Decoded(s))), 58)
    ensures Chars(Encoded(ToBytes(Decoded(s)))) == s <==> InAlphabet(s)
  {
    var b := ToBytes(Decoded(s));
    ConvertedBack(Nats(b), 256, 58);
    CharsBack(Encoded(b));
    if InAlphabet(s) { TextComesBack(s); }
  }

  /** The entry for NUL: it decodes like "21". */
  lemma NulIsTaken()
    ensures Accepted("\0") && !InAlphabet("\0") && Decoded("\0") == Decoded("21") == [58]
  {
    hide Converted, Value, Minimal;
    assert DigitOf('\0') == Some(58) && DigitOf('2') == Some(1) && DigitOf('1') == Some(0);
    hide DigitOf, CharOf;
    assert "\0"[0] == '\0';
    assert DigitsOf("\0") == [58] && DigitsOf("21") == [1, 0];
    FiftyEight([58]);
    FiftyEight([1, 0]);
  }

  /** And "21" is what comes back. */
  lemma NulComesBackOtherwise()
    ensures Accepted("\0") && Digits(Decoded("\0"), 256) && Digits(Encoded(ToBytes(Decoded("\0"))), 58)
    ensures Chars(Encoded(ToBytes(Decoded("\0")))) == "21"
  {
    NulIsTaken();
    assert InAlphabet("21");
    hide Converted, Value, Minimal, Decoded, Encoded;
    TextComesBack("21");
  }

  lemma FiftyEight(d: seq<nat>)
    requires d == [58] || d == [1, 0]
    ensures Converted(d, 58, 256) == [58]
  {
    if d == [58] {
      ValueNext([], 58, 58);
      assert [] + [58] == d;
    } else {
      ValueNext([], 1, 58);
      ValueNext([1], 0, 58);
      assert [] + [1] == [1] && [1] + [0] == d;
    }
    assert Value(d, 58) == 58 && LeadingZeros(d) == 0;
    hide Value, LeadingZeros;
    assert Minimal(58, 256) == [58];
    assert Zeros(0) + Reversed([58]) == [58];
  }

  /** One more leading '1' is one more leading zero. */
  lemma OneIsZero(s: string, k: nat)
    requires Accepted(s) && k < |s| && k <= LeadingZeros(DigitsOf(s)) && s[k] == '1'
    ensures k + 1 <= LeadingZeros(DigitsOf(s))
  {
    assert DigitsOf(s)[k] == 0;
  }

  lemma ZerosEnd(s: string, k: nat)
    requires Accepted(s) && k <= |s| && k <= LeadingZeros(DigitsOf(s)) && (k < |s| ==> s[k] != '1')
    ensures LeadingZeros(DigitsOf(s)) == k
  {
    if k < |s| { assert DigitsOf(s)[k] != 0; }
  }

  lemma ReversedConcat(low: seq<nat>, k: nat)
    ensures Reversed(low + Zeros(k)) == Zeros(k) + Reversed(low)
  {
  }

  /** The alphabet: digits, capitals and small letters in the order of their codes, without zero,
      capital O and I, and small l. */
  lemma Alphabet(c: char)
    ensures DigitOf('1') == Some(0) && DigitOf('z') == Some(57)
    ensures c != '\0' ==> (DigitOf(c).Some? <==> ('0' <= c <= '9' || 'A' <= c <= 'Z' || 'a' <= c <= 'z') && c != '0' && c != 'O' && c != 'I' && c != 'l')
    ensures forall d: char :: c < d && c != '\0' && DigitOf(c).Some? && DigitOf(d).Some? ==> DigitOf(c).value < DigitOf(d).value
    ensures forall n: nat, m: nat :: n < m < 58 ==> CharOf(n) < CharOf(m)
  {
  }
}
