/** Numbers in different bases. */
module Radix {
  import opened Basics

  /** The digits of a number, lowest first, without zeros at the top. */
  function Minimal(n: nat, base: nat): (d: seq<nat>)
    requires base >= 2
    ensures forall i :: 0 <= i < |d| ==> d[i] < base
    ensures d != [] ==> d[|d| - 1] != 0
    decreases n
  {
    if n == 0 then [] else [n % base] + Minimal(n / base, base)
  }

  /** The number with the given digits, highest first. */
  function Value(d: seq<nat>, base: nat): nat {
    if d == [] then 0 else Value(d[..|d| - 1], base) * base + d[|d| - 1]
  }

  predicate Digits(d: seq<nat>, base: nat) {
    forall i :: 0 <= i < |d| ==> d[i] < base
  }

  /** Multiplies a number by `m` and adds `c`, digit by digit from the lowest. */
  function MulAdd(d: seq<nat>, m: nat, c: nat, base: nat): seq<nat>
    requires base >= 2
  {
    if d == [] then Minimal(c, base)
    else [(d[0] * m + c) % base] + MulAdd(d[1..], m, (d[0] * m + c) / base, base)
  }

  lemma Quotient(x: int, base: int, q: int, r: int)
    requires base > 0 && 0 <= r < base && x == q * base + r
    ensures x / base == q && x % base == r
  {
    var a, b := x / base, x % base;
    assert (q - a) * base == b - r by { assert (q - a) * base == q * base - a * base; }
    if q != a { Far(q - a, base); }
  }

  lemma Far(k: int, base: int)
    requires k != 0 && base > 0
    ensures k * base >= base || k * base <= -base
  {
    if k > 0 { assert (k - 1) * base >= 0; } else { assert (-k - 1) * base >= 0; }
  }

  lemma MinimalNext(n: nat, q: nat, r: nat, base: nat)
    requires base >= 2 && r < base && (q > 0 || r > 0) && n == q * base + r
    ensures Minimal(n, base) == [r] + Minimal(q, base)
  {
    Quotient(n, base, q, r);
    if q > 0 { Positive(q, base); }
  }

  lemma MulAddNext(d: nat, rest: seq<nat>, m: nat, c: nat, base: nat, y: nat, z: nat)
    requires base >= 2 && y == (d * m + c) / base && z == (d * m + c) % base
    ensures MulAdd([d] + rest, m, c, base) == [z] + MulAdd(rest, m, y, base)
  {
    assert ([d] + rest)[1..] == rest;
  }

  /** One digit of the product. */
  lemma ProductDigit(q: int, r: int, m: int, c: int, base: int, y: int, z: int)
    requires r * m + c == y * base + z
    ensures (q * base + r) * m + c == (q * m + y) * base + z
  {
    Spread(q, base, r, m);
    Together(q * m, y, base);
  }

  lemma Together(a: int, b: int, base: int)
    ensures (a + b) * base == a * base + b * base
  {
  }

  lemma Grows(q: nat, base: nat)
    requires base >= 2
    ensures q * base >= 2 * q
  {
    assert q * (base - 2) >= 0;
    assert q * (base - 2) == q * base - 2 * q;
  }

  lemma QuotientAndRest(n: nat, base: nat) returns (q: nat, r: nat)
    requires base >= 2
    ensures q == n / base && r == n % base && n == q * base + r && r < base && (n > 0 ==> q < n && (q > 0 || r > 0))
  {
    q, r := n / base, n % base;
    Grows(q, base);
  }

  /** Putting one digit of the product in place leaves the rest to do. */
  lemma DigitDone(d: seq<nat>, d0: seq<nat>, j: nat, m: nat, c: nat, base: nat, y: nat, z: nat)
    requires base >= 2 && j < |d| == |d0| && d[j..] == d0[j..] && y == (d0[j] * m + c) / base && z == (d0[j] * m + c) % base
    ensures d[j := z][j + 1..] == d0[j + 1..]
    ensures d[..j] + MulAdd(d0[j..], m, c, base) == d[j := z][..j + 1] + MulAdd(d0[j + 1..], m, y, base)
  {
    MulAddNext(d0[j], d0[j + 1..], m, c, base, y, z);
    assert d0[j..] == [d0[j]] + d0[j + 1..];
    hide MulAdd;
    assert d[j := z][..j + 1] == d[..j] + [z];
  }

  /** The last digit of a product and what is carried. */
  lemma ProductStep(n: nat, m: nat, c: nat, base: nat) returns (q: nat, r: nat, y: nat, z: nat, qm: nat, nm: nat)
    requires base >= 2 && m > 0 && n > 0
    ensures n == q * base + r && r < base && q < n && (q > 0 || r > 0)
    ensures y == (r * m + c) / base && z == (r * m + c) % base && z < base
    ensures qm == q * m && nm == n * m && nm + c == (qm + y) * base + z && (qm + y > 0 || z > 0)
  {
    q, r := QuotientAndRest(n, base);
    NotNegative(r, m);
    NotNegative(q, m);
    qm, nm := q * m, n * m;
    y, z := QuotientAndRest(r * m + c, base);
    ProductDigit(q, r, m, c, base, y, z);
    Positive(n, m);
  }

  /** The digit loop computes the number times `m` plus `c`. */
  lemma {:induction false} MulAddIs(n: nat, m: nat, c: nat, base: nat)
    requires base >= 2 && m > 0
    ensures MulAdd(Minimal(n, base), m, c, base) == Minimal(n * m + c, base)
    decreases n
  {
    hide Minimal, MulAdd;
    if n == 0 {
      NothingTimes(n, m, c, base);
    } else {
      var q, r, y, z, qm, nm := ProductStep(n, m, c, base);
      MinimalNext(n, q, r, base);
      MulAddNext(r, Minimal(q, base), m, c, base, y, z);
      MulAddIs(q, m, y, base);
      MinimalNext(nm + c, qm + y, z, base);
    }
  }

  lemma NothingTimes(n: nat, m: nat, c: nat, base: nat)
    requires base >= 2 && n == 0
    ensures MulAdd(Minimal(n, base), m, c, base) == Minimal(n * m + c, base)
  {
    assert n * m == 0;
  }

  lemma NotNegative(a: nat, b: nat)
    ensures a * b >= 0
  {
  }

  lemma Spread(q: int, b: int, r: int, m: int)
    ensures (q * b + r) * m == q * m * b + r * m
  {
  }

  lemma Positive(n: nat, m: nat)
    requires n > 0 && m > 0
    ensures n * m > 0
  {
  }

  // ----- from one base to another -----

  function LeadingZeros(d: seq<nat>): (n: nat)
    ensures n <= |d| && (forall i :: 0 <= i < n ==> d[i] == 0) && (n < |d| ==> d[n] != 0)
  {
    if d == [] || d[0] != 0 then 0 else 1 + LeadingZeros(d[1..])
  }

  /** The same number in another base, with as many zeros in front. */
  function Converted(d: seq<nat>, base: nat, to: nat): seq<nat>
    requires to >= 2
  {
    Zeros(LeadingZeros(d)) + Reversed(Minimal(Value(d, base), to))
  }

  lemma {:induction false} ValueOfZeros(n: nat, d: seq<nat>, base: nat)
    ensures Value(Zeros(n) + d, base) == Value(d, base)
    decreases |d|, n
  {
    var s := Zeros(n) + d;
    if d != [] {
      assert s[..|s| - 1] == Zeros(n) + d[..|d| - 1];
      ValueOfZeros(n, d[..|d| - 1], base);
    } else if n > 0 {
      assert s[..|s| - 1] == Zeros(n - 1) + d;
      ValueOfZeros(n - 1, d, base);
    } else {
      assert s == [];
    }
  }

  lemma ValueNext(front: seq<nat>, last: nat, base: nat)
    ensures Value(front + [last], base) == Value(front, base) * base + last
  {
    assert (front + [last])[..|front|] == front;
  }

  /** Each digit counts as often as the base to the number of digits after it. */
  lemma {:induction false} ValueMeans(d: nat, rest: seq<nat>, base: nat)
    ensures Value([d] + rest, base) == d * Power(base, |rest|) + Value(rest, base)
    decreases |rest|
  {
    if rest == [] {
      assert ([d] + rest)[..0] == [];
    } else {
      hide Value;
      var front, last := rest[..|rest| - 1], rest[|rest| - 1];
      assert [d] + rest == ([d] + front) + [last] && rest == front + [last];
      ValueMeans(d, front, base);
      ValueNext([d] + front, last, base);
      ValueNext(front, last, base);
      OnceMore(d, Power(base, |front|), base);
      Together(d * Power(base, |front|), Value(front, base), base);
    }
  }

  lemma OnceMore(d: nat, p: nat, base: nat)
    ensures d * p * base == d * (base * p)
  {
  }

  lemma ReversedNext(d: nat, rest: seq<nat>)
    ensures Reversed([d] + rest) == Reversed(rest) + [d]
  {
  }

  lemma {:induction false} ValueOfMinimal(n: nat, base: nat)
    requires base >= 2
    ensures Value(Reversed(Minimal(n, base)), base) == n
    decreases n
  {
    hide Minimal, Value, Reversed;
    if n == 0 {
      NoDigits(base);
    } else {
      var q, r := QuotientAndRest(n, base);
      MinimalNext(n, q, r, base);
      ReversedNext(r, Minimal(q, base));
      ValueNext(Reversed(Minimal(q, base)), r, base);
      ValueOfMinimal(q, base);
    }
  }

  /** Digits without zeros in front are the digits of their number. */
  lemma {:induction false} MinimalOfValue(d: seq<nat>, base: nat)
    requires base >= 2 && Digits(d, base) && (d != [] ==> d[0] != 0)
    ensures Reversed(Minimal(Value(d, base), base)) == d
    ensures d != [] ==> Value(d, base) > 0
    decreases |d|
  {
    hide Minimal, Value, Reversed, Digits;
    if d == [] {
      NoDigits(base);
    } else {
      var front, last := d[..|d| - 1], d[|d| - 1];
      FrontOf(d, base);
      MinimalOfValue(front, base);
      ValueNext(front, last, base);
      MinimalAppend(Value(front, base), last, base);
      ReversedNext(last, Minimal(Value(front, base), base));
    }
  }

  lemma FrontOf(d: seq<nat>, base: nat)
    requires Digits(d, base) && d != [] && d[0] != 0
    ensures var front, last := d[..|d| - 1], d[|d| - 1];
            d == front + [last] && Digits(front, base) && last < base && (if front != [] then front[0] != 0 else last != 0)
  {
  }

  lemma MinimalAppend(v: nat, last: nat, base: nat)
    requires base >= 2 && last < base && (v > 0 || last > 0)
    ensures v * base + last > 0 && Minimal(v * base + last, base) == [last] + Minimal(v, base)
  {
    NotNegative(v, base);
    if v > 0 { Positive(v, base); }
    MinimalNext(v * base + last, v, last, base);
  }

  lemma NoDigits(base: nat)
    requires base >= 2
    ensures Value([], base) == 0 && Minimal(0, base) == [] && Reversed(Minimal(0, base)) == []
  {
    assert Minimal(0, base) == [];
  }

  lemma {:induction false} ZerosInFront(n: nat, d: seq<nat>)
    requires d != [] ==> d[0] != 0
    ensures LeadingZeros(Zeros(n) + d) == n
  {
    var s := Zeros(n) + d;
    if n > 0 {
      assert s[1..] == Zeros(n - 1) + d && s[0] == 0;
      ZerosInFront(n - 1, d);
    } else {
      assert s == d;
    }
  }

  /** Converting back gives the digits back, zeros in front included. */
  lemma ConvertedBack(d: seq<nat>, base: nat, to: nat)
    requires base >= 2 && to >= 2 && Digits(d, base)
    ensures Converted(Converted(d, base, to), to, base) == d
    ensures Digits(Converted(d, base, to), to)
  {
    hide Minimal, Value, Reversed, LeadingZeros, Zeros;
    var z, v := LeadingZeros(d), Value(d, base);
    var r, tail := Reversed(Minimal(v, to)), d[z..];
    TopDigit(v, to);
    TailOf(d);
    ZerosInFront(z, r);
    ValueOfZeros(z, r, to);
    ValueOfMinimal(v, to);
    ValueOfZeros(z, tail, base);
    MinimalOfValue(tail, base);
  }

  lemma TopDigit(v: nat, base: nat)
    requires base >= 2
    ensures var r := Reversed(Minimal(v, base)); (r != [] ==> r[0] != 0) && Digits(r, base)
  {
  }

  lemma TailOf(d: seq<nat>)
    ensures d == Zeros(LeadingZeros(d)) + d[LeadingZeros(d)..]
  {
  }
}
