/** Widths of the machine's integers, powers, and sequences that several modules use. */
module Basics {
  const UINT32: int := 0x1_0000_0000
  const UINT64: int := 0x1_0000_0000_0000_0000
  const INT64: int := 0x8000_0000_0000_0000

  type uint32 = x: int | 0 <= x < UINT32
  type uint64 = x: int | 0 <= x < UINT64

  function Power(base: nat, n: nat): (p: nat)
    ensures base > 0 ==> p > 0
  {
    if n == 0 then 1 else base * Power(base, n - 1)
  }

  /** The widths are 32, 64 and 63 bits. */
  lemma Widths()
    ensures UINT32 == Power(2, 32) && UINT64 == Power(2, 64) && INT64 == Power(2, 63)
  {
    EightMore(0);
    EightMore(8);
    EightMore(16);
    EightMore(24);
    EightMore(32);
    EightMore(40);
    EightMore(48);
    EightMore(56);
    assert Power(2, 64) == 2 * Power(2, 63);
  }

  lemma EightMore(n: nat)
    ensures Power(2, n + 8) == 0x100 * Power(2, n)
  {
    var p := Power(2, n);
    assert Power(2, n + 2) == 4 * p;
    assert Power(2, n + 4) == 16 * p;
    assert Power(2, n + 6) == 64 * p;
  }

  function Reversed<T>(s: seq<T>): (r: seq<T>)
    ensures |r| == |s| && forall i :: 0 <= i < |s| ==> r[i] == s[|s| - 1 - i]
  {
    seq(|s|, i requires 0 <= i < |s| => s[|s| - 1 - i])
  }

  function Zeros(n: nat): (z: seq<nat>)
    ensures |z| == n && forall i :: 0 <= i < n ==> z[i] == 0
  {
    seq(n, i => 0)
  }

  lemma Regroup(a: int, b: int, c: int)
    ensures a * b * c == a * (b * c)
  {
  }
}
