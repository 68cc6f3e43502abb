/** Keys: byte strings whose lexicographic order is the order of the values they encode. */
module KeyEncoding {
  import opened Basics
  import opened ByteStrings

  /** The types a key can be made from.  Vector stands for every range; Tuple for tuples,
      pairs, arrays and reflected structs. */
  datatype Type =
    | UInt(width: nat)
    | SInt(width: nat)
    | Bool
    | Float(width: nat)
    | Str
    | VarUInt
    | Optional(t: Type)
    | Vector(t: Type)
    | Tuple(ts: seq<Type>)
    | Variant(ts: seq<Type>)

  /** Floats are given by their bit patterns. */
  datatype Value =
    | Num(n: int)
    | Text(s: seq<byte>)
    | Nothing
    | Just(v: Value)
    | Many(vs: seq<Value>)
    | Case(index: nat, v: Value)

  predicate HasType(t: Type, v: Value)
    decreases v
  {
    match t
    case UInt(w) => v.Num? && w > 0 && 0 <= v.n < Pow256(w)
    case SInt(w) => v.Num? && w > 0 && -Half(w) <= v.n < Half(w)
    case Bool => v.Num? && 0 <= v.n <= 1
    case Float(w) => v.Num? && w > 1 && 0 <= v.n < Pow256(w)
    case Str => v.Text?
    case VarUInt => v.Num? && 0 <= v.n < UINT32
    case Optional(u) => v.Nothing? || (v.Just? && HasType(u, v.v))
    case Vector(u) => v.Many? && forall i :: 0 <= i < |v.vs| ==> HasType(u, v.vs[i])
    case Tuple(ts) => v.Many? && |v.vs| == |ts| && forall i :: 0 <= i < |v.vs| ==> HasType(ts[i], v.vs[i])
    case Variant(ts) => v.Case? && v.index < |ts| && v.index < UINT32 && HasType(ts[v.index], v.v)
  }

  function Half(w: nat): int { Pow256(w) / 2 }

  // ----- the order of the values -----

  datatype Order = Lt | Eq | Gt

  function CmpInt(a: int, b: int): Order {
    if a < b then Lt else if a > b then Gt else Eq
  }

  /** Lexicographic: the first difference decides. */
  function First(c: Order, d: Order): Order { if c == Eq then d else c }

  /** The numeric order of floats other than NaN, from their sign and magnitude bits. */
  function FloatRank(w: nat, bits: int): int {
    if bits >= Half(w) then -(bits - Half(w)) else bits
  }

  /** The three-way form of operator<. */
  function Cmp(t: Type, a: Value, b: Value): Order
    requires HasType(t, a) && HasType(t, b)
    decreases a, 1, 0
  {
    match t
    case UInt(w) => CmpInt(a.n, b.n)
    case SInt(w) => CmpInt(a.n, b.n)
    case Bool => CmpInt(a.n, b.n)
    case Float(w) => CmpInt(FloatRank(w, a.n), FloatRank(w, b.n))
    case Str => CmpText(a.s, b.s)
    case VarUInt => CmpInt(a.n, b.n)
    case Optional(u) =>
      if a.Nothing? then (if b.Nothing? then Eq else Lt)
      else if b.Nothing? then Gt
      else Cmp(u, a.v, b.v)
    case Vector(u) => CmpRange(u, a, b, 0)
    case Tuple(ts) => CmpTuple(ts, a, b, 0)
    case Variant(ts) => if a.index == b.index then Cmp(ts[a.index], a.v, b.v) else CmpInt(a.index, b.index)
  }

  function CmpText(a: seq<byte>, b: seq<byte>): Order {
    if a == [] then (if b == [] then Eq else Lt)
    else if b == [] then Gt
    else First(CmpInt(a[0], b[0]), CmpText(a[1..], b[1..]))
  }

  function CmpRange(u: Type, a: Value, b: Value, i: nat): Order
    requires HasType(Vector(u), a) && HasType(Vector(u), b) && i <= |a.vs| && i <= |b.vs|
    decreases a, 0, |a.vs| - i
  {
    if i == |a.vs| then (if i == |b.vs| then Eq else Lt)
    else if i == |b.vs| then Gt
    else First(Cmp(u, a.vs[i], b.vs[i]), CmpRange(u, a, b, i + 1))
  }

  function CmpTuple(ts: seq<Type>, a: Value, b: Value, i: nat): Order
    requires HasType(Tuple(ts), a) && HasType(Tuple(ts), b) && i <= |ts|
    decreases a, 0, |ts| - i
  {
    if i == |ts| then Eq else First(Cmp(ts[i], a.vs[i], b.vs[i]), CmpTuple(ts, a, b, i + 1))
  }

  // ----- the keys -----

  function BigEndian(n: nat, width: nat): (r: seq<byte>)
    ensures |r| == width
  {
    if width == 0 then [] else BigEndian(n / 256, width - 1) + [n % 256]
  }

  /** The bits of a float, arranged so that they sort as an unsigned number. */
  function FloatKey(w: nat, bits: nat): (r: int)
    requires bits < Pow256(w)
  {
    var result := if bits == Half(w) then 0 else bits;
    if result >= Half(w) then Pow256(w) - 1 - result else result + Half(w)
  }

  /** How many bytes a variable-length number takes. */
  function VarBytes(n: nat): (k: nat)
    ensures 1 <= k <= 5
  {
    if n < 0x80 then 1 else if n < 0x4000 then 2 else if n < 0x20_0000 then 3 else if n < 0x1000_0000 then 4 else 5
  }

  /** One 1 bit for each byte after the first, then a 0 bit. */
  function VarLead(k: nat): byte
    requires 1 <= k <= 5
  {
    if k == 1 then 0 else if k == 2 then 0x80 else if k == 3 then 0xC0 else if k == 4 then 0xE0 else 0xF0
  }

  function VarKey(n: nat): seq<byte>
    requires n < UINT32
  {
    var k := VarBytes(n);
    BigEndian(VarLead(k) * Pow256(k - 1) + n, k)
  }

  /** A zero byte is followed by 1, the end by 0. */
  function Escaped(c: byte): seq<byte> {
    if c == 0 then [0, 1] else [c]
  }

  function TextKey(s: seq<byte>): seq<byte> {
    if s == [] then [0, 0] else Escaped(s[0]) + TextKey(s[1..])
  }

  /** Integers of one byte; bool has a form of its own. */
  predicate OneByte(t: Type) {
    t == UInt(1) || t == SInt(1)
  }

  function NothingKey(u: Type): seq<byte> {
    if OneByte(u) then [0, 0] else [0]
  }

  /** The key of a value behind a pointer: a bool's is one more than its own, an integer of one
      byte is its own mark unless it is zero, anything else has a mark in front. */
  function JustKey(u: Type, k: seq<byte>): seq<byte> {
    if u == Bool then (if k == [0] then [1] else [2])
    else if OneByte(u) then k + (if k == [0] then [1] else [])
    else [1] + k
  }

  function KeyOf(t: Type, v: Value): seq<byte>
    requires HasType(t, v)
    decreases v, 1, 0
  {
    match t
    case UInt(w) => BigEndian(v.n, w)
    case SInt(w) => BigEndian(v.n + Half(w), w)
    case Bool => [v.n]
    case Float(w) => BigEndian(FloatKey(w, v.n), w)
    case Str => TextKey(v.s)
    case VarUInt => VarKey(v.n)
    case Optional(u) => if v.Nothing? then NothingKey(u) else JustKey(u, KeyOf(u, v.v))
    case Vector(u) => RangeKey(u, v, 0)
    case Tuple(ts) => TupleKey(ts, v, 0)
    case Variant(ts) => VarKey(v.index) + KeyOf(ts[v.index], v.v)
  }

  function RangeKey(u: Type, v: Value, i: nat): seq<byte>
    requires HasType(Vector(u), v) && i <= |v.vs|
    decreases v, 0, |v.vs| - i
  {
    if i == |v.vs| then NothingKey(u) else JustKey(u, KeyOf(u, v.vs[i])) + RangeKey(u, v, i + 1)
  }

  function TupleKey(ts: seq<Type>, v: Value, i: nat): seq<byte>
    requires HasType(Tuple(ts), v) && i <= |ts|
    decreases v, 0, |ts| - i
  {
    if i == |ts| then [] else KeyOf(ts[i], v.vs[i]) + TupleKey(ts, v, i + 1)
  }

  // ----- strings that differ before either ends -----

  ghost predicate BelowAt(x: seq<byte>, y: seq<byte>, p: nat) {
    p < |x| && p < |y| && x[..p] == y[..p] && x[p] < y[p]
  }

  /** At the first difference, inside both, `x` has the smaller byte. */
  ghost predicate Below(x: seq<byte>, y: seq<byte>) {
    exists p: nat :: BelowAt(x, y, p)
  }

  ghost predicate Agrees(c: Order, x: seq<byte>, y: seq<byte>) {
    match c
    case Lt => Below(x, y)
    case Eq => x == y
    case Gt => Below(y, x)
  }

  lemma BelowFrame(pre: seq<byte>, x: seq<byte>, x': seq<byte>, y: seq<byte>, y': seq<byte>)
    requires Below(x, y)
    ensures Below(pre + x + x', pre + y + y')
  {
    var p: nat :| BelowAt(x, y, p);
    var a, b := pre + x + x', pre + y + y';
    assert a[..|pre| + p] == pre + x[..p] && b[..|pre| + p] == pre + y[..p];
    assert BelowAt(a, b, |pre| + p);
  }

  /** Two parts in a row: the second decides when the first are equal. */
  lemma AgreesConcat(c: Order, x: seq<byte>, y: seq<byte>, d: Order, x': seq<byte>, y': seq<byte>)
    requires Agrees(c, x, y) && (c == Eq ==> Agrees(d, x', y'))
    ensures Agrees(First(c, d), x + x', y + y')
  {
    assert [] + x + x' == x + x' && [] + y + y' == y + y';
    match c
    case Lt => BelowFrame([], x, x', y, y');
    case Gt => BelowFrame([], y, y', x, x');
    case Eq =>
      assert x + x' + [] == x + x' && x + y' + [] == x + y';
      match d
      case Lt => BelowFrame(x, x', [], y', []);
      case Gt => BelowFrame(x, y', [], x', []);
      case Eq =>
  }

  /** One byte decides. */
  lemma AgreesByte(a: byte, b: byte, x: seq<byte>, y: seq<byte>)
    requires a != b
    ensures Agrees(CmpInt(a, b), [a] + x, [b] + y)
  {
    if a < b { assert BelowAt([a] + x, [b] + y, 0); } else { assert BelowAt([b] + y, [a] + x, 0); }
  }

  lemma AgreesSingle(a: byte, b: byte)
    ensures Agrees(CmpInt(a, b), [a], [b])
  {
    if a != b { AgreesByte(a, b, [], []); assert [a] + [] == [a] && [b] + [] == [b]; }
  }

  lemma {:induction false} BigEndianAgrees(n: nat, m: nat, w: nat)
    requires n < Pow256(w) && m < Pow256(w)
    ensures Agrees(CmpInt(n, m), BigEndian(n, w), BigEndian(m, w))
  {
    if w > 0 {
      BigEndianAgrees(n / 256, m / 256, w - 1);
      AgreesSingle(n % 256, m % 256);
      AgreesConcat(CmpInt(n / 256, m / 256), BigEndian(n / 256, w - 1), BigEndian(m / 256, w - 1),
                   CmpInt(n % 256, m % 256), [n % 256], [m % 256]);
      assert First(CmpInt(n / 256, m / 256), CmpInt(n % 256, m % 256)) == CmpInt(n, m);
    }
  }

  /** The first byte of a big-endian number. */
  lemma {:induction false} BigEndianLead(hi: byte, n: nat, k: nat)
    requires n < Pow256(k)
    ensures BigEndian(hi * Pow256(k) + n, k + 1) == [hi] + BigEndian(n, k)
  {
    if k == 0 {
      assert BigEndian(hi, 1) == BigEndian(0, 0) + [hi];
    } else {
      var p := Pow256(k - 1);
      var all := hi * Pow256(k) + n;
      assert hi * Pow256(k) == 256 * (hi * p);
      assert all / 256 == hi * p + n / 256 && all % 256 == n % 256;
      BigEndianLead(hi, n / 256, k - 1);
      calc {
        BigEndian(all, k + 1);
        BigEndian(hi * p + n / 256, k) + [n % 256];
        [hi] + BigEndian(n / 256, k - 1) + [n % 256];
        [hi] + (BigEndian(n / 256, k - 1) + [n % 256]);
      }
    }
  }

  lemma Powers()
    ensures Pow256(0) == 1 && Pow256(1) == 0x100 && Pow256(2) == 0x1_0000 && Pow256(3) == 0x100_0000 && Pow256(4) == 0x1_0000_0000 && Pow256(5) == 0x100_0000_0000
  {
    assert Pow256(2) == 256 * Pow256(1);
    assert Pow256(3) == 256 * Pow256(2);
    assert Pow256(4) == 256 * Pow256(3);
    assert Pow256(5) == 256 * Pow256(4);
  }

  lemma Spreads(a: int, b: int, p: int)
    ensures (a + b) * p == a * p + b * p
  {
  }

  /** Longer encodings start with a larger byte. */
  lemma VarFirst(n: nat) returns (first: byte, rest: seq<byte>)
    requires n < UINT32
    ensures VarKey(n) == [first] + rest
    ensures var k := VarBytes(n); VarLead(k) <= first && (k < 5 ==> first < VarLead(k + 1))
  {
    Powers();
    var k := VarBytes(n);
    var p := Pow256(k - 1);
    var add := if k == 5 then 0 else n / p;
    first := VarLead(k) + add;
    rest := BigEndian(if k == 5 then n else n % p, k - 1);
    hide BigEndian, Pow256;
    Spreads(VarLead(k), add, p);
    assert k < 5 ==> n == add * p + n % p;
    BigEndianLead(first, if k == 5 then n else n % p, k - 1);
  }

  lemma VarKeyAgrees(n: nat, m: nat)
    requires n < UINT32 && m < UINT32
    ensures Agrees(CmpInt(n, m), VarKey(n), VarKey(m))
  {
    Powers();
    var k := VarBytes(n);
    if VarBytes(m) == k {
      BigEndianAgrees(VarLead(k) * Pow256(k - 1) + n, VarLead(k) * Pow256(k - 1) + m, k);
    } else {
      var a, x := VarFirst(n);
      var b, y := VarFirst(m);
      AgreesByte(a, b, x, y);
    }
  }

  lemma EscapedAgrees(c: byte, d: byte)
    ensures Agrees(CmpInt(c, d), Escaped(c), Escaped(d))
  {
    if c != d { AgreesByte(c, d, Escaped(c)[1..], Escaped(d)[1..]); }
    assert Escaped(c) == [c] + Escaped(c)[1..] && Escaped(d) == [d] + Escaped(d)[1..];
  }

  lemma {:induction false} TextKeyAgrees(s: seq<byte>, t: seq<byte>)
    ensures Agrees(CmpText(s, t), TextKey(s), TextKey(t))
  {
    hide Agrees, Below, Escaped;
    if s != [] && t != [] {
      EscapedAgrees(s[0], t[0]);
      TextKeyAgrees(s[1..], t[1..]);
      AgreesConcat(CmpInt(s[0], t[0]), Escaped(s[0]), Escaped(t[0]), CmpText(s[1..], t[1..]), TextKey(s[1..]), TextKey(t[1..]));
    } else {
      TextEnds(s, t);
    }
  }

  lemma TextEnds(s: seq<byte>, t: seq<byte>)
    requires s == [] || t == []
    ensures Agrees(CmpText(s, t), TextKey(s), TextKey(t))
  {
    if s != [] { EndBelow(Escaped(s[0]), TextKey(s[1..])); }
    if t != [] { EndBelow(Escaped(t[0]), TextKey(t[1..])); }
  }

  /** The end mark is below every escaped byte. */
  lemma EndBelow(k: seq<byte>, rest: seq<byte>)
    requires k == [0, 1] || (|k| == 1 && k[0] > 0)
    ensures Below([0, 0], k + rest)
  {
    if k == [0, 1] {
      assert (k + rest)[..1] == [0] && [0, 0][..1] == [0];
      assert BelowAt([0, 0], k + rest, 1);
    } else {
      assert BelowAt([0, 0], k + rest, 0);
    }
  }

  lemma OneByteKey(u: Type, v: Value)
    requires HasType(u, v) && OneByte(u)
    ensures |KeyOf(u, v)| == 1
  {
  }

  lemma BoolKey(v: Value)
    requires HasType(Bool, v)
    ensures KeyOf(Bool, v) == [v.n]
  {
  }

  lemma NothingBelow(u: Type, v: Value, rest: seq<byte>)
    requires HasType(u, v)
    ensures Below(NothingKey(u), JustKey(u, KeyOf(u, v)) + rest)
  {
    if OneByte(u) {
      OneByteKey(u, v);
      EndBelow(JustKey(u, KeyOf(u, v)), rest);
    } else if u == Bool {
      assert BelowAt([0], JustKey(u, KeyOf(u, v)) + rest, 0);
    } else {
      assert BelowAt([0], [1] + KeyOf(u, v) + rest, 0);
    }
  }

  lemma JustAgrees(u: Type, a: Value, b: Value)
    requires HasType(u, a) && HasType(u, b) && Agrees(Cmp(u, a, b), KeyOf(u, a), KeyOf(u, b))
    ensures Agrees(Cmp(u, a, b), JustKey(u, KeyOf(u, a)), JustKey(u, KeyOf(u, b)))
  {
    var x, y, c := KeyOf(u, a), KeyOf(u, b), Cmp(u, a, b);
    if u == Bool {
      AgreesSingle(a.n + 1, b.n + 1);
    } else if OneByte(u) {
      OneByteKey(u, a);
      OneByteKey(u, b);
      AgreesConcat(c, x, y, Eq, if x == [0] then [1] else [], if y == [0] then [1] else []);
    } else {
      AgreesConcat(Eq, [1], [1], c, x, y);
    }
  }

  lemma FloatAgrees(w: nat, a: nat, b: nat)
    requires w > 1 && a < Pow256(w) && b < Pow256(w)
    ensures 0 <= FloatKey(w, a) < Pow256(w)
    ensures CmpInt(FloatRank(w, a), FloatRank(w, b)) == CmpInt(FloatKey(w, a), FloatKey(w, b))
  {
    assert Pow256(w) == 256 * Pow256(w - 1);
  }

  /** The keys of two values compare the way the values do, and differ before either ends. */
  lemma {:induction false} KeysAgree(t: Type, a: Value, b: Value)
    requires HasType(t, a) && HasType(t, b)
    ensures Agrees(Cmp(t, a, b), KeyOf(t, a), KeyOf(t, b))
    decreases a, 1, 0
  {
    match t
    case UInt(w) => BigEndianAgrees(a.n, b.n, w);
    case SInt(w) =>
      assert Pow256(w) == 256 * Pow256(w - 1);
      BigEndianAgrees(a.n + Half(w), b.n + Half(w), w);
    case Bool => AgreesSingle(a.n, b.n);
    case Float(w) =>
      FloatAgrees(w, a.n, b.n);
      FloatAgrees(w, b.n, a.n);
      BigEndianAgrees(FloatKey(w, a.n), FloatKey(w, b.n), w);
    case Str => TextKeyAgrees(a.s, b.s);
    case VarUInt => VarKeyAgrees(a.n, b.n);
    case Optional(u) =>
      if a.Just? && b.Just? {
        KeysAgree(u, a.v, b.v);
        JustAgrees(u, a.v, b.v);
      } else if a.Just? {
        NothingBelow(u, a.v, []);
        assert JustKey(u, KeyOf(u, a.v)) + [] == JustKey(u, KeyOf(u, a.v));
      } else if b.Just? {
        NothingBelow(u, b.v, []);
        assert JustKey(u, KeyOf(u, b.v)) + [] == JustKey(u, KeyOf(u, b.v));
      }
    case Vector(u) => RangesAgree(u, a, b, 0);
    case Tuple(ts) => TuplesAgree(ts, a, b, 0);
    case Variant(ts) =>
      VarKeyAgrees(a.index, b.index);
      if a.index == b.index { KeysAgree(ts[a.index], a.v, b.v); }
      AgreesConcat(CmpInt(a.index, b.index), VarKey(a.index), VarKey(b.index),
                   if a.index == b.index then Cmp(ts[a.index], a.v, b.v) else Eq, KeyOf(ts[a.index], a.v), KeyOf(ts[b.index], b.v));
  }

  lemma {:induction false} RangesAgree(u: Type, a: Value, b: Value, i: nat)
    requires HasType(Vector(u), a) && HasType(Vector(u), b) && i <= |a.vs| && i <= |b.vs|
    ensures Agrees(CmpRange(u, a, b, i), RangeKey(u, a, i), RangeKey(u, b, i))
    decreases a, 0, |a.vs| - i
  {
    if i < |a.vs| && i < |b.vs| {
      KeysAgree(u, a.vs[i], b.vs[i]);
      JustAgrees(u, a.vs[i], b.vs[i]);
      RangesAgree(u, a, b, i + 1);
      AgreesConcat(Cmp(u, a.vs[i], b.vs[i]), JustKey(u, KeyOf(u, a.vs[i])), JustKey(u, KeyOf(u, b.vs[i])),
                   CmpRange(u, a, b, i + 1), RangeKey(u, a, i + 1), RangeKey(u, b, i + 1));
    } else if i < |a.vs| {
      NothingBelow(u, a.vs[i], RangeKey(u, a, i + 1));
    } else if i < |b.vs| {
      NothingBelow(u, b.vs[i], RangeKey(u, b, i + 1));
    }
  }

  lemma {:induction false} TuplesAgree(ts: seq<Type>, a: Value, b: Value, i: nat)
    requires HasType(Tuple(ts), a) && HasType(Tuple(ts), b) && i <= |ts|
    ensures Agrees(CmpTuple(ts, a, b, i), TupleKey(ts, a, i), TupleKey(ts, b, i))
    decreases a, 0, |ts| - i
  {
    if i < |ts| {
      KeysAgree(ts[i], a.vs[i], b.vs[i]);
      TuplesAgree(ts, a, b, i + 1);
      AgreesConcat(Cmp(ts[i], a.vs[i], b.vs[i]), KeyOf(ts[i], a.vs[i]), KeyOf(ts[i], b.vs[i]),
                   CmpTuple(ts, a, b, i + 1), TupleKey(ts, a, i + 1), TupleKey(ts, b, i + 1));
    }
  }

  // ----- the promise -----

  /** The order of byte strings, as memcmp and then length decide it. */
  predicate LexLess(x: seq<byte>, y: seq<byte>) {
    y != [] && (x == [] || x[0] < y[0] || (x[0] == y[0] && LexLess(x[1..], y[1..])))
  }

  lemma {:induction false} BelowIsLess(x: seq<byte>, y: seq<byte>, p: nat)
    requires BelowAt(x, y, p)
    ensures LexLess(x, y) && !LexLess(y, x)
    decreases p
  {
    if p > 0 {
      assert x[0] == x[..p][0] == y[..p][0] == y[0];
      assert x[1..][..p - 1] == x[..p][1..] == y[..p][1..] == y[1..][..p - 1];
      BelowIsLess(x[1..], y[1..], p - 1);
    }
  }

  lemma {:induction false} LessIrreflexive(x: seq<byte>)
    ensures !LexLess(x, x)
  {
    if x != [] { LessIrreflexive(x[1..]); }
  }

  lemma NotPrefix(x: seq<byte>, y: seq<byte>)
    requires Below(x, y)
    ensures !(x <= y) && !(y <= x)
  {
    var p: nat :| BelowAt(x, y, p);
    assert x[p] != y[p];
  }

  /** For all values of a type: one key is below another exactly when its value is below
      the other's, keys are equal exactly when the values are equivalent, and no key is a
      proper prefix of another. */
  lemma KeyOrder(t: Type, a: Value, b: Value)
    requires HasType(t, a) && HasType(t, b)
    ensures LexLess(KeyOf(t, a), KeyOf(t, b)) <==> Cmp(t, a, b) == Lt
    ensures KeyOf(t, a) == KeyOf(t, b) <==> Cmp(t, a, b) == Eq
    ensures KeyOf(t, a) <= KeyOf(t, b) ==> KeyOf(t, a) == KeyOf(t, b)
  {
    KeysAgree(t, a, b);
    var x, y := KeyOf(t, a), KeyOf(t, b);
    match Cmp(t, a, b)
    case Lt =>
      var p: nat :| BelowAt(x, y, p);
      BelowIsLess(x, y, p);
      NotPrefix(x, y);
    case Gt =>
      var p: nat :| BelowAt(y, x, p);
      BelowIsLess(y, x, p);
      NotPrefix(y, x);
    case Eq =>
      LessIrreflexive(x);
  }

  // ----- the order and the bytes of each type -----

  /** What the order is for each type of one value. */
  lemma OrderOf(t: Type, a: Value, b: Value)
    requires HasType(t, a) && HasType(t, b)
    ensures t.UInt? || t.SInt? || t.Bool? || t.VarUInt? ==> (Cmp(t, a, b) == Lt <==> a.n < b.n) && (Cmp(t, a, b) == Eq <==> a.n == b.n)
    ensures t.Str? ==> (Cmp(t, a, b) == Lt <==> LexLess(a.s, b.s)) && (Cmp(t, a, b) == Eq <==> a.s == b.s)
    ensures t.Optional? && b.Just? ==> (Cmp(t, a, b) == Lt <==> a.Nothing? || Cmp(t.t, a.v, b.v) == Lt)
    ensures t.Optional? ==> (Cmp(t, a, b) == Eq <==> a.Just? == b.Just? && (a.Just? ==> Cmp(t.t, a.v, b.v) == Eq))
    ensures t.Optional? && b.Nothing? ==> Cmp(t, a, b) != Lt
    ensures t.Variant? ==> (Cmp(t, a, b) == Lt <==> a.index < b.index || (a.index == b.index && Cmp(t.ts[a.index], a.v, b.v) == Lt))
    ensures t.Variant? ==> (Cmp(t, a, b) == Eq <==> a.index == b.index && Cmp(t.ts[a.index], a.v, b.v) == Eq)
  {
    if t.Str? { TextOrder(a.s, b.s); }
  }

  lemma {:induction false} TextOrder(a: seq<byte>, b: seq<byte>)
    ensures CmpText(a, b) == Lt <==> LexLess(a, b)
    ensures CmpText(a, b) == Eq <==> a == b
  {
    if a != [] && b != [] {
      TextOrder(a[1..], b[1..]);
      assert a == [a[0]] + a[1..] && b == [b[0]] + b[1..];
    }
  }

  /** Ranges and tuples: the first place where two differ decides, and a range that ends there is
      the lower one. */
  lemma {:induction false} FirstDifference(u: Type, a: Value, b: Value, i: nat, p: nat)
    requires HasType(Vector(u), a) && HasType(Vector(u), b) && i <= p <= |a.vs| && p <= |b.vs|
    requires forall k :: i <= k < p ==> Cmp(u, a.vs[k], b.vs[k]) == Eq
    ensures p == |a.vs| ==> CmpRange(u, a, b, i) == if p == |b.vs| then Eq else Lt
    ensures p == |b.vs| < |a.vs| ==> CmpRange(u, a, b, i) == Gt
    ensures p < |a.vs| && p < |b.vs| && Cmp(u, a.vs[p], b.vs[p]) != Eq ==> CmpRange(u, a, b, i) == Cmp(u, a.vs[p], b.vs[p])
    decreases p - i
  {
    if i < p { FirstDifference(u, a, b, i + 1, p); }
  }

  lemma {:induction false} FirstField(ts: seq<Type>, a: Value, b: Value, i: nat, p: nat)
    requires HasType(Tuple(ts), a) && HasType(Tuple(ts), b) && i <= p <= |ts|
    requires forall k :: i <= k < p ==> Cmp(ts[k], a.vs[k], b.vs[k]) == Eq
    ensures p == |ts| ==> CmpTuple(ts, a, b, i) == Eq
    ensures p < |ts| && Cmp(ts[p], a.vs[p], b.vs[p]) != Eq ==> CmpTuple(ts, a, b, i) == Cmp(ts[p], a.vs[p], b.vs[p])
    decreases p - i
  {
    if i < p { FirstField(ts, a, b, i + 1, p); }
  }

  /** Floats of four bytes: minus infinity, -1, both zeros, 1 and infinity in this order. */
  lemma FloatExamples()
    ensures Pow256(4) == 0x1_0000_0000
    ensures FloatRank(4, 0xff80_0000) < FloatRank(4, 0xbf80_0000) < FloatRank(4, 0x8000_0000) == FloatRank(4, 0) == 0
    ensures 0 < FloatRank(4, 0x3f80_0000) < FloatRank(4, 0x7f80_0000)
    ensures FloatKey(4, 0x8000_0000) == FloatKey(4, 0) == 0x8000_0000 && FloatKey(4, 0x3f80_0000) == 0xbf80_0000
    ensures FloatKey(4, 0xbf80_0000) == 0x407f_ffff
  {
    assert Pow256(2) == 0x1_0000;
  }

  /** The bytes of a number, highest first. */
  lemma {:induction false} BigEndianMeans(n: nat, width: nat, i: nat)
    requires i < width
    ensures BigEndian(n, width)[width - 1 - i] == n / Pow256(i) % 256
    decreases width
  {
    if i > 0 {
      BigEndianMeans(n / 256, width - 1, i - 1);
      Quotients(n, Pow256(i - 1));
    }
  }

  /** Some keys in full. */
  lemma KeyExamples()
    ensures KeyOf(UInt(2), Num(0x0102)) == [1, 2] && KeyOf(SInt(2), Num(-1)) == [0x7f, 0xff] && KeyOf(Bool, Num(1)) == [1]
    ensures KeyOf(Str, Text([97, 0, 98])) == [97, 0, 1, 98, 0, 0]
  {
    Powers();
    var s: seq<byte> := [97, 0, 98];
    assert s[1..] == [0, 98] && s[1..][1..] == [98] && s[1..][1..][1..] == [];
    assert TextKey([98]) == [98, 0, 0];
    assert TextKey([0, 98]) == [0, 1, 98, 0, 0];
  }

  /** The least number of each length. */
  lemma NumberExamples()
    ensures VarKey(5) == [5] && VarKey(0x80) == [0x80, 0x80] && VarKey(0x4000) == [0xc0, 0x40, 0]
    ensures VarKey(0x20_0000) == [0xe0, 0x20, 0, 0] && VarKey(0x1000_0000) == [0xf0, 0x10, 0, 0, 0]
  {
    Powers();
    hide BigEndian, Pow256;
    SingleByte(5);
    TwoBytes();
    ThreeBytes();
    FourBytes();
    FiveBytes();
  }

  lemma TwoBytes()
    ensures BigEndian(0x8080, 2) == [0x80, 0x80]
  {
    assert BigEndian(0x80, 1) == [0x80];
  }

  lemma ThreeBytes()
    ensures BigEndian(0xc0_4000, 3) == [0xc0, 0x40, 0]
  {
    assert BigEndian(0xc0, 1) == [0xc0];
    assert BigEndian(0xc040, 2) == [0xc0, 0x40];
  }

  lemma FourBytes()
    ensures BigEndian(0xe020_0000, 4) == [0xe0, 0x20, 0, 0]
  {
    assert BigEndian(0xe0, 1) == [0xe0];
    assert BigEndian(0xe020, 2) == [0xe0, 0x20];
    assert BigEndian(0xe0_2000, 3) == [0xe0, 0x20, 0];
  }

  lemma FiveBytes()
    ensures BigEndian(0xf0_1000_0000, 5) == [0xf0, 0x10, 0, 0, 0]
  {
    assert BigEndian(0xf010, 2) == [0xf0, 0x10];
    assert BigEndian(0xf0_1000, 3) == [0xf0, 0x10, 0];
    assert BigEndian(0xf010_0000, 4) == [0xf0, 0x10, 0, 0];
  }

  /** Keys of optional values and of ranges, from the key of what they hold. */
  lemma MarkedKeys(u: Type, v: Value, w: Value)
    requires HasType(u, v) && HasType(u, w)
    ensures u.Bool? ==> KeyOf(Optional(u), Nothing) == [0] && KeyOf(Optional(u), Just(v)) == [v.n + 1]
    ensures u == UInt(1) ==>
              && KeyOf(Optional(u), Nothing) == [0, 0]
              && KeyOf(Optional(u), Just(v)) == (if v.n == 0 then [0, 1] else [v.n])
    ensures u == SInt(1) ==>
              && KeyOf(Optional(u), Nothing) == [0, 0]
              && KeyOf(Optional(u), Just(v)) == (if v.n == -128 then [0, 1] else [v.n + 128])
    ensures !u.Bool? && u != UInt(1) && u != SInt(1) ==>
              && KeyOf(Optional(u), Nothing) == [0] && KeyOf(Optional(u), Just(v)) == [1] + KeyOf(u, v)
    ensures KeyOf(Vector(u), Many([v, w])) ==
              KeyOf(Optional(u), Just(v)) + KeyOf(Optional(u), Just(w)) + KeyOf(Optional(u), Nothing)
    ensures KeyOf(Tuple([u, u]), Many([v, w])) == KeyOf(u, v) + KeyOf(u, w)
    ensures KeyOf(Variant([u, u]), Case(1, v)) == [1] + KeyOf(u, v)
  {
    hide KeyOf, HasType, JustKey, NothingKey;
    Optionals(u, v);
    Optionals(u, w);
    Marks(u, KeyOf(u, v));
    MarksOfOne(u, v);
    RangeOfTwo(u, v, w);
    TupleOfTwo(u, v, w);
    SecondCase(u, v);
  }

  lemma Optionals(u: Type, v: Value)
    requires HasType(u, v)
    ensures HasType(Optional(u), Nothing) && HasType(Optional(u), Just(v))
    ensures KeyOf(Optional(u), Nothing) == NothingKey(u) && KeyOf(Optional(u), Just(v)) == JustKey(u, KeyOf(u, v))
  {
  }

  lemma Marks(u: Type, k: seq<byte>)
    ensures u.Bool? ==> NothingKey(u) == [0] && forall n: byte :: k == [n] && n <= 1 ==> JustKey(u, k) == [n + 1]
    ensures u == UInt(1) || u == SInt(1) ==>
              NothingKey(u) == [0, 0] && forall n: byte :: k == [n] ==> JustKey(u, k) == if n == 0 then [0, 1] else [n]
    ensures !u.Bool? && u != UInt(1) && u != SInt(1) ==> NothingKey(u) == [0] && JustKey(u, k) == [1] + k
  {
  }

  lemma SecondCase(u: Type, v: Value)
    requires HasType(u, v)
    ensures HasType(Variant([u, u]), Case(1, v)) && KeyOf(Variant([u, u]), Case(1, v)) == [1] + KeyOf(u, v)
  {
    assert VarKey(1) == [1] by { Powers(); }
  }

  lemma MarksOfOne(u: Type, v: Value)
    requires HasType(u, v)
    ensures u == UInt(1) ==> 0 <= v.n < 256 && KeyOf(u, v) == [v.n]
    ensures u == SInt(1) ==> -128 <= v.n < 128 && KeyOf(u, v) == [v.n + 128]
    ensures u.Bool? ==> 0 <= v.n <= 1 && KeyOf(u, v) == [v.n]
  {
    assert Pow256(1) == 256;
    hide BigEndian;
    if u == UInt(1) { SingleByte(v.n); }
    if u == SInt(1) { SingleByte(v.n + 128); }
  }

  lemma SingleByte(n: nat)
    requires n < 256
    ensures BigEndian(n, 1) == [n]
  {
    assert BigEndian(n / 256, 0) == [];
  }

  lemma RangeOfTwo(u: Type, v: Value, w: Value)
    requires HasType(u, v) && HasType(u, w)
    ensures HasType(Vector(u), Many([v, w]))
    ensures KeyOf(Vector(u), Many([v, w])) == JustKey(u, KeyOf(u, v)) + JustKey(u, KeyOf(u, w)) + NothingKey(u)
  {
    hide JustKey, NothingKey;
    var m := Many([v, w]);
    assert HasType(Vector(u), m);
    assert RangeKey(u, m, 2) == NothingKey(u);
    assert RangeKey(u, m, 1) == JustKey(u, KeyOf(u, w)) + NothingKey(u);
    assert RangeKey(u, m, 0) == JustKey(u, KeyOf(u, v)) + (JustKey(u, KeyOf(u, w)) + NothingKey(u));
  }

  lemma TupleOfTwo(u: Type, v: Value, w: Value)
    requires HasType(u, v) && HasType(u, w)
    ensures HasType(Tuple([u, u]), Many([v, w])) && KeyOf(Tuple([u, u]), Many([v, w])) == KeyOf(u, v) + KeyOf(u, w)
  {
    var ts, m := [u, u], Many([v, w]);
    assert HasType(Tuple(ts), m);
    assert TupleKey(ts, m, 2) == [];
    assert TupleKey(ts, m, 1) == KeyOf(u, w) + [];
  }
}
