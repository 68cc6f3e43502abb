/** Writing keys to a stream. */
module KeyWriter {
  import opened Basics
  import opened ByteStrings
  import opened KeyEncoding

  class VectorStream {
    var data: seq<byte>

    constructor ()
      ensures data == []
    {
      data := [];
    }

    method Write(c: byte)
      modifies this
      ensures data == old(data) + [c]
    {
      data := data + [c];
    }

    method WriteAll(s: seq<byte>)
      modifies this
      ensures data == old(data) + s
    {
      data := data + s;
    }
  }

  /** Reversing the bytes of a little-endian number makes it big-endian. */
  lemma {:induction false} ReversedIsBigEndian(n: nat, width: nat)
    ensures Reversed(LittleEndian(n, width)) == BigEndian(n, width)
  {
    if width > 0 {
      var low, rest := n % 256, LittleEndian(n / 256, width - 1);
      ReversedIsBigEndian(n / 256, width - 1);
      hide LittleEndian, BigEndian;
      assert Reversed([low] + rest) == Reversed(rest) + [low];
    }
  }

  /** What is left of a number after its last `i` bytes. */
  function Shifted(n: nat, i: nat): nat {
    if i == 0 then n else Shifted(n / 256, i - 1)
  }

  lemma {:induction false} ShiftedTwice(n: nat, i: nat)
    ensures Shifted(n, i) / 256 == Shifted(n, i + 1)
  {
    if i > 0 { ShiftedTwice(n / 256, i - 1); }
  }

  lemma {:induction false} ShiftedSum(h: nat, n: nat, i: nat)
    ensures Shifted(h * Pow256(i) + n, i) == h + Shifted(n, i)
  {
    if i > 0 {
      Regroup(256, h, Pow256(i - 1));
      Regroup(h, 256, Pow256(i - 1));
      hide Pow256;
      ShiftedSum(h, n / 256, i - 1);
    }
  }

  lemma LastByte(n: nat, width: nat)
    ensures BigEndian(n, width + 1) == BigEndian(n / 256, width) + [n % 256]
  {
  }

  lemma PowNext(k: nat)
    ensures Pow256(k + 1) == Pow256(k) * 256
  {
  }

  /** The width mark above it does not change a byte. */
  lemma SameByteUnderLead(lead: nat, n: nat, k: nat, i: nat)
    requires i + 2 <= k
    ensures Shifted(lead * Pow256(k - 1) + n, i) % 256 == Shifted(n, i) % 256
  {
    hide Pow256, Shifted;
    var h := lead * Pow256(k - 1 - i);
    PowNext(k - 2 - i);
    PowSplit(k - 1 - i, i);
    Regroup(lead, Pow256(k - 2 - i), 256);
    assert h % 256 == 0;
    Regroup(lead, Pow256(k - 1 - i), Pow256(i));
    ShiftedSum(h, n, i);
  }

  /** The next byte of a variable-length number, from the number itself. */
  lemma VarStep(lead: nat, n: nat, k: nat, i: nat)
    requires i + 2 <= k
    ensures var all := lead * Pow256(k - 1) + n;
            BigEndian(Shifted(all, i), k - i) == BigEndian(Shifted(all, i + 1), k - 1 - i) + [Shifted(n, i) % 256]
  {
    SameByteUnderLead(lead, n, k, i);
    hide Shifted, BigEndian, Pow256;
    var all := lead * Pow256(k - 1) + n;
    ShiftedTwice(all, i);
    LastByte(Shifted(all, i), k - 1 - i);
  }

  lemma {:induction false} PowSplit(a: nat, b: nat)
    ensures Pow256(a + b) == Pow256(a) * Pow256(b)
  {
    if a > 0 {
      PowSplit(a - 1, b);
      assert 256 * Pow256(a - 1) * Pow256(b) == 256 * (Pow256(a - 1) * Pow256(b));
    }
  }

  lemma VarStart(n: nat)
    requires n < UINT32
    ensures var k := VarBytes(n);
            var all := VarLead(k) * Pow256(k - 1) + n;
            var first := VarLead(k) + if k == 5 then 0 else Shifted(n, k - 1);
            first < 256 && BigEndian(Shifted(all, k - 1), 1) == [first]
  {
    var k := VarBytes(n);
    var first := VarLead(k) + if k == 5 then 0 else Shifted(n, k - 1);
    assert Shifted(n, 1) == n / 256;
    ShiftedTwice(n, 1);
    ShiftedTwice(n, 2);
    ShiftedTwice(n, 3);
    ShiftedSum(VarLead(k), n, k - 1);
    assert BigEndian(first, 1) == BigEndian(0, 0) + [first];
  }

  /** The first byte carries the width and the high bits, the others follow. */
  method ToKeyVarUInt32(obj: nat, stream: VectorStream)
    requires obj < UINT32
    modifies stream
    ensures stream.data == old(stream.data) + VarKey(obj)
  {
    hide Pow256, BigEndian, VarLead, Shifted, VarKey;
    var numBytes;
    if obj < 0x80 {
      numBytes := 1;
    } else if obj < 0x4000 {
      numBytes := 2;
    } else if obj < 0x20_0000 {
      numBytes := 3;
    } else if obj < 0x1000_0000 {
      numBytes := 4;
    } else {
      numBytes := 5;
    }
    VarStart(obj);
    hide VarBytes;
    ghost var all := VarLead(numBytes) * Pow256(numBytes - 1) + obj;
    stream.Write(VarLead(numBytes) + if numBytes == 5 then 0 else Shifted(obj, numBytes - 1));
    var i := numBytes - 2;
    while i >= 0
      invariant -1 <= i <= numBytes - 2
      invariant stream.data == old(stream.data) + BigEndian(Shifted(all, i + 1), numBytes - 1 - i)
    {
      VarStep(VarLead(numBytes), obj, numBytes, i);
      stream.Write(Shifted(obj, i) % 256);
      i := i - 1;
    }
    WholeIs(obj);
  }

  lemma WholeIs(n: nat)
    requires n < UINT32
    ensures var k := VarBytes(n); VarKey(n) == BigEndian(Shifted(VarLead(k) * Pow256(k - 1) + n, 0), k)
  {
  }

  method ToKeyInteger(v: nat, width: nat, stream: VectorStream)
    modifies stream
    ensures stream.data == old(stream.data) + BigEndian(v, width)
  {
    ReversedIsBigEndian(v, width);
    stream.WriteAll(Reversed(LittleEndian(v, width)));
  }

  method ToKeyText(s: seq<byte>, stream: VectorStream)
    modifies stream
    ensures stream.data == old(stream.data) + TextKey(s)
  {
    for i := 0 to |s|
      invariant stream.data + TextKey(s[i..]) == old(stream.data) + TextKey(s)
    {
      stream.Write(s[i]);
      if s[i] == 0 {
        stream.Write(1);
      }
      assert s[i..][1..] == s[i + 1..];
    }
    stream.WriteAll([0, 0]);
  }

  /** A null pointer. */
  method ToKeyNull(t: Type, stream: VectorStream)
    modifies stream
    ensures stream.data == old(stream.data) + NothingKey(t)
  {
    if OneByte(t) {
      stream.WriteAll([0, 0]);
    } else {
      stream.Write(0);
    }
  }

  /** A pointer to a value.  A bool is one or two, and an integer of one byte is its own mark, unless
      it is zero. */
  method ToKeyPresent(t: Type, v: Value, stream: VectorStream)
    requires HasType(t, v)
    modifies stream
    ensures stream.data == old(stream.data) + JustKey(t, KeyOf(t, v))
    decreases v, 2
  {
    hide KeyOf;
    if t == Bool {
      BoolKey(v);
      stream.Write(if v.n == 0 then 1 else 2);
    } else if OneByte(t) {
      OneByteKey(t, v);
      var tmp := new VectorStream();
      ToKey(t, v, tmp);
      assert tmp.data == KeyOf(t, v) == [tmp.data[0]];
      stream.Write(tmp.data[0]);
      if tmp.data[0] == 0 {
        stream.Write(1);
      }
    } else {
      stream.Write(1);
      ToKey(t, v, stream);
    }
  }

  method ToKeyRange(u: Type, v: Value, stream: VectorStream)
    requires HasType(Vector(u), v)
    modifies stream
    ensures stream.data == old(stream.data) + RangeKey(u, v, 0)
    decreases v, 0
  {
    hide KeyOf, JustKey, NothingKey;
    for i := 0 to |v.vs|
      invariant stream.data + RangeKey(u, v, i) == old(stream.data) + RangeKey(u, v, 0)
    {
      ToKeyPresent(u, v.vs[i], stream);
    }
    ToKeyNull(u, stream);
  }

  method ToKeyTuple(ts: seq<Type>, v: Value, stream: VectorStream)
    requires HasType(Tuple(ts), v)
    modifies stream
    ensures stream.data == old(stream.data) + TupleKey(ts, v, 0)
    decreases v, 0
  {
    hide KeyOf;
    for i := 0 to |ts|
      invariant stream.data + TupleKey(ts, v, i) == old(stream.data) + TupleKey(ts, v, 0)
    {
      ToKey(ts[i], v.vs[i], stream);
    }
  }

  method ToKey(t: Type, v: Value, stream: VectorStream)
    requires HasType(t, v)
    modifies stream
    ensures stream.data == old(stream.data) + KeyOf(t, v)
    decreases v, 1
  {
    hide RangeKey, TupleKey, VarKey, TextKey, BigEndian, Cmp, JustKey, NothingKey;
    match t
    case UInt(w) => ToKeyInteger(v.n, w, stream);
    case SInt(w) => ToKeyInteger(v.n + Half(w), w, stream);
    case Bool => stream.Write(v.n);
    case Float(w) =>
      FloatAgrees(w, v.n, v.n);
      ToKeyInteger(FloatKey(w, v.n), w, stream);
    case Str => ToKeyText(v.s, stream);
    case VarUInt => ToKeyVarUInt32(v.n, stream);
    case Optional(u) =>
      if v.Nothing? {
        ToKeyNull(u, stream);
      } else {
        ToKeyPresent(u, v.v, stream);
      }
    case Vector(u) => ToKeyRange(u, v, stream);
    case Tuple(ts) => ToKeyTuple(ts, v, stream);
    case Variant(ts) =>
      ToKeyVarUInt32(v.index, stream);
      ToKey(ts[v.index], v.v, stream);
  }
}
