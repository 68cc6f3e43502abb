/** The buffering and the padding of the streaming hash; the compression is a parameter. */
module Ripemd160 {
  import opened Basics
  import opened ByteStrings


  // ----- the hash of a whole message -----

  /** Folds the compression over the full blocks of `m`. */
  function Blocks<H>(compress: (H, Bytes) -> H, h: H, m: Bytes): H
    decreases |m|
  {
    if |m| < 64 then h else Blocks(compress, compress(h, m[..64]), m[64..])
  }

  /** A one bit, zeros up to 8 bytes before the end of a block, and the length in bits. */
  function Padded(m: Bytes): Bytes { m + Padding(|m|) }

  function Padding(length: nat): Bytes { PaddingFor(length % 64, LittleEndian(length * 8 % UINT64, 8)) }

  function PaddingFor(part: nat, bits: Bytes): (p: Bytes)
    requires part < 64
    ensures |p| == (if part < 56 then 56 - part else 120 - part) + |bits|
  {
    [0x80] + Zeros(if part < 56 then 55 - part else 119 - part) + bits
  }

  /** Padding fills the last block. */
  lemma PaddedIsWhole(m: Bytes)
    ensures |Padded(m)| % 64 == 0
  {
    hide LittleEndian, PaddingFor;
    WholeBlocks(|m|, |Padded(m)|);
  }

  lemma WholeBlocks(n: nat, padded: nat)
    requires padded == n + (if n % 64 < 56 then 56 - n % 64 else 120 - n % 64) + 8
    ensures padded % 64 == 0
  {
    assert padded == 64 * (n / 64 + if n % 64 < 56 then 1 else 2);
  }

  /** The message stays in front; then come the byte 128, zeros and the length in bits,
      the low byte first, in no more blocks than that takes. */
  lemma PaddingMeans(m: Bytes)
    ensures var p, n := Padded(m), |Padded(m)|;
            && n % 64 == 0 && |m| + 9 <= n < |m| + 9 + 64 && p[..|m|] == m && p[|m|] == 128
            && (forall i :: |m| < i < n - 8 ==> p[i] == 0)
            && (forall i: nat :: i < 8 ==> p[n - 8 + i] == |m| * 8 % 0x1_0000_0000_0000_0000 / Pow256(i) % 256)
  {
    hide LittleEndian, PaddingFor, Pow256;
    PaddedIsWhole(m);
    var bits := LittleEndian(|m| * 8 % UINT64, 8);
    PaddingAre(m, |m| % 64, bits, Padded(m));
    forall i: nat | i < 8 ensures bits[i] == |m| * 8 % 0x1_0000_0000_0000_0000 / Pow256(i) % 256 {
      LittleMeans(|m| * 8 % UINT64, 8, i);
    }
  }

  lemma PaddingAre(m: Bytes, part: nat, bits: Bytes, p: Bytes)
    requires part < 64 && |bits| == 8 && p == m + PaddingFor(part, bits)
    ensures |m| + 9 <= |p| < |m| + 9 + 64 && p[..|m|] == m && p[|m|] == 128
    ensures forall i :: |m| < i < |p| - 8 ==> p[i] == 0
    ensures forall i: nat :: i < 8 ==> p[|p| - 8 + i] == bits[i]
  {
  }

  /** Whole blocks are mixed in one after the other, the first one first. */
  lemma BlocksMean<H>(compress: (H, Bytes) -> H, h: H, a: Bytes, b: Bytes, rest: Bytes)
    requires |a| == |b| == 64 && |rest| < 64
    ensures Blocks(compress, h, rest) == h && Blocks(compress, h, a + b + rest) == compress(compress(h, a), b)
  {
    assert a + b + rest == a + (b + rest);
    BlocksConcat(compress, h, a, 1, b + rest);
    BlocksConcat(compress, compress(h, a), b, 1, rest);
    OneBlock(compress, h, a);
    OneBlock(compress, compress(h, a), b);
  }

  function Digest<H>(compress: (H, Bytes) -> H, init: H, m: Bytes): H {
    Blocks(compress, init, Padded(m))
  }

  lemma {:induction false} BlocksConcat<H>(compress: (H, Bytes) -> H, h: H, a: Bytes, k: nat, b: Bytes)
    requires |a| == 64 * k
    ensures Blocks(compress, h, a + b) == Blocks(compress, Blocks(compress, h, a), b)
    decreases k
  {
    if k == 0 {
      assert a + b == b;
    } else {
      assert (a + b)[..64] == a[..64] && (a + b)[64..] == a[64..] + b;
      BlocksConcat(compress, compress(h, a[..64]), a[64..], k - 1, b);
    }
  }

  lemma OneBlock<H>(compress: (H, Bytes) -> H, h: H, b: Bytes)
    requires |b| == 64
    ensures Blocks(compress, h, b) == compress(h, b)
  {
    assert b[..64] == b;
  }

  lemma NextBlock<H>(compress: (H, Bytes) -> H, h: H, a: Bytes, k: nat, b: Bytes)
    requires |a| == 64 * k && |b| == 64
    ensures |a + b| == 64 * (k + 1) && Blocks(compress, h, a + b) == compress(Blocks(compress, h, a), b)
  {
    BlocksConcat(compress, h, a, k, b);
    OneBlock(compress, Blocks(compress, h, a), b);
  }

  lemma LengthAdds(n: nat, more: nat)
    ensures (n * 8 % UINT64 + more * 8) % UINT64 == (n + more) * 8 % UINT64
  {
  }

  // ----- the state -----

  class State<H> {
    const compress: (H, Bytes) -> H
    const init: H
    var h: H
    const buf: array<byte>
    var bufpos: nat
    var length: nat
    /** The blocks that have been mixed in, and how many they are. */
    ghost var done: Bytes
    ghost var count: nat

    /** No full buffer is ever left, and the buffer is zero past bufpos. */
    ghost predicate Valid()
      reads this, buf
    {
      && buf.Length == 64 && bufpos < 64 && |done| == 64 * count
      && h == Blocks(compress, init, done)
      && (forall j :: bufpos <= j < 64 ==> buf[j] == 0)
      && length == (|done| + bufpos) * 8 % UINT64
    }

    /** Everything fed so far. */
    ghost function Message(): Bytes
      reads this, buf
      requires Valid()
    {
      done + buf[..bufpos]
    }

    constructor (compress: (H, Bytes) -> H, init: H)
      ensures Valid() && Message() == [] && this.compress == compress && this.init == init && fresh(buf)
    {
      this.compress, this.init, h := compress, init, init;
      buf := new byte[64](i => 0);
      bufpos, length, done, count := 0, 0, [], 0;
    }

    /** Mixes the buffer in and clears it. */
    method Compress()
      requires buf.Length == 64
      modifies this`h, this`bufpos, buf
      ensures h == compress(old(h), old(buf[..])) && bufpos == 0 && forall j :: 0 <= j < 64 ==> buf[j] == 0
    {
      h := compress(h, buf[..]);
      for i := 0 to 64
        invariant h == compress(old(h), old(buf[..])) && forall j :: 0 <= j < i ==> buf[j] == 0
      {
        buf[i] := 0;
      }
      bufpos := 0;
    }

    /** Copies bytes into the buffer at bufpos. */
    method Copy(p: Bytes)
      requires buf.Length == 64 && bufpos + |p| <= 64
      modifies buf
      ensures buf[..bufpos + |p|] == old(buf[..bufpos]) + p
      ensures forall j :: bufpos + |p| <= j < 64 ==> buf[j] == old(buf[j])
    {
      for i := 0 to |p|
        invariant buf[..bufpos + i] == old(buf[..bufpos]) + p[..i]
        invariant forall j :: bufpos + i <= j < 64 ==> buf[j] == old(buf[j])
      {
        ghost var before := buf[..bufpos + i];
        buf[bufpos + i] := p[i];
        assert buf[..bufpos + i + 1] == before + [p[i]];
      }
    }

    /** Feeds bytes: fills the buffer, mixes it in each time it is full, and keeps the rest. */
    method Update(data: Bytes)
      requires Valid()
      modifies this`h, this`bufpos, this`length, this`done, this`count, buf
      ensures Valid() && Message() == old(Message()) + data
    {
      hide Blocks;
      var p := data;
      while |p| >= 64 - bufpos
        invariant Valid() && Message() + p == old(Message()) + data
        decreases |p|
      {
        var needed := 64 - bufpos;
        ghost var before := Message();
        Fill(p[..needed]);
        assert before + p == before + p[..needed] + p[needed..];
        p := p[needed..];
      }
      Keep(p);
    }

    /** Puts bytes into the room that is left in the buffer. */
    method Keep(p: Bytes)
      requires Valid() && |p| < 64 - bufpos
      modifies this`bufpos, this`length, buf
      ensures Valid() && Message() == old(Message()) + p
    {
      hide Blocks;
      Copy(p);
      LengthAdds(|done| + bufpos, |p|);
      length := (length + |p| * 8) % UINT64;
      bufpos := bufpos + |p|;
    }

    /** Fills the buffer and mixes it in. */
    method Fill(p: Bytes)
      requires Valid() && |p| == 64 - bufpos
      modifies this`h, this`bufpos, this`length, this`done, this`count, buf
      ensures Valid() && Message() == old(Message()) + p && bufpos == 0
    {
      hide Blocks;
      ghost var block := buf[..bufpos] + p;
      Copy(p);
      assert buf[..] == buf[..64] == block;
      LengthAdds(|done| + bufpos, |p|);
      length := (length + |p| * 8) % UINT64;
      NextBlock(compress, init, done, count, block);
      Compress();
      done, count := done + block, count + 1;
    }

    /** The digest of everything fed so far; the state is not changed. */
    method DigestOf() returns (out: H)
      requires Valid()
      ensures out == Digest(compress, init, Message())
    {
      var tmp := new State(compress, init);
      tmp.Assign(this);
      ghost var part := buf[..bufpos];
      out := tmp.Finish();
      PaddedBlocks(compress, init, done, count, part);
    }

    /** Appends the padding to the buffer and mixes it in. */
    method Finish() returns (out: H)
      requires buf.Length == 64 && bufpos < 64 && length < UINT64 && forall j :: bufpos <= j < 64 ==> buf[j] == 0
      modifies this`h, this`bufpos, buf
      ensures out == Ended(compress, old(h), old(buf[..bufpos]), LittleEndian(length, 8))
    {
      hide Blocks, LittleEndian;
      ghost var start := buf[..bufpos] + [0x80];
      buf[bufpos] := 0x80;
      bufpos := bufpos + 1;
      if bufpos > 56 {
        assert buf[..] == start + Zeros(64 - |start|);
        bufpos := 64;
        Compress();
        assert buf[..56] == Zeros(56);
      } else {
        assert buf[..56] == start + Zeros(56 - |start|);
      }
      bufpos := 56;
      Copy(LittleEndian(length, 8));
      bufpos := 64;
      assert buf[..] == buf[..64];
      Compress();
      out := h;
    }

    method Assign(source: State<H>)
      requires buf.Length == 64 && source.Valid() && source != this && source.buf != buf
      modifies this`h, this`bufpos, this`length, buf
      ensures h == source.h && bufpos == source.bufpos && length == source.length && buf[..] == source.buf[..]
    {
      h, bufpos, length := source.h, source.bufpos, source.length;
      for i := 0 to 64
        invariant h == source.h && bufpos == source.bufpos && length == source.length
        invariant forall j :: 0 <= j < i ==> buf[j] == source.buf[j]
      {
        buf[i] := source.buf[i];
      }
    }
  }

  /** What the last block or two do to the state `h`. */
  ghost function Ended<H>(compress: (H, Bytes) -> H, h: H, part: Bytes, bits: Bytes): H
    requires |part| < 64
  {
    if |part| + 1 > 56 then compress(compress(h, part + [0x80] + Zeros(64 - (|part| + 1))), Zeros(56) + bits)
    else compress(h, part + [0x80] + Zeros(56 - (|part| + 1)) + bits)
  }

  /** The padded message is its full blocks and one or two more. */
  lemma PaddedBlocks<H>(compress: (H, Bytes) -> H, init: H, done: Bytes, k: nat, part: Bytes)
    requires |done| == 64 * k && |part| < 64
    ensures Digest(compress, init, done + part) ==
              Ended(compress, Blocks(compress, init, done), part, LittleEndian((|done| + |part|) * 8 % UINT64, 8))
  {
    hide Blocks, LittleEndian, PaddingFor, Zeros, Padded;
    var bits := LittleEndian((|done| + |part|) * 8 % UINT64, 8);
    PaddedIs(done, k, part);
    if |part| + 1 > 56 {
      var one, two := part + [0x80] + Zeros(64 - (|part| + 1)), Zeros(56) + bits;
      TwoBlocks(done, part, bits);
      NextBlock(compress, init, done, k, one);
      NextBlock(compress, init, done + one, k + 1, two);
    } else {
      var one := part + [0x80] + Zeros(56 - (|part| + 1)) + bits;
      LastBlock(done, part, bits);
      NextBlock(compress, init, done, k, one);
    }
  }

  lemma PaddedIs(done: Bytes, k: nat, part: Bytes)
    requires |done| == 64 * k && |part| < 64
    ensures Padded(done + part) == done + part + PaddingFor(|part|, LittleEndian((|done| + |part|) * 8 % UINT64, 8))
  {
    hide PaddingFor, LittleEndian;
    PartOf(k, |done|, |part|);
  }

  lemma PartOf(k: nat, done: nat, part: nat)
    requires done == 64 * k && part < 64
    ensures (done + part) % 64 == part
  {
  }

  lemma LastBlock(done: Bytes, part: Bytes, bits: Bytes)
    requires |part| < 56
    ensures done + part + PaddingFor(|part|, bits) == done + (part + [0x80] + Zeros(56 - (|part| + 1)) + bits)
  {
  }

  lemma TwoBlocks(done: Bytes, part: Bytes, bits: Bytes)
    requires 56 <= |part| < 64
    ensures done + part + PaddingFor(|part|, bits) == done + (part + [0x80] + Zeros(64 - (|part| + 1))) + (Zeros(56) + bits)
  {
    assert Zeros(119 - |part|) == Zeros(64 - (|part| + 1)) + Zeros(56);
  }

  /** Two states that were fed the same bytes, in whatever chunks, are the same. */
  lemma SameBytesSameState<H>(a: State<H>, b: State<H>)
    requires a.Valid() && b.Valid() && a.compress == b.compress && a.init == b.init && a.Message() == b.Message()
    ensures a.h == b.h && a.bufpos == b.bufpos && a.length == b.length && a.buf[..] == b.buf[..]
  {
    assert |a.Message()| == 64 * a.count + a.bufpos && |b.Message()| == 64 * b.count + b.bufpos;
    assert a.count == b.count;
    assert a.done == a.Message()[..|a.done|] && b.done == b.Message()[..|b.done|];
    assert a.buf[..a.bufpos] == a.Message()[|a.done|..] && b.buf[..b.bufpos] == b.Message()[|b.done|..];
    forall j | 0 <= j < 64 ensures a.buf[j] == b.buf[j] {
      if j < a.bufpos { assert a.buf[..a.bufpos][j] == b.buf[..b.bufpos][j]; }
    }
  }

  function Concat(chunks: seq<Bytes>): Bytes {
    if chunks == [] then [] else Concat(chunks[..|chunks| - 1]) + chunks[|chunks| - 1]
  }

  /** Hashes a message fed in chunks: the digest is the one of the whole message. */
  method HashChunks<H>(compress: (H, Bytes) -> H, init: H, chunks: seq<Bytes>) returns (out: H)
    ensures out == Digest(compress, init, Concat(chunks))
  {
    hide Blocks;
    var s := new State(compress, init);
    for i := 0 to |chunks|
      invariant s.Valid() && s.compress == compress && s.init == init && s.Message() == Concat(chunks[..i])
    {
      assert chunks[..i + 1][..i] == chunks[..i];
      s.Update(chunks[i]);
    }
    assert chunks[..|chunks|] == chunks;
    out := s.DigestOf();
  }
}
