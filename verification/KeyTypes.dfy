/** Public keys, private keys and signatures, and their binary form. */
module KeyTypes {
  import opened Basics
  import opened Options
  import opened ByteStrings

  datatype Kind = PublicKey | PrivateKey | Signature

  /** A part of a key: an array of bytes, a string, or a vector of bytes. */
  datatype Part = Fixed(size: nat) | Text | Buffer

  /** The parts of a variant's alternative: K1 and R1 first, then WebAuthn. */
  function Layout(kind: Kind, alternative: nat): seq<Part> {
    match kind
    case PublicKey => if alternative < 2 then [Fixed(33)] else [Fixed(33), Fixed(1), Text]
    case PrivateKey => [Fixed(32)]
    case Signature => if alternative < 2 then [Fixed(65)] else [Fixed(65), Buffer, Text]
  }

  function Alternatives(kind: Kind): nat {
    if kind.PrivateKey? then 2 else 3
  }

  datatype Key = Key(alternative: nat, parts: seq<Bytes>)

  predicate Fit(layout: seq<Part>, parts: seq<Bytes>) {
    |parts| == |layout| && forall i :: 0 <= i < |layout| && layout[i].Fixed? ==> |parts[i]| == layout[i].size
  }

  predicate IsKey(kind: Kind, key: Key) {
    key.alternative < Alternatives(kind) && Fit(Layout(kind, key.alternative), key.parts)
  }

  /** The bytes of a part; None for a size above 32 bits. */
  function PackedPart(part: Part, value: Bytes): Option<Bytes> {
    if part.Fixed? then Some(value)
    else if |value| < UINT32 then Some(VarUInt(|value|) + value)
    else None
  }

  function Packed(layout: seq<Part>, parts: seq<Bytes>): Option<Bytes>
    requires |parts| == |layout|
  {
    if layout == [] then Some([])
    else
      var first, others := PackedPart(layout[0], parts[0]), Packed(layout[1..], parts[1..]);
      if first.None? || others.None? then None else Some(first.value + others.value)
  }

  datatype Taken = Taken(value: Bytes, rest: Bytes)

  function Take(n: nat, data: Bytes): Option<Taken> {
    if n > |data| then None else Some(Taken(data[..n], data[n..]))
  }

  /** Reads a part: a string's size has 32 bits, a vector's has 64. */
  function UnpackedPart(part: Part, data: Bytes): Option<Taken> {
    if part.Fixed? then Take(part.size, data)
    else
      var n := if part.Text? then VarUIntFrom(data, 0) else VarUIntIn(data, 0, 10, UINT64);
      if n.None? then None else Take(n.value.value, n.value.rest)
  }

  datatype AllTaken = AllTaken(values: seq<Bytes>, rest: Bytes)

  function Unpacked(layout: seq<Part>, data: Bytes): Option<AllTaken> {
    if layout == [] then Some(AllTaken([], data))
    else
      var first := UnpackedPart(layout[0], data);
      if first.None? then None
      else
        var others := Unpacked(layout[1..], first.value.rest);
        if others.None? then None else Some(AllTaken([first.value.value] + others.value.values, others.value.rest))
  }

  lemma OneArray(n: nat, data: Bytes)
    requires n <= |data|
    ensures Unpacked([Fixed(n)], data) == Some(AllTaken([data[..n]], data[n..]))
  {
    assert [Fixed(n)][1..] == [] && [data[..n]] + [] == [data[..n]];
  }

  /** Nothing follows the parts, and every size is written in the fewest bytes. */
  predicate NothingExtra(layout: seq<Part>, data: Bytes) {
    if layout == [] then data == []
    else
      (layout[0].Fixed? || Shortest(data, 0)) &&
      var first := UnpackedPart(layout[0], data);
      first.Some? && NothingExtra(layout[1..], first.value.rest)
  }

  /** Writing fails exactly for a part whose size needs more than 32 bits. */
  lemma {:induction false} PackedWhenSmall(layout: seq<Part>, parts: seq<Bytes>)
    requires |parts| == |layout|
    ensures Packed(layout, parts).Some? <==> forall i :: 0 <= i < |layout| && !layout[i].Fixed? ==> |parts[i]| < UINT32
  {
    if layout != [] {
      PackedWhenSmall(layout[1..], parts[1..]);
      if Packed(layout, parts).Some? {
        forall i | 0 <= i < |layout| && !layout[i].Fixed? ensures |parts[i]| < UINT32 {
          if i > 0 { assert layout[i] == layout[1..][i - 1] && parts[i] == parts[1..][i - 1]; }
        }
      } else if PackedPart(layout[0], parts[0]).Some? {
        var i :| 0 <= i < |layout[1..]| && !layout[1..][i].Fixed? && |parts[1..][i]| >= UINT32;
        assert !layout[i + 1].Fixed? && |parts[i + 1]| >= UINT32;
      }
    }
  }

  /** A size reads back at either width. */
  lemma SizeReads(part: Part, n: nat, rest: Bytes)
    requires n < UINT32
    ensures (if part.Text? then VarUIntFrom(VarUInt(n) + rest, 0) else VarUIntIn(VarUInt(n) + rest, 0, 10, UINT64)) == Some(Read(n, rest))
  {
    ReadBack(n, rest);
    Powers128();
    assert Pow128(10) == Pow128(5) * Pow128(5) by {
      assert Pow128(10) == 128 * (128 * (128 * (128 * (128 * Pow128(5)))));
    }
    hide VarUInt, VarUIntIn, Pow128;
    VarUIntReads(n, 0, rest, 10, UINT64);
  }

  lemma PartReads(part: Part, value: Bytes, rest: Bytes)
    requires PackedPart(part, value).Some? && (part.Fixed? ==> |value| == part.size)
    ensures UnpackedPart(part, PackedPart(part, value).value + rest) == Some(Taken(value, rest))
    ensures part.Fixed? || Shortest(PackedPart(part, value).value + rest, 0)
  {
    hide VarUInt, VarUIntFrom, VarUIntIn, Shortest;
    assert (value + rest)[..|value|] == value && (value + rest)[|value|..] == rest;
    if !part.Fixed? {
      SizeReads(part, |value|, value + rest);
      assert VarUInt(|value|) + (value + rest) == VarUInt(|value|) + value + rest;
      assert |value| * Pow128(0) == |value|;
      WrittenIsShortest(|value|, 0, value + rest);
    }
  }

  /** Reading undoes writing, and leaves what follows. */
  lemma {:induction false} PartsRead(layout: seq<Part>, parts: seq<Bytes>, rest: Bytes)
    requires Fit(layout, parts) && Packed(layout, parts).Some?
    ensures Unpacked(layout, Packed(layout, parts).value + rest) == Some(AllTaken(parts, rest))
    ensures NothingExtra(layout, Packed(layout, parts).value + rest) <==> rest == []
  {
    hide PackedPart, UnpackedPart, Shortest;
    if layout == [] {
      assert Packed(layout, parts).value + rest == rest;
    } else {
      var first, others := PackedPart(layout[0], parts[0]).value, Packed(layout[1..], parts[1..]).value;
      PartsRead(layout[1..], parts[1..], rest);
      PartReads(layout[0], parts[0], others + rest);
      assert Packed(layout, parts).value + rest == first + (others + rest);
      assert [parts[0]] + parts[1..] == parts;
    }
  }

  /** A part that reads, with its size in the fewest bytes, is what writing it gives. */
  lemma PartWrites(part: Part, data: Bytes)
    requires UnpackedPart(part, data).Some? && (part.Fixed? || Shortest(data, 0))
    ensures var t := UnpackedPart(part, data).value;
            PackedPart(part, t.value).Some? && data == PackedPart(part, t.value).value + t.rest
  {
    hide VarUInt, VarUIntFrom, VarUIntIn, Shortest;
    if part.Fixed? {
      assert data == data[..part.size] + data[part.size..];
    } else {
      var n, rest := ShortestIsWritten(data, 0);
      assert n * Pow128(0) == n;
      SizeReads(part, n, rest);
      assert rest == rest[..n] + rest[n..];
      assert VarUInt(n) + (rest[..n] + rest[n..]) == VarUInt(n) + rest[..n] + rest[n..];
    }
  }

  /** What was read has the layout's form. */
  lemma {:induction false} UnpackedFits(layout: seq<Part>, data: Bytes)
    requires Unpacked(layout, data).Some?
    ensures Fit(layout, Unpacked(layout, data).value.values)
  {
    hide VarUIntFrom, VarUIntIn;
    if layout != [] {
      UnpackedFits(layout[1..], UnpackedPart(layout[0], data).value.rest);
      var values := Unpacked(layout, data).value.values;
      forall i | 0 <= i < |layout| && layout[i].Fixed? ensures |values[i]| == layout[i].size {
        if i > 0 { assert layout[i] == layout[1..][i - 1] && values[i] == values[1..][i - 1]; }
      }
    }
  }

  /** Writing what was read gives the data back exactly when the data holds nothing extra. */
  lemma {:induction false} DataComesBack(layout: seq<Part>, data: Bytes)
    requires Unpacked(layout, data).Some?
    ensures Fit(layout, Unpacked(layout, data).value.values)
    ensures Packed(layout, Unpacked(layout, data).value.values) == Some(data) <==> NothingExtra(layout, data)
  {
    UnpackedFits(layout, data);
    var t := Unpacked(layout, data).value;
    if Packed(layout, t.values) == Some(data) {
      PartsRead(layout, t.values, []);
      assert data + [] == data;
    }
    if NothingExtra(layout, data) { WritesAgain(layout, data); }
  }

  lemma {:induction false} WritesAgain(layout: seq<Part>, data: Bytes)
    requires Unpacked(layout, data).Some? && NothingExtra(layout, data)
    ensures Fit(layout, Unpacked(layout, data).value.values)
    ensures Packed(layout, Unpacked(layout, data).value.values) == Some(data)
  {
    UnpackedFits(layout, data);
    hide PackedPart, UnpackedPart, Shortest;
    if layout != [] {
      var first := UnpackedPart(layout[0], data).value;
      PartWrites(layout[0], data);
      WritesAgain(layout[1..], first.rest);
      var values := Unpacked(layout, data).value.values;
      assert values[1..] == Unpacked(layout[1..], first.rest).value.values;
    }
  }

  /** The bytes of a key, in full. */
  lemma KeyBytes(kind: Kind, key: Key)
    requires IsKey(kind, key)
    ensures kind.PrivateKey? || key.alternative < 2 ==>
              && |key.parts| == 1 && Packed(Layout(kind, key.alternative), key.parts) == Some(key.parts[0])
              && |key.parts[0]| == (if kind.PublicKey? then 33 else if kind.PrivateKey? then 32 else 65)
    ensures kind.PublicKey? && key.alternative == 2 ==>
              && |key.parts| == 3 && |key.parts[0]| == 33 && |key.parts[1]| == 1
              && var rpid := key.parts[2];
                 |rpid| < UINT32 ==> Packed(Layout(kind, 2), key.parts) == Some(key.parts[0] + key.parts[1] + VarUInt(|rpid|) + rpid)
    ensures kind.Signature? && key.alternative == 2 ==>
              && |key.parts| == 3 && |key.parts[0]| == 65
              && var auth, client := key.parts[1], key.parts[2];
                 |auth| < UINT32 && |client| < UINT32 ==>
                   Packed(Layout(kind, 2), key.parts) == Some(key.parts[0] + VarUInt(|auth|) + auth + VarUInt(|client|) + client)
  {
    hide VarUInt, Packed;
    var layout, ps := Layout(kind, key.alternative), key.parts;
    if |layout| == 1 {
      NoParts(layout[1..], ps[1..]);
      PackedStep(layout, ps);
      assert ps[0] + [] == ps[0];
    } else {
      ThreeParts(layout, ps);
      if kind.Signature? && |ps[1]| < UINT32 && |ps[2]| < UINT32 {
        var m: Bytes, n: Bytes := VarUInt(|ps[1]|), VarUInt(|ps[2]|);
        assert ps[0] + (m + ps[1]) + (n + ps[2]) == ps[0] + m + ps[1] + n + ps[2];
      } else if |ps[2]| < UINT32 {
        assert ps[0] + ps[1] + (VarUInt(|ps[2]|) + ps[2]) == ps[0] + ps[1] + VarUInt(|ps[2]|) + ps[2];
      }
    }
  }

  lemma ThreeParts(layout: seq<Part>, parts: seq<Bytes>)
    requires |parts| == |layout| == 3
    ensures var a, b, c := PackedPart(layout[0], parts[0]), PackedPart(layout[1], parts[1]), PackedPart(layout[2], parts[2]);
            a.Some? && b.Some? && c.Some? ==> Packed(layout, parts) == Some(a.value + b.value + c.value)
  {
    hide Packed, PackedPart;
    var l1, p1 := layout[1..], parts[1..];
    var l2, p2 := l1[1..], p1[1..];
    assert l1[0] == layout[1] && p1[0] == parts[1] && l2[0] == layout[2] && p2[0] == parts[2];
    NoParts(l2[1..], p2[1..]);
    PackedStep(l2, p2);
    PackedStep(l1, p1);
    PackedStep(layout, parts);
    var a, b, c := PackedPart(layout[0], parts[0]), PackedPart(layout[1], parts[1]), PackedPart(layout[2], parts[2]);
    if a.Some? && b.Some? && c.Some? { assert a.value + (b.value + (c.value + [])) == a.value + b.value + c.value; }
  }

  lemma NoParts(layout: seq<Part>, parts: seq<Bytes>)
    requires layout == [] && parts == []
    ensures Packed(layout, parts) == Some([])
  {
  }

  lemma PackedStep(layout: seq<Part>, parts: seq<Bytes>)
    requires |parts| == |layout| > 0
    ensures var a, b := PackedPart(layout[0], parts[0]), Packed(layout[1..], parts[1..]);
            Packed(layout, parts) == if a.None? || b.None? then None else Some(a.value + b.value)
  {
  }
}
