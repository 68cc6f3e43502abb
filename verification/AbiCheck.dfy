/** Both encoders and the decoder together. */
module AbiCheck {
  import opened Basics
  import opened Options
  import opened ByteStrings
  import opened AbiSpec
  import opened AbiLaws
  import opened AbiDecode
  import opened JsonTokens
  import AbiTree
  import AbiTokens
  import AbiReader
  import TimeText

  /** For all types and values whose leaves read back to as many bytes: decoding what the
      value-tree encoder wrote takes every byte, and encoding the result again, in order, gives
      as many bytes: the same ones if and only if every leaf of the value gives the same. */
  lemma DecodeIsStable(abi: Abi, t: TypeId, v: Json)
    requires Usable(abi) && Known(abi, t) && Encode(abi, t, v, true, false).Some? && LeavesRead(abi, t, v) && Depth(v) <= 128
    ensures var b := Encode(abi, t, v, true, false).value.bytes;
            var d := Decode(abi, t, b, true, 128);
            && d.Some? && d.value.rest == []
            && var p := EncodeParts(abi, t, d.value.v, true, false);
               p.Some? && PartsOk(p.value) && |Spliced(p.value)| == |b| && (Spliced(p.value) == b <==> LeavesOk(abi, t, v))
  {
    RoundTrip(abi, t, v, true, [], MAX_STACK_SIZE);
    var b := Encode(abi, t, v, true, false).value.bytes;
    assert b + [] == b;
    hide Usable, Decode, Encode, EncodeParts, Ordered, Fits, LeavesAre;
    UsableIs(abi);
    SameBytes(abi, t, Decode(abi, t, b, true, MAX_STACK_SIZE).value.v);
  }

  lemma UsableIs(abi: Abi)
    requires Usable(abi)
    ensures Resolved(abi) && DistinctNames(abi) && ExtensionsLast(abi)
  {
  }

  /** The round the repository's test makes: encode in either way, compare, decode, and
      encode again.  The encoders never differ, and take the same values in order; decoding
      and encoding again changes a byte exactly when some leaf does. */
  method RoundOf(abi: Abi, t: TypeId, v: Json, input: seq<Token>)
      returns (reorderable: bool, ordered: AbiTokens.Outcome, same: bool, stable: bool)
    requires Usable(abi) && Known(abi, t) && input == Tokens(v)
    ensures reorderable <==> Encode(abi, t, v, true, false).Some?
    ensures ordered.TooDeep? ==> AbiTokens.Frames(v) > 128
    ensures reorderable && Ordered(abi, t, v) && AbiTokens.Frames(v) <= 128 ==> ordered.Accepted?
    ensures Fits(v) && ordered.Accepted? ==> reorderable
    ensures reorderable ==> same
    ensures reorderable && LeavesRead(abi, t, v) && Depth(v) <= 128 ==> (stable <==> LeavesOk(abi, t, v))
    ensures reorderable && LeavesOk(abi, t, v) && Depth(v) <= 128 ==> stable
  {
    UsableIs(abi);
    hide Usable, Decode, Encode, EncodeParts, Ordered, Fits, Tokens, DistinctNames, ExtensionsLast, LeavesAre, AbiTokens.Frames, Depth;
    var bin;
    reorderable, bin := AbiTree.JsonToBin(abi, t, v);
    ordered := AbiTokens.JsonToBin(abi, t, input, v);
    SameBytes(abi, t, v);
    same := reorderable && ordered.Accepted? ==> ordered.bin == bin;
    stable := false;
    if !reorderable {
      return;
    }
    var ok, dest, rest := AbiReader.BinToTokens(abi, t, bin);
    if ok {
      ghost var w := Decode(abi, t, bin, true, MAX_STACK_SIZE).value.v;
      DecodedDepth(abi, t, bin, true, MAX_STACK_SIZE);
      AbiTokens.FramesWithinDepth(w);
      var again := AbiTokens.JsonToBin(abi, t, dest, w);
      stable := rest == [] && again.Accepted? && again.bin == bin;
    }
    if LeavesOk(abi, t, v) { OkIsRead(abi, t, v); }
    if LeavesRead(abi, t, v) && Depth(v) <= MAX_STACK_SIZE { DecodeIsStable(abi, t, v); }
  }

  // ----- a codec that keeps the promise asked of the builtin types -----

  /** The builtin `string`, for characters of one byte. */
  function StringLeaf(v: Json): Option<Bytes> {
    if v.Text? && |v.s| < UINT32 && (forall i :: 0 <= i < |v.s| ==> v.s[i] as int < 256) then
      Some(VarUInt(|v.s|) + seq(|v.s|, i requires 0 <= i < |v.s| => v.s[i] as int % 256))
    else None
  }

  function StringUnleaf(b: Bytes): Option<(Json, Bytes)> {
    var n := VarUIntFrom(b, 0);
    if n.None? || n.value.value > |n.value.rest| then None
    else Some((Text(seq(n.value.value, i requires 0 <= i < n.value.value => n.value.rest[i] as char)), n.value.rest[n.value.value..]))
  }

  ghost predicate IsString(abi: Abi, kind: nat) {
    (forall w :: abi.leaf(kind, w) == StringLeaf(w)) && (forall b :: abi.unleaf(kind, b) == StringUnleaf(b))
  }

  /** A string is the number of its characters, then the characters. */
  lemma StringExample()
    ensures StringLeaf(Text("ab")) == Some([2, 97, 98]) && StringLeaf(Text("")) == Some([0]) && StringLeaf(Null).None? && StringLeaf(Flag(true)).None?
  {
    assert VarUInt(2) == [2] && VarUInt(0) == [0];
    var s, e := "ab", "";
    var body: Bytes := seq(|s|, i requires 0 <= i < |s| => s[i] as int % 256);
    assert body == [97, 98];
    assert [2] + body == [2, 97, 98];
    var none: Bytes := seq(|e|, i requires 0 <= i < |e| => e[i] as int % 256);
    assert none == [];
    assert [0] + none == [0];
  }

  /** A string with too few bytes is refused, and so is a time point. */
  lemma TooFewBytes(n: nat, b: Bytes)
    requires |b| < n < UINT32
    ensures StringUnleaf(VarUInt(n) + b) == None && StringUnleaf([]) == None
    ensures |b| < 8 ==> TimePointUnleaf(b) == None
  {
    hide VarUInt;
    ReadBack(n, b);
  }

  /** Strings read back. */
  lemma StringsAreLeaves(abi: Abi, kind: nat, v: Json, rest: Bytes)
    requires IsString(abi, kind)
    requires Leaf(abi, kind, v).Some?
    ensures LeafOk(abi, kind, Leaf(abi, kind, v).value, rest)
    ensures Unleaf(abi, kind, Leaf(abi, kind, v).value + rest) == Some((v, rest))
  {
    hide VarUInt, VarUIntFrom;
    var body: Bytes := seq(|v.s|, i requires 0 <= i < |v.s| => v.s[i] as int % 256);
    assert StringLeaf(v).value + rest == VarUInt(|v.s|) + (body + rest);
    ReadBack(|v.s|, body + rest);
    var n := VarUIntFrom(StringLeaf(v).value + rest, 0).value;
    assert n == Read(|v.s|, body + rest);
    var s := seq(n.value, i requires 0 <= i < n.value => n.rest[i] as char);
    assert s == v.s;
    assert n.rest[n.value..] == rest;
  }

  /** The builtin `time_point`: eight bytes of microseconds, printed to the millisecond. */
  function TimePointLeaf(v: Json): Option<Bytes> {
    if v.Text? && TimeText.TimePointOf(v.s).Some? then Some(LittleEndian(TimeText.TimePointOf(v.s).value, 8)) else None
  }

  function TimePointUnleaf(b: Bytes): Option<(Json, Bytes)> {
    if |b| < 8 then None else Some((Text(TimeText.TimeText(TimeText.Signed64(FromLittle(b[..8])))), b[8..]))
  }

  ghost predicate IsTimePoint(abi: Abi, kind: nat) {
    (forall w :: abi.leaf(kind, w) == TimePointLeaf(w)) && (forall b :: abi.unleaf(kind, b) == TimePointUnleaf(b))
  }

  /** A time point reads back exactly when it is a whole number of milliseconds. */
  lemma WholeMillisAreLeaves(abi: Abi, kind: nat, v: Json, rest: Bytes)
    requires IsTimePoint(abi, kind)
    requires v.Text? && TimeText.TimePointOf(v.s).Some?
    ensures Leaf(abi, kind, v).Some?
    ensures LeafOk(abi, kind, Leaf(abi, kind, v).value, rest) <==> TimeText.TimePointOf(v.s).value % 1000 == 0
  {
    hide TimeText.TimePointOf, TimeText.TimeText, LittleEndian, FromLittle, Pow256;
    var us := TimeText.TimePointOf(v.s).value;
    var b := LittleEndian(us, 8);
    TimeText.TimePointInRange(v.s);
    EightBytes();
    LittleReadsBack(us, 8);
    assert (b + rest)[..8] == b && (b + rest)[8..] == rest;
    TimeText.TimePointsComeBack(us, "");
    assert TimeText.TimeText(us) + "" == TimeText.TimeText(us);
    if us % 1000 != 0 { DifferentBytes(us, us / 1000 * 1000); }
  }

  /** Every time point reads back to as many bytes, those of its whole milliseconds. */
  lemma TimePointsRead(abi: Abi, kind: nat, v: Json)
    requires IsTimePoint(abi, kind)
    requires v.Text? && TimeText.TimePointOf(v.s).Some?
    ensures Leaf(abi, kind, v).Some? && LeafReads(abi, kind, Leaf(abi, kind, v).value)
    ensures AlwaysReadsAs(abi, kind, Leaf(abi, kind, v).value, LittleEndian(TimeText.TimePointOf(v.s).value / 1000 * 1000, 8))
  {
    hide TimeText.TimePointOf, TimeText.TimeText, LittleEndian, FromLittle, Pow256;
    var us := TimeText.TimePointOf(v.s).value;
    var b, again := LittleEndian(us, 8), LittleEndian(us / 1000 * 1000, 8);
    TimeText.TimePointInRange(v.s);
    EightBytes();
    LittleReadsBack(us, 8);
    TimeText.TimePointsComeBack(us, "");
    assert TimeText.TimeText(us) + "" == TimeText.TimeText(us);
    forall rest ensures ReadsAs(abi, kind, b, again, rest) {
      assert (b + rest)[..8] == b && (b + rest)[8..] == rest;
    }
    assert AlwaysReadsAs(abi, kind, b, again);
  }

  /** Where all leaves are strings and time points, those of every value read back. */
  lemma StringsAndTimePoints(abi: Abi, t: TypeId, v: Json)
    requires Resolved(abi) && Known(abi, t) && forall kind :: IsString(abi, kind) || IsTimePoint(abi, kind)
    ensures LeavesRead(abi, t, v)
  {
    hide StringLeaf, StringUnleaf, TimePointLeaf, TimePointUnleaf;
    forall kind, w | Leaf(abi, kind, w).Some?
      ensures LeafReads(abi, kind, Leaf(abi, kind, w).value)
    {
      OneReads(abi, kind, w);
    }
    CodecsRead(abi, t, v);
  }

  lemma OneReads(abi: Abi, kind: nat, w: Json)
    requires (IsString(abi, kind) || IsTimePoint(abi, kind)) && Leaf(abi, kind, w).Some?
    ensures LeafReads(abi, kind, Leaf(abi, kind, w).value)
  {
    var b := Leaf(abi, kind, w).value;
    if IsString(abi, kind) {
      hide StringUnleaf;
      forall rest ensures ReadsAs(abi, kind, b, b, rest) { StringsAreLeaves(abi, kind, w, rest); }
      assert AlwaysReadsAs(abi, kind, b, b);
    } else {
      TimePointsRead(abi, kind, w);
    }
  }

  /** The bytes of one microsecond after 1970 do not survive decoding and encoding again. */
  lemma MicrosecondIsLost(abi: Abi, t: TypeId)
    requires Usable(abi) && Known(abi, t) && abi.defs[t].Builtin? && IsTimePoint(abi, abi.defs[t].kind)
    ensures var b: Bytes := [1, 0, 0, 0, 0, 0, 0, 0];
            var d := Decode(abi, t, b, true, MAX_STACK_SIZE);
            && Encode(abi, t, Text(TimeText.ONE_MICROSECOND), true, false) == Some(Out(b, false))
            && d.Some? && d.value.rest == []
            && Encode(abi, t, d.value.v, true, false) == Some(Out([0, 0, 0, 0, 0, 0, 0, 0], false))
  {
    hide TimeText.TimePointOf, TimeText.TimeText, LittleEndian, FromLittle, Usable, TimePointUnleaf;
    var kind, v := abi.defs[t].kind, Text(TimeText.ONE_MICROSECOND);
    TimeText.OneMicrosecondReads();
    LittleOne();
    TimePointsRead(abi, kind, v);
    var b: Bytes := [1, 0, 0, 0, 0, 0, 0, 0];
    assert ReadsAs(abi, kind, b, LittleEndian(0, 8), []);
    hide AlwaysReadsAs, LeafReads;
    assert b + [] == b;
  }

  lemma LittleOne()
    ensures LittleEndian(1, 8) == [1, 0, 0, 0, 0, 0, 0, 0] && LittleEndian(0, 8) == [0, 0, 0, 0, 0, 0, 0, 0]
  {
    assert LittleEndian(0, 4) == [0, 0, 0, 0];
    assert LittleEndian(0, 7) == [0, 0, 0] + LittleEndian(0, 4);
  }

  lemma EightBytes()
    ensures Pow256(8) == 0x1_0000_0000_0000_0000
  {
    assert Pow256(4) == 0x1_0000_0000;
    assert Pow256(8) == 0x1_0000_0000 * Pow256(4);
  }

  lemma DifferentBytes(a: nat, b: nat)
    requires a != b && a < Pow256(8) && b < Pow256(8)
    ensures LittleEndian(a, 8) != LittleEndian(b, 8)
  {
    LittleReadsBack(a, 8);
    LittleReadsBack(b, 8);
  }
}
