/** Decoding, and what it undoes. */
module AbiDecode {
  import opened Basics
  import opened Options
  import opened ByteStrings
  import opened AbiSpec
  import opened AbiLaws

  datatype Decoded = Decoded(v: Json, rest: Bytes)
  datatype DecodedMembers = DecodedMembers(members: seq<Member>, rest: Bytes)
  datatype DecodedItems = DecodedItems(items: seq<Json>, rest: Bytes)

  /** Decodes a value of type `t`, with room for `room` more open objects, arrays and
      variants. */
  function Decode(abi: Abi, t: TypeId, bin: Bytes, allow: bool, room: nat): Option<Decoded>
    requires Resolved(abi) && Known(abi, t)
    decreases room, 0, Rank(abi, t)
  {
    match abi.defs[t]
    case Builtin(kind) =>
      var r := Unleaf(abi, kind, bin);
      if r.None? then None else Some(Decoded(r.value.0, r.value.1))
    case OptionalOf(u) =>
      assert DefOk(abi, abi.defs[t]);
      if bin == [] then None
      else if bin[0] != 0 then Decode(abi, u, bin[1..], allow, room)
      else Some(Decoded(Null, bin[1..]))
    case ExtensionOf(u) =>
      assert DefOk(abi, abi.defs[t]);
      Decode(abi, u, bin, allow, room)
    case StructOf(fields) =>
      assert DefOk(abi, abi.defs[t]);
      if room == 0 then None
      else
        var r := DecodeFields(abi, fields, 0, bin, allow, room - 1);
        if r.None? then None else Some(Decoded(Obj(r.value.members), r.value.rest))
    case ArrayOf(u) =>
      assert DefOk(abi, abi.defs[t]);
      var n := VarUIntFrom(bin, 0);
      if room == 0 || n.None? then None
      else
        var r := DecodeItems(abi, u, n.value.value, n.value.rest, room - 1);
        if r.None? then None else Some(Decoded(Arr(r.value.items), r.value.rest))
    case VariantOf(fields) =>
      assert DefOk(abi, abi.defs[t]);
      var i := VarUIntFrom(bin, 0);
      if room == 0 || i.None? || i.value.value >= |fields| then None
      else
        var f := fields[i.value.value];
        var r := Decode(abi, f.t, i.value.rest, allow, room - 1);
        if r.None? then None else Some(Decoded(Arr([Text(f.name), r.value.v]), r.value.rest))
  }

  /** The fields from `i` on; extensions are left out when the input is at its end. */
  function DecodeFields(abi: Abi, fields: seq<Field>, i: nat, bin: Bytes, allow: bool, room: nat): Option<DecodedMembers>
    requires Resolved(abi) && FieldsKnown(abi, fields) && i <= |fields|
    decreases room, 1, |fields| - i
  {
    if i == |fields| then Some(DecodedMembers([], bin))
    else if bin == [] && IsExtension(abi, fields[i].t) && allow then DecodeFields(abi, fields, i + 1, bin, allow, room)
    else
      var r := Decode(abi, fields[i].t, bin, allow && i + 1 == |fields|, room);
      if r.None? then None
      else
        var more := DecodeFields(abi, fields, i + 1, r.value.rest, allow, room);
        if more.None? then None
        else Some(DecodedMembers([Member(fields[i].name, r.value.v)] + more.value.members, more.value.rest))
  }

  function DecodeItems(abi: Abi, u: TypeId, n: nat, bin: Bytes, room: nat): (d: Option<DecodedItems>)
    requires Resolved(abi) && Known(abi, u)
    ensures d.Some? ==> |d.value.items| == n
    decreases room, 1, n
  {
    if n == 0 then Some(DecodedItems([], bin))
    else
      var r := Decode(abi, u, bin, false, room);
      if r.None? then None
      else
        var more := DecodeItems(abi, u, n - 1, r.value.rest, room);
        if more.None? then None else Some(DecodedItems([r.value.v] + more.value.items, more.value.rest))
  }

  /** What is decoded is nested no deeper than there was room for. */
  lemma {:induction false} DecodedDepth(abi: Abi, t: TypeId, bin: Bytes, allow: bool, room: nat)
    requires Resolved(abi) && Known(abi, t)
    ensures var d := Decode(abi, t, bin, allow, room); d.Some? ==> Depth(d.value.v) <= room
    decreases room, 0, Rank(abi, t)
  {
    hide DecodeFields, DecodeItems;
    assert DefOk(abi, abi.defs[t]);
    match abi.defs[t]
    case Builtin(_) =>
    case OptionalOf(u) => if bin != [] { DecodedDepth(abi, u, bin[1..], allow, room); }
    case ExtensionOf(u) => DecodedDepth(abi, u, bin, allow, room);
    case StructOf(fields) =>
      if room > 0 {
        DecodedFieldsDepth(abi, fields, 0, bin, allow, room - 1);
        var r := DecodeFields(abi, fields, 0, bin, allow, room - 1);
        if r.Some? { ObjectDepth(r.value.members, room - 1); }
      }
    case ArrayOf(u) =>
      var n := VarUIntFrom(bin, 0);
      if room > 0 && n.Some? {
        DecodedItemsDepth(abi, u, n.value.value, n.value.rest, room - 1);
        var r := DecodeItems(abi, u, n.value.value, n.value.rest, room - 1);
        if r.Some? { ListDepth(r.value.items, room - 1); }
      }
    case VariantOf(fields) =>
      var i := VarUIntFrom(bin, 0);
      if room > 0 && i.Some? && i.value.value < |fields| {
        var f := fields[i.value.value];
        DecodedDepth(abi, f.t, i.value.rest, allow, room - 1);
        var r := Decode(abi, f.t, i.value.rest, allow, room - 1);
        assert Depth(Text(f.name)) == 0;
        if r.Some? { ListDepth([Text(f.name), r.value.v], room - 1); }
      }
  }

  lemma {:induction false} DecodedFieldsDepth(abi: Abi, fields: seq<Field>, i: nat, bin: Bytes, allow: bool, room: nat)
    requires Resolved(abi) && FieldsKnown(abi, fields) && i <= |fields|
    ensures var d := DecodeFields(abi, fields, i, bin, allow, room);
            d.Some? ==> MembersWithin(d.value.members, room)
    decreases room, 1, |fields| - i
  {
    hide Depth, Decode, MembersWithin;
    NoneWithin(room);
    if i < |fields| {
      if bin == [] && IsExtension(abi, fields[i].t) && allow {
        DecodedFieldsDepth(abi, fields, i + 1, bin, allow, room);
      } else {
        DecodedDepth(abi, fields[i].t, bin, allow && i + 1 == |fields|, room);
        var r := Decode(abi, fields[i].t, bin, allow && i + 1 == |fields|, room);
        if r.Some? {
          DecodedFieldsDepth(abi, fields, i + 1, r.value.rest, allow, room);
          var more := DecodeFields(abi, fields, i + 1, r.value.rest, allow, room);
          if more.Some? { MembersFollow(Member(fields[i].name, r.value.v), more.value.members, room); }
        }
      }
    }
  }

  lemma {:induction false} DecodedItemsDepth(abi: Abi, u: TypeId, n: nat, bin: Bytes, room: nat)
    requires Resolved(abi) && Known(abi, u)
    ensures var d := DecodeItems(abi, u, n, bin, room);
            d.Some? ==> ItemsWithin(d.value.items, room)
    decreases room, 1, n
  {
    hide Depth, Decode, ItemsWithin;
    NoneWithin(room);
    if n > 0 {
      DecodedDepth(abi, u, bin, false, room);
      var r := Decode(abi, u, bin, false, room);
      if r.Some? {
        DecodedItemsDepth(abi, u, n - 1, r.value.rest, room);
        var more := DecodeItems(abi, u, n - 1, r.value.rest, room);
        if more.Some? { ItemsFollow(r.value.v, more.value.items, room); }
      }
    }
  }

  ghost predicate MembersWithin(members: seq<Member>, d: nat) {
    forall k :: 0 <= k < |members| ==> Depth(members[k].value) <= d
  }

  ghost predicate ItemsWithin(items: seq<Json>, d: nat) {
    forall k :: 0 <= k < |items| ==> Depth(items[k]) <= d
  }

  lemma NoneWithin(d: nat)
    ensures MembersWithin([], d) && ItemsWithin([], d)
  {
  }

  lemma MembersFollow(m: Member, more: seq<Member>, d: nat)
    requires Depth(m.value) <= d && MembersWithin(more, d)
    ensures MembersWithin([m] + more, d)
  {
    hide Depth;
    forall k | 0 <= k < |[m] + more| ensures Depth(([m] + more)[k].value) <= d {
      if k > 0 { assert ([m] + more)[k] == more[k - 1]; }
    }
  }

  lemma ItemsFollow(x: Json, more: seq<Json>, d: nat)
    requires Depth(x) <= d && ItemsWithin(more, d)
    ensures ItemsWithin([x] + more, d)
  {
    hide Depth;
    forall k | 0 <= k < |[x] + more| ensures Depth(([x] + more)[k]) <= d {
      if k > 0 { assert ([x] + more)[k] == more[k - 1]; }
    }
  }

  lemma ObjectDepth(members: seq<Member>, d: nat)
    requires MembersWithin(members, d)
    ensures Depth(Obj(members)) <= d + 1
  {
    MembersDepthWithin(Obj(members), 0, d);
  }

  lemma ListDepth(items: seq<Json>, d: nat)
    requires ItemsWithin(items, d)
    ensures Depth(Arr(items)) <= d + 1
  {
    ItemsDepthWithin(Arr(items), 0, d);
  }

  lemma {:induction false} MembersDepthWithin(v: Json, i: nat, d: nat)
    requires v.Obj? && i <= |v.members| && forall k :: i <= k < |v.members| ==> Depth(v.members[k].value) <= d
    ensures MembersDepth(v, i) <= d
    decreases |v.members| - i
  {
    if i < |v.members| { MembersDepthWithin(v, i + 1, d); }
  }

  lemma {:induction false} ItemsDepthWithin(v: Json, i: nat, d: nat)
    requires v.Arr? && i <= |v.items| && forall k :: i <= k < |v.items| ==> Depth(v.items[k]) <= d
    ensures ItemsDepth(v, i) <= d
    decreases |v.items| - i
  {
    if i < |v.items| { ItemsDepthWithin(v, i + 1, d); }
  }

  // ----- what is asked of the builtin codecs -----

  /** Reading back what was written gives a scalar that is written as `again`, and leaves
      what follows. */
  ghost predicate ReadsAs(abi: Abi, kind: nat, b: Bytes, again: Bytes, rest: Bytes) {
    var r := Unleaf(abi, kind, b + rest);
    && r.Some? && r.value.1 == rest
    && (r.value.0.Flag? || r.value.0.Text?) && Leaf(abi, kind, r.value.0) == Some(again)
  }

  ghost predicate AlwaysReadsAs(abi: Abi, kind: nat, b: Bytes, again: Bytes) {
    forall rest :: ReadsAs(abi, kind, b, again, rest)
  }

  /** What was written reads back to the same bytes. */
  ghost predicate LeafOk(abi: Abi, kind: nat, b: Bytes, rest: Bytes) {
    ReadsAs(abi, kind, b, b, rest)
  }

  /** What was written reads back to as many bytes. */
  ghost predicate LeafReads(abi: Abi, kind: nat, b: Bytes) {
    exists again :: |again| == |b| && AlwaysReadsAs(abi, kind, b, again)
  }

  /** So it is for all the leaves of a value: to the same bytes if `exact`, else to as many. */
  ghost predicate LeavesAre(abi: Abi, t: TypeId, v: Json, exact: bool)
    requires Resolved(abi) && Known(abi, t)
    decreases v, Rank(abi, t)
  {
    assert DefOk(abi, abi.defs[t]);
    match abi.defs[t]
    case Builtin(kind) =>
      var b := Leaf(abi, kind, v);
      b.Some? ==> if exact then AlwaysReadsAs(abi, kind, b.value, b.value) else LeafReads(abi, kind, b.value)
    case OptionalOf(u) => v.Null? || LeavesAre(abi, u, v, exact)
    case ExtensionOf(u) => LeavesAre(abi, u, v, exact)
    case StructOf(fields) =>
      v.Obj? ==> forall k :: 0 <= k < |fields| && Lookup(v.members, fields[k].name).Some? ==>
                   LeavesAre(abi, fields[k].t, v.members[Lookup(v.members, fields[k].name).value].value, exact)
    case ArrayOf(u) => v.Arr? ==> forall k :: 0 <= k < |v.items| ==> LeavesAre(abi, u, v.items[k], exact)
    case VariantOf(fields) =>
      var i := Alternative(fields, v);
      i.Some? ==> LeavesAre(abi, fields[i.value].t, v.items[1], exact)
  }

  /** Every leaf of the value reads back to the same bytes. */
  ghost predicate LeavesOk(abi: Abi, t: TypeId, v: Json)
    requires Resolved(abi) && Known(abi, t)
  {
    LeavesAre(abi, t, v, true)
  }

  /** Every leaf of the value reads back, to as many bytes. */
  ghost predicate LeavesRead(abi: Abi, t: TypeId, v: Json)
    requires Resolved(abi) && Known(abi, t)
  {
    LeavesAre(abi, t, v, false)
  }

  /** The same for the fields from `i` on. */
  ghost predicate FieldLeaves(abi: Abi, fields: seq<Field>, v: Json, i: nat, exact: bool)
    requires Resolved(abi) && FieldsKnown(abi, fields) && v.Obj?
  {
    forall k :: i <= k < |fields| && Lookup(v.members, fields[k].name).Some? ==>
      LeavesAre(abi, fields[k].t, v.members[Lookup(v.members, fields[k].name).value].value, exact)
  }

  ghost predicate ItemLeaves(abi: Abi, u: TypeId, v: Json, i: nat, exact: bool)
    requires Resolved(abi) && Known(abi, u) && v.Arr?
  {
    forall k :: i <= k < |v.items| ==> LeavesAre(abi, u, v.items[k], exact)
  }

  lemma NextFieldLeaves(abi: Abi, fields: seq<Field>, v: Json, i: nat, exact: bool)
    requires Resolved(abi) && FieldsKnown(abi, fields) && v.Obj? && i < |fields|
    ensures var m := Lookup(v.members, fields[i].name);
            FieldLeaves(abi, fields, v, i, exact) <==>
            (m.Some? ==> LeavesAre(abi, fields[i].t, v.members[m.value].value, exact)) && FieldLeaves(abi, fields, v, i + 1, exact)
  {
    hide LeavesAre;
  }

  lemma NextItemLeaves(abi: Abi, u: TypeId, v: Json, i: nat, exact: bool)
    requires Resolved(abi) && Known(abi, u) && v.Arr? && i < |v.items|
    ensures ItemLeaves(abi, u, v, i, exact) <==> LeavesAre(abi, u, v.items[i], exact) && ItemLeaves(abi, u, v, i + 1, exact)
  {
    hide LeavesAre;
  }

  /** Leaves that read back to the same bytes read back to as many. */
  lemma {:induction false} OkIsRead(abi: Abi, t: TypeId, v: Json)
    requires Resolved(abi) && Known(abi, t) && LeavesOk(abi, t, v)
    ensures LeavesRead(abi, t, v)
    decreases v, Rank(abi, t)
  {
    assert DefOk(abi, abi.defs[t]);
    match abi.defs[t]
    case Builtin(_) =>
    case OptionalOf(u) => if !v.Null? { OkIsRead(abi, u, v); }
    case ExtensionOf(u) => OkIsRead(abi, u, v);
    case StructOf(fields) =>
      if v.Obj? {
        forall k | 0 <= k < |fields| && Lookup(v.members, fields[k].name).Some?
          ensures LeavesAre(abi, fields[k].t, v.members[Lookup(v.members, fields[k].name).value].value, false)
        {
          OkIsRead(abi, fields[k].t, v.members[Lookup(v.members, fields[k].name).value].value);
        }
      }
    case ArrayOf(u) =>
      if v.Arr? {
        forall k | 0 <= k < |v.items| ensures LeavesAre(abi, u, v.items[k], false) { OkIsRead(abi, u, v.items[k]); }
      }
    case VariantOf(fields) =>
      var i := Alternative(fields, v);
      if i.Some? { OkIsRead(abi, fields[i.value].t, v.items[1]); }
  }

  /** Where every codec reads back to as many bytes, the leaves of every value do. */
  lemma {:induction false} CodecsRead(abi: Abi, t: TypeId, v: Json)
    requires Resolved(abi) && Known(abi, t)
    requires forall kind, w :: Leaf(abi, kind, w).Some? ==> LeafReads(abi, kind, Leaf(abi, kind, w).value)
    ensures LeavesRead(abi, t, v)
    decreases v, Rank(abi, t)
  {
    hide LeafReads;
    assert DefOk(abi, abi.defs[t]);
    match abi.defs[t]
    case Builtin(_) =>
    case OptionalOf(u) => if !v.Null? { CodecsRead(abi, u, v); }
    case ExtensionOf(u) => CodecsRead(abi, u, v);
    case StructOf(fields) =>
      if v.Obj? {
        forall k | 0 <= k < |fields| && Lookup(v.members, fields[k].name).Some?
          ensures LeavesAre(abi, fields[k].t, v.members[Lookup(v.members, fields[k].name).value].value, false)
        {
          CodecsRead(abi, fields[k].t, v.members[Lookup(v.members, fields[k].name).value].value);
        }
      }
    case ArrayOf(u) =>
      if v.Arr? {
        forall k | 0 <= k < |v.items| ensures LeavesAre(abi, u, v.items[k], false) { CodecsRead(abi, u, v.items[k]); }
      }
    case VariantOf(fields) =>
      var i := Alternative(fields, v);
      if i.Some? { CodecsRead(abi, fields[i.value].t, v.items[1]); }
  }

  // ----- skipping -----

  /** Where extensions may not be left out, none is. */
  lemma {:induction false} NoSkip(abi: Abi, t: TypeId, v: Json, skipped: bool)
    requires Resolved(abi) && Known(abi, t)
    ensures var r := Encode(abi, t, v, false, skipped); r.Some? ==> r.value.skipped == skipped
    decreases v, 1, Rank(abi, t)
  {
    assert DefOk(abi, abi.defs[t]);
    match abi.defs[t]
    case Builtin(_) =>
    case OptionalOf(u) => NoSkip(abi, u, v, skipped);
    case ExtensionOf(u) => NoSkip(abi, u, v, skipped);
    case StructOf(fields) => if v.Obj? { NoSkipFields(abi, fields, v, 0, skipped); }
    case ArrayOf(u) => if v.Arr? { NoSkipItems(abi, u, v, 0, skipped); }
    case VariantOf(fields) =>
      var i := Alternative(fields, v);
      if i.Some? { NoSkip(abi, fields[i.value].t, v.items[1], skipped); }
  }

  lemma {:induction false} NoSkipFields(abi: Abi, fields: seq<Field>, v: Json, i: nat, skipped: bool)
    requires Resolved(abi) && FieldsKnown(abi, fields) && v.Obj? && i <= |fields|
    ensures var r := EncodeFields(abi, fields, v, i, false, skipped); r.Some? ==> r.value.skipped == skipped
    decreases v, 0, |fields| - i
  {
    if i < |fields| {
      var m := Lookup(v.members, fields[i].name);
      if m.Some? {
        NoSkip(abi, fields[i].t, v.members[m.value].value, skipped);
        NoSkipFields(abi, fields, v, i + 1, skipped);
      }
    }
  }

  lemma {:induction false} NoSkipItems(abi: Abi, u: TypeId, v: Json, i: nat, skipped: bool)
    requires Resolved(abi) && Known(abi, u) && v.Arr? && i <= |v.items|
    ensures var r := EncodeItems(abi, u, v, i, skipped); r.Some? ==> r.value.skipped == skipped
    decreases v, 0, |v.items| - i
  {
    if i < |v.items| {
      NoSkip(abi, u, v.items[i], skipped);
      NoSkipItems(abi, u, v, i + 1, skipped);
    }
  }

  /** All fields from `i` on are extensions. */
  ghost predicate RestExtensions(abi: Abi, fields: seq<Field>, i: nat)
    requires FieldsKnown(abi, fields)
  {
    forall k :: i <= k < |fields| ==> IsExtension(abi, fields[k].t)
  }

  /** Once an extension has been left out nothing more is written. */
  lemma {:induction false} NothingAfterSkip(abi: Abi, fields: seq<Field>, v: Json, i: nat, allow: bool)
    requires Resolved(abi) && FieldsKnown(abi, fields) && v.Obj? && i <= |fields|
    requires EncodeFields(abi, fields, v, i, allow, true).Some?
    ensures EncodeFields(abi, fields, v, i, allow, true).value == Out([], true)
    ensures RestExtensions(abi, fields, i) && (i < |fields| ==> allow)
    ensures forall k :: i <= k < |fields| ==> Lookup(v.members, fields[k].name).None?
    decreases |fields| - i
  {
    if i < |fields| {
      assert Lookup(v.members, fields[i].name).None?;
      assert EncodeFields(abi, fields, v, i, allow, true) == EncodeFields(abi, fields, v, i + 1, allow, true);
      NothingAfterSkip(abi, fields, v, i + 1, allow);
    }
  }

  /** At the end of the input all extensions are left out. */
  lemma {:induction false} DecodeNothing(abi: Abi, fields: seq<Field>, i: nat, allow: bool, room: nat)
    requires Resolved(abi) && FieldsKnown(abi, fields) && i <= |fields|
    requires RestExtensions(abi, fields, i) && (i < |fields| ==> allow)
    ensures DecodeFields(abi, fields, i, [], allow, room) == Some(DecodedMembers([], []))
    decreases |fields| - i
  {
    if i < |fields| {
      RestOfRest(abi, fields, i);
      DecodeNothing(abi, fields, i + 1, allow, room);
    }
  }

  lemma RestOfRest(abi: Abi, fields: seq<Field>, i: nat)
    requires FieldsKnown(abi, fields) && i < |fields| && RestExtensions(abi, fields, i)
    ensures IsExtension(abi, fields[i].t) && RestExtensions(abi, fields, i + 1)
  {
  }

  // ----- decoding undoes encoding -----

  /** What the round trip relies on. */
  ghost predicate Usable(abi: Abi) {
    Resolved(abi) && DistinctNames(abi) && ExtensionsLast(abi)
  }

  /** As many bytes, and the same ones exactly if `ok`. */
  ghost predicate Alike(b: Bytes, again: Bytes, ok: bool) {
    |again| == |b| && (again == b <==> ok)
  }

  lemma AlikeJoin(b1: Bytes, c1: Bytes, ok1: bool, b2: Bytes, c2: Bytes, ok2: bool)
    requires Alike(b1, c1, ok1) && Alike(b2, c2, ok2)
    ensures Alike(b1 + b2, c1 + c2, ok1 && ok2)
  {
    assert (b1 + b2)[..|b1|] == b1 && (b1 + b2)[|b1|..] == b2;
    assert (c1 + c2)[..|b1|] == c1 && (c1 + c2)[|b1|..] == c2;
  }

  lemma NothingAlike()
    ensures Alike([], [], true)
  {
  }

  lemma AlikeAfter(p: Bytes, b: Bytes, c: Bytes, ok: bool)
    requires Alike(b, c, ok)
    ensures Alike(p + b, p + c, ok)
  {
    AlikeJoin(p, p, true, b, c, ok);
  }

  /** A value in order whose encoding is like the bytes given. */
  ghost predicate Again(abi: Abi, t: TypeId, w: Json, allow: bool, b: Bytes, ok: bool)
    requires Resolved(abi) && Known(abi, t)
  {
    && Ordered(abi, t, w) && Fits(w)
    && Encode(abi, t, w, allow, false).Some? && Alike(b, Encode(abi, t, w, allow, false).value.bytes, ok)
  }

  ghost predicate MembersAgain(abi: Abi, fields: seq<Field>, i: nat, members: seq<Member>)
    requires Resolved(abi) && FieldsKnown(abi, fields)
  {
    && i + |members| <= |fields|
    && forall k :: 0 <= k < |members| ==>
         members[k].key == fields[i + k].name && Ordered(abi, fields[i + k].t, members[k].value) && Fits(members[k].value)
  }

  lemma LeafAgain(abi: Abi, t: TypeId, v: Json, rest: Bytes) returns (again: Bytes)
    requires Usable(abi) && Known(abi, t) && abi.defs[t].Builtin? && Leaf(abi, abi.defs[t].kind, v).Some? && LeavesRead(abi, t, v)
    ensures var b := Leaf(abi, abi.defs[t].kind, v).value;
            ReadsAs(abi, abi.defs[t].kind, b, again, rest) && Alike(b, again, LeavesOk(abi, t, v))
  {
    var kind := abi.defs[t].kind;
    var b := Leaf(abi, kind, v).value;
    again :| |again| == |b| && AlwaysReadsAs(abi, kind, b, again);
    if LeavesOk(abi, t, v) { assert ReadsAs(abi, kind, b, b, []) && ReadsAs(abi, kind, b, again, []); }
  }

  /** Decoding an encoding takes exactly its bytes, and gives a value in order that
      encodes to as many bytes: to the same exactly when all the leaves do. */
  ghost predicate RoundTrips(abi: Abi, t: TypeId, v: Json, allow: bool, rest: Bytes, room: nat)
    requires Resolved(abi) && Known(abi, t) && Encode(abi, t, v, allow, false).Some?
  {
    var b := Encode(abi, t, v, allow, false).value.bytes;
    var d := Decode(abi, t, b + rest, allow, room);
    && d.Some? && d.value.rest == rest && Again(abi, t, d.value.v, allow, b, LeavesOk(abi, t, v))
    && (Rank(abi, t) == 0 ==> d.value.v != Null)
  }

  lemma {:induction false} RoundTrip(abi: Abi, t: TypeId, v: Json, allow: bool, rest: Bytes, room: nat)
    requires Usable(abi) && Known(abi, t) && Encode(abi, t, v, allow, false).Some? && LeavesRead(abi, t, v)
    requires Depth(v) <= room && (Encode(abi, t, v, allow, false).value.skipped ==> rest == [])
    ensures RoundTrips(abi, t, v, allow, rest, room)
    decreases v, 1, Rank(abi, t), 1
  {
    hide Encode, Depth, RoundTrips;
    match abi.defs[t]
    case Builtin(kind) => LeafRoundTrips(abi, t, v, allow, rest, room);
    case OptionalOf(u) => OptionalRoundTrips(abi, t, v, allow, rest, room);
    case ExtensionOf(u) => ExtensionRoundTrips(abi, t, v, allow, rest, room);
    case StructOf(fields) => StructRoundTrips(abi, t, v, allow, rest, room);
    case ArrayOf(u) => ArrayRoundTrips(abi, t, v, allow, rest, room);
    case VariantOf(fields) => VariantRoundTrips(abi, t, v, allow, rest, room);
  }

  lemma {:induction false} LeafRoundTrips(abi: Abi, t: TypeId, v: Json, allow: bool, rest: Bytes, room: nat)
    requires Usable(abi) && Known(abi, t) && abi.defs[t].Builtin? && Encode(abi, t, v, allow, false).Some? && LeavesRead(abi, t, v)
    requires Depth(v) <= room && (Encode(abi, t, v, allow, false).value.skipped ==> rest == [])
    ensures RoundTrips(abi, t, v, allow, rest, room)
    decreases v, 1, Rank(abi, t), 0
  {
    var again := LeafAgain(abi, t, v, rest);
    hide Usable, LeavesAre;
  }

  lemma {:induction false} OptionalRoundTrips(abi: Abi, t: TypeId, v: Json, allow: bool, rest: Bytes, room: nat)
    requires Usable(abi) && Known(abi, t) && abi.defs[t].OptionalOf? && Encode(abi, t, v, allow, false).Some? && LeavesRead(abi, t, v)
    requires Depth(v) <= room && (Encode(abi, t, v, allow, false).value.skipped ==> rest == [])
    ensures RoundTrips(abi, t, v, allow, rest, room)
    decreases v, 1, Rank(abi, t), 0
  {
    hide LeavesAre, DistinctNames, ExtensionsLast, Resolved, Depth, Encode, Decode, Ordered, Fits;
    OptionalIs(abi, t, v, allow);
    var u := abi.defs[t].t;
    var b := Encode(abi, t, v, allow, false).value.bytes;
    DecodeOptionalIs(abi, t, b + rest, allow, room);
    if v.Null? {
      assert (b + rest)[1..] == rest;
      OptionalIs(abi, t, Null, allow);
      NullIsOrdered(abi, t);
    } else {
      RoundTrip(abi, u, v, allow, rest, room);
      var b1 := Encode(abi, u, v, allow, false).value.bytes;
      assert (b + rest)[1..] == b1 + rest;
      var w := Decode(abi, u, b1 + rest, allow, room).value.v;
      OptionalIs(abi, t, w, allow);
      AlikeAfter([1], b1, Encode(abi, u, w, allow, false).value.bytes, LeavesOk(abi, u, v));
    }
  }

  lemma NullIsOrdered(abi: Abi, t: TypeId)
    requires Resolved(abi) && Known(abi, t) && abi.defs[t].OptionalOf?
    ensures Ordered(abi, t, Null) && Fits(Null)
  {
  }

  lemma OptionalIs(abi: Abi, t: TypeId, v: Json, allow: bool)
    requires Resolved(abi) && Known(abi, t) && abi.defs[t].OptionalOf?
    ensures Known(abi, abi.defs[t].t) && Rank(abi, abi.defs[t].t) == 0
    ensures Encode(abi, t, v, allow, false) ==
            if v.Null? then Some(Out([0], false)) else Prefix([1], Encode(abi, abi.defs[t].t, v, allow, false))
    ensures Ordered(abi, abi.defs[t].t, v) ==> Ordered(abi, t, v)
    ensures LeavesRead(abi, t, v) && !v.Null? ==> LeavesRead(abi, abi.defs[t].t, v)
    ensures LeavesOk(abi, t, v) <==> v.Null? || LeavesOk(abi, abi.defs[t].t, v)
  {
    assert DefOk(abi, abi.defs[t]);
  }

  lemma DecodeOptionalIs(abi: Abi, t: TypeId, bin: Bytes, allow: bool, room: nat)
    requires Resolved(abi) && Known(abi, t) && abi.defs[t].OptionalOf? && bin != []
    ensures Known(abi, abi.defs[t].t)
    ensures Decode(abi, t, bin, allow, room) ==
            if bin[0] != 0 then Decode(abi, abi.defs[t].t, bin[1..], allow, room) else Some(Decoded(Null, bin[1..]))
  {
    assert DefOk(abi, abi.defs[t]);
  }

  lemma {:induction false} ExtensionRoundTrips(abi: Abi, t: TypeId, v: Json, allow: bool, rest: Bytes, room: nat)
    requires Usable(abi) && Known(abi, t) && abi.defs[t].ExtensionOf? && Encode(abi, t, v, allow, false).Some? && LeavesRead(abi, t, v)
    requires Depth(v) <= room && (Encode(abi, t, v, allow, false).value.skipped ==> rest == [])
    ensures RoundTrips(abi, t, v, allow, rest, room)
    decreases v, 1, Rank(abi, t), 0
  {
    assert DefOk(abi, abi.defs[t]);
    assert LeavesOk(abi, t, v) == LeavesOk(abi, abi.defs[t].t, v);
    hide LeavesAre, DistinctNames, ExtensionsLast, Resolved, Depth;
    RoundTrip(abi, abi.defs[t].t, v, allow, rest, room);
  }

  lemma {:induction false} StructRoundTrips(abi: Abi, t: TypeId, v: Json, allow: bool, rest: Bytes, room: nat)
    requires Usable(abi) && Known(abi, t) && abi.defs[t].StructOf? && Encode(abi, t, v, allow, false).Some? && LeavesRead(abi, t, v)
    requires Depth(v) <= room && (Encode(abi, t, v, allow, false).value.skipped ==> rest == [])
    ensures RoundTrips(abi, t, v, allow, rest, room)
    decreases v, 1, Rank(abi, t), 0
  {
    hide Usable, LeavesAre, FieldLeaves, Resolved, Encode, Decode, EncodeFields, DecodeFields, MembersAgain, Depth, NamesDistinct, LastExtensions, Ordered, Fits, RoundTrips, Again, FieldsKnown;
    StructIs(abi, t, v, allow, room);
    var members := StructDecodes(abi, t, v, allow, rest, room);
    hide Alike;
    ObjectAgain(abi, t, members, allow);
    DecodeStructIs(abi, t, Encode(abi, t, v, allow, false).value.bytes + rest, allow, room);
    Concludes(abi, t, v, allow, rest, room, Obj(members));
  }

  lemma {:induction false} StructDecodes(abi: Abi, t: TypeId, v: Json, allow: bool, rest: Bytes, room: nat) returns (members: seq<Member>)
    requires Usable(abi) && Known(abi, t) && abi.defs[t].StructOf? && Encode(abi, t, v, allow, false).Some? && LeavesRead(abi, t, v)
    requires Depth(v) <= room && (Encode(abi, t, v, allow, false).value.skipped ==> rest == []) && FieldsKnown(abi, abi.defs[t].fields) && room > 0
    ensures var b := Encode(abi, t, v, allow, false).value.bytes;
            && DecodeFields(abi, abi.defs[t].fields, 0, b + rest, allow, room - 1) == Some(DecodedMembers(members, rest))
            && MembersAgain(abi, abi.defs[t].fields, 0, members)
            && var r := EncodeFields(abi, abi.defs[t].fields, Obj(members), 0, allow, false);
               r.Some? && Alike(b, r.value.bytes, LeavesOk(abi, t, v))
    decreases v, 0, |abi.defs[t].fields| + 1
  {
    hide Usable, LeavesAre, FieldLeaves, Resolved, Encode, Decode, EncodeFields, DecodeFields, MembersAgain, Depth, NamesDistinct, LastExtensions, Ordered, Fits, RoundTrips, Again, FieldsKnown;
    StructIs(abi, t, v, allow, room);
    var fields := abi.defs[t].fields;
    FieldsAgain(abi, fields, v, 0, allow, rest, room - 1, []);
    var b := Encode(abi, t, v, allow, false).value.bytes;
    members := DecodeFields(abi, fields, 0, b + rest, allow, room - 1).value.members;
    assert [] + members == members;
  }

  lemma Unpacked(abi: Abi, t: TypeId, v: Json, allow: bool, rest: Bytes, room: nat) returns (w: Json)
    requires Resolved(abi) && Known(abi, t) && Encode(abi, t, v, allow, false).Some? && RoundTrips(abi, t, v, allow, rest, room)
    ensures Decode(abi, t, Encode(abi, t, v, allow, false).value.bytes + rest, allow, room) == Some(Decoded(w, rest))
    ensures Ordered(abi, t, w) && Fits(w) && Encode(abi, t, w, allow, false).Some?
    ensures Alike(Encode(abi, t, v, allow, false).value.bytes, Encode(abi, t, w, allow, false).value.bytes, LeavesOk(abi, t, v))
  {
    w := Decode(abi, t, Encode(abi, t, v, allow, false).value.bytes + rest, allow, room).value.v;
  }

  lemma AlikePrefix(p: Bytes, a: Option<Out>, b: Option<Out>, ok: bool)
    requires a.Some? && b.Some? && Alike(a.value.bytes, b.value.bytes, ok)
    ensures Prefix(p, a).Some? && Prefix(p, b).Some? && Prefix(p, a).value.bytes == p + a.value.bytes
    ensures Alike(Prefix(p, a).value.bytes, Prefix(p, b).value.bytes, ok)
  {
    AlikeAfter(p, a.value.bytes, b.value.bytes, ok);
  }

  lemma Concludes(abi: Abi, t: TypeId, v: Json, allow: bool, rest: Bytes, room: nat, w: Json)
    requires Resolved(abi) && Known(abi, t) && Encode(abi, t, v, allow, false).Some? && w != Null
    requires Decode(abi, t, Encode(abi, t, v, allow, false).value.bytes + rest, allow, room) == Some(Decoded(w, rest))
    requires Ordered(abi, t, w) && Fits(w) && Encode(abi, t, w, allow, false).Some?
    requires Alike(Encode(abi, t, v, allow, false).value.bytes, Encode(abi, t, w, allow, false).value.bytes, LeavesOk(abi, t, v))
    ensures RoundTrips(abi, t, v, allow, rest, room)
  {
  }

  lemma StructIs(abi: Abi, t: TypeId, v: Json, allow: bool, room: nat)
    requires Usable(abi) && Known(abi, t) && abi.defs[t].StructOf? && Encode(abi, t, v, allow, false).Some? && LeavesRead(abi, t, v) && Depth(v) <= room
    ensures v.Obj? && room > 0 && Rank(abi, t) == 0 && Resolved(abi)
    ensures var fields := abi.defs[t].fields;
            && FieldsKnown(abi, fields) && NamesDistinct(fields) && LastExtensions(abi, fields) && FieldLeaves(abi, fields, v, 0, false)
            && (LeavesOk(abi, t, v) <==> FieldLeaves(abi, fields, v, 0, true))
            && Encode(abi, t, v, allow, false) == EncodeFields(abi, fields, v, 0, allow, false)
    ensures forall i :: 0 <= i < |v.members| ==> Depth(v.members[i].value) <= room - 1
  {
    assert DefOk(abi, abi.defs[t]);
    forall i | 0 <= i < |v.members| ensures Depth(v.members[i].value) <= room - 1 { MemberDepth(v, i, 0); }
  }

  lemma DecodeStructIs(abi: Abi, t: TypeId, bin: Bytes, allow: bool, room: nat)
    requires Resolved(abi) && Known(abi, t) && abi.defs[t].StructOf? && FieldsKnown(abi, abi.defs[t].fields) && room > 0
    ensures var r := DecodeFields(abi, abi.defs[t].fields, 0, bin, allow, room - 1);
            Decode(abi, t, bin, allow, room) == if r.None? then None else Some(Decoded(Obj(r.value.members), r.value.rest))
  {
  }

  /** Members in order make an object in order. */
  lemma ObjectAgain(abi: Abi, t: TypeId, members: seq<Member>, allow: bool)
    requires Resolved(abi) && Known(abi, t) && abi.defs[t].StructOf? && FieldsKnown(abi, abi.defs[t].fields)
    requires MembersAgain(abi, abi.defs[t].fields, 0, members)
    ensures Ordered(abi, t, Obj(members)) && Fits(Obj(members))
    ensures Encode(abi, t, Obj(members), allow, false) == EncodeFields(abi, abi.defs[t].fields, Obj(members), 0, allow, false)
  {
    var fields := abi.defs[t].fields;
    forall k | 0 <= k < |members|
      ensures members[k].key == fields[k].name && Ordered(abi, fields[k].t, members[k].value)
    {
      assert fields[k] == fields[0 + k];
    }
  }

  lemma {:induction false} ArrayRoundTrips(abi: Abi, t: TypeId, v: Json, allow: bool, rest: Bytes, room: nat)
    requires Usable(abi) && Known(abi, t) && abi.defs[t].ArrayOf? && Encode(abi, t, v, allow, false).Some? && LeavesRead(abi, t, v)
    requires Depth(v) <= room && (Encode(abi, t, v, allow, false).value.skipped ==> rest == [])
    ensures RoundTrips(abi, t, v, allow, rest, room)
    decreases v, 1, Rank(abi, t), 0
  {
    hide Usable, LeavesAre, ItemLeaves, Resolved, Encode, Decode, EncodeItems, DecodeItems, VarUInt, VarUIntFrom, Depth, Ordered, Fits;
    ArrayIs(abi, t, v, allow, room);
    var u := abi.defs[t].t;
    ItemsAgain(abi, u, v, 0, rest, room - 1, []);
    var b := EncodeItems(abi, u, v, 0, false).value.bytes;
    ReadBack(|v.items|, b + rest);
    assert VarUInt(|v.items|) + b + rest == VarUInt(|v.items|) + (b + rest);
    var d := DecodeItems(abi, u, |v.items|, b + rest, room - 1).value;
    assert [] + d.items == d.items;
    DecodeArrayIs(abi, t, VarUInt(|v.items|) + (b + rest), allow, room, |v.items|, b + rest);
    ListAgain(abi, t, d.items, allow);
    AlikePrefix(VarUInt(|v.items|), EncodeItems(abi, u, v, 0, false), EncodeItems(abi, u, Arr(d.items), 0, false), LeavesOk(abi, t, v));
  }

  lemma ArrayIs(abi: Abi, t: TypeId, v: Json, allow: bool, room: nat)
    requires Usable(abi) && Known(abi, t) && abi.defs[t].ArrayOf? && Encode(abi, t, v, allow, false).Some? && LeavesRead(abi, t, v) && Depth(v) <= room
    ensures v.Arr? && |v.items| < UINT32 && room > 0 && Rank(abi, t) == 0 && Resolved(abi) && Known(abi, abi.defs[t].t)
    ensures ItemLeaves(abi, abi.defs[t].t, v, 0, false) && (LeavesOk(abi, t, v) <==> ItemLeaves(abi, abi.defs[t].t, v, 0, true))
    ensures Encode(abi, t, v, allow, false) == Prefix(VarUInt(|v.items|), EncodeItems(abi, abi.defs[t].t, v, 0, false))
    ensures forall i :: 0 <= i < |v.items| ==> Depth(v.items[i]) <= room - 1
  {
    assert DefOk(abi, abi.defs[t]);
    forall i | 0 <= i < |v.items| ensures Depth(v.items[i]) <= room - 1 { ItemDepth(v, i, 0); }
  }

  lemma DecodeArrayIs(abi: Abi, t: TypeId, bin: Bytes, allow: bool, room: nat, n: nat, left: Bytes)
    requires Resolved(abi) && Known(abi, t) && abi.defs[t].ArrayOf? && Known(abi, abi.defs[t].t) && room > 0
    requires VarUIntFrom(bin, 0) == Some(Read(n, left))
    ensures var r := DecodeItems(abi, abi.defs[t].t, n, left, room - 1);
            Decode(abi, t, bin, allow, room) == if r.None? then None else Some(Decoded(Arr(r.value.items), r.value.rest))
  {
  }

  lemma ListAgain(abi: Abi, t: TypeId, items: seq<Json>, allow: bool)
    requires Resolved(abi) && Known(abi, t) && abi.defs[t].ArrayOf? && Known(abi, abi.defs[t].t) && |items| < UINT32
    requires forall k :: 0 <= k < |items| ==> Ordered(abi, abi.defs[t].t, items[k]) && Fits(items[k])
    ensures Ordered(abi, t, Arr(items)) && Fits(Arr(items))
    ensures Encode(abi, t, Arr(items), allow, false) == Prefix(VarUInt(|items|), EncodeItems(abi, abi.defs[t].t, Arr(items), 0, false))
  {
  }

  lemma {:induction false} VariantRoundTrips(abi: Abi, t: TypeId, v: Json, allow: bool, rest: Bytes, room: nat)
    requires Usable(abi) && Known(abi, t) && abi.defs[t].VariantOf? && Encode(abi, t, v, allow, false).Some? && LeavesRead(abi, t, v)
    requires Depth(v) <= room && (Encode(abi, t, v, allow, false).value.skipped ==> rest == [])
    ensures RoundTrips(abi, t, v, allow, rest, room)
    decreases v, 1, Rank(abi, t), 0
  {
    hide Usable, LeavesAre, Resolved, Encode, Decode, VarUInt, VarUIntFrom, Depth, Ordered, Fits, FindField, Alternative, RoundTrips, Again, FieldsKnown, Rank, Prefix, Alike;
    var i := VariantIs(abi, t, v, allow, room);
    var u, x, name := abi.defs[t].fields[i].t, v.items[1], abi.defs[t].fields[i].name;
    RoundTrip(abi, u, x, allow, rest, room - 1);
    var w := Unpacked(abi, u, x, allow, rest, room - 1);
    VariantReads(abi, t, i, Encode(abi, u, x, allow, false).value.bytes, rest, w, allow, room);
    PairAgain(abi, t, i, w, allow);
    AlikePrefix(VarUInt(i), Encode(abi, u, x, allow, false), Encode(abi, u, w, allow, false), LeavesOk(abi, u, x));
    Concludes(abi, t, v, allow, rest, room, Arr([Text(name), w]));
  }

  lemma VariantReads(abi: Abi, t: TypeId, i: nat, b: Bytes, rest: Bytes, w: Json, allow: bool, room: nat)
    requires Resolved(abi) && Known(abi, t) && abi.defs[t].VariantOf? && FieldsKnown(abi, abi.defs[t].fields) && room > 0
    requires i < |abi.defs[t].fields| && i < UINT32
    requires Decode(abi, abi.defs[t].fields[i].t, b + rest, allow, room - 1) == Some(Decoded(w, rest))
    ensures Decode(abi, t, VarUInt(i) + b + rest, allow, room) == Some(Decoded(Arr([Text(abi.defs[t].fields[i].name), w]), rest))
  {
    hide Decode, VarUInt, VarUIntFrom;
    ReadBack(i, b + rest);
    assert VarUInt(i) + b + rest == VarUInt(i) + (b + rest);
    DecodeVariantIs(abi, t, VarUInt(i) + (b + rest), allow, room, i, b + rest);
  }

  lemma VariantIs(abi: Abi, t: TypeId, v: Json, allow: bool, room: nat) returns (i: nat)
    requires Usable(abi) && Known(abi, t) && abi.defs[t].VariantOf? && Encode(abi, t, v, allow, false).Some? && LeavesRead(abi, t, v) && Depth(v) <= room
    ensures v.Arr? && |v.items| == 2 && room > 0 && Rank(abi, t) == 0 && Resolved(abi) && FieldsKnown(abi, abi.defs[t].fields)
    ensures i < |abi.defs[t].fields| && i < UINT32 && FindField(abi.defs[t].fields, abi.defs[t].fields[i].name) == Some(i)
    ensures Encode(abi, t, v, allow, false) == Prefix(VarUInt(i), Encode(abi, abi.defs[t].fields[i].t, v.items[1], allow, false))
    ensures Depth(v.items[1]) <= room - 1 && LeavesRead(abi, abi.defs[t].fields[i].t, v.items[1])
    ensures LeavesOk(abi, t, v) <==> LeavesOk(abi, abi.defs[t].fields[i].t, v.items[1])
    ensures var r := Encode(abi, abi.defs[t].fields[i].t, v.items[1], allow, false); r.Some? && r.value.skipped == Encode(abi, t, v, allow, false).value.skipped
  {
    assert DefOk(abi, abi.defs[t]);
    i := Alternative(abi.defs[t].fields, v).value;
    ItemDepth(v, 1, 0);
  }

  lemma DecodeVariantIs(abi: Abi, t: TypeId, bin: Bytes, allow: bool, room: nat, i: nat, left: Bytes)
    requires Resolved(abi) && Known(abi, t) && abi.defs[t].VariantOf? && FieldsKnown(abi, abi.defs[t].fields) && room > 0
    requires VarUIntFrom(bin, 0) == Some(Read(i, left)) && i < |abi.defs[t].fields|
    ensures var f := abi.defs[t].fields[i];
            var r := Decode(abi, f.t, left, allow, room - 1);
            Decode(abi, t, bin, allow, room) == if r.None? then None else Some(Decoded(Arr([Text(f.name), r.value.v]), r.value.rest))
  {
  }

  /** A variant's value with the name of the alternative that was read. */
  lemma PairAgain(abi: Abi, t: TypeId, i: nat, w: Json, allow: bool)
    requires Resolved(abi) && Known(abi, t) && abi.defs[t].VariantOf? && FieldsKnown(abi, abi.defs[t].fields)
    requires i < |abi.defs[t].fields| && i < UINT32 && FindField(abi.defs[t].fields, abi.defs[t].fields[i].name) == Some(i)
    requires Ordered(abi, abi.defs[t].fields[i].t, w) && Fits(w)
    ensures var v := Arr([Text(abi.defs[t].fields[i].name), w]);
            Ordered(abi, t, v) && Fits(v)
            && Encode(abi, t, v, allow, false) == Prefix(VarUInt(i), Encode(abi, abi.defs[t].fields[i].t, w, allow, false))
  {
    var v := Arr([Text(abi.defs[t].fields[i].name), w]);
    assert Alternative(abi.defs[t].fields, v) == Some(i);
    assert v.items[1] == w;
  }

  lemma {:induction false} ItemsAgain(abi: Abi, u: TypeId, v: Json, i: nat, rest: Bytes, room: nat, pre: seq<Json>)
    requires Usable(abi) && Known(abi, u) && v.Arr? && i <= |v.items| && EncodeItems(abi, u, v, i, false).Some? && ItemLeaves(abi, u, v, i, false)
    requires |pre| == i && (forall k :: i <= k < |v.items| ==> Depth(v.items[k]) <= room)
    ensures var b := EncodeItems(abi, u, v, i, false).value.bytes;
            var d := DecodeItems(abi, u, |v.items| - i, b + rest, room);
            && d.Some? && d.value.rest == rest
            && (forall k :: 0 <= k < |d.value.items| ==> Ordered(abi, u, d.value.items[k]) && Fits(d.value.items[k]))
            && var r := EncodeItems(abi, u, Arr(pre + d.value.items), i, false);
               r.Some? && Alike(b, r.value.bytes, ItemLeaves(abi, u, v, i, true))
    decreases v, 0, |v.items| - i
  {
    hide Encode, Decode, RoundTrips, Again, Ordered, Fits, Depth, LeavesAre, DistinctNames, ExtensionsLast, Resolved, Alike;
    NoSkipItems(abi, u, v, i, false);
    if i < |v.items| {
      NextItemLeaves(abi, u, v, i, false);
      NextItemLeaves(abi, u, v, i, true);
      var b1 := Encode(abi, u, v.items[i], false, false).value.bytes;
      NoSkip(abi, u, v.items[i], false);
      var b2 := EncodeItems(abi, u, v, i + 1, false).value.bytes;
      RoundTrip(abi, u, v.items[i], false, b2 + rest, room);
      assert b1 + b2 + rest == b1 + (b2 + rest);
      var w := Unpacked(abi, u, v.items[i], false, b2 + rest, room);
      ItemsAgain(abi, u, v, i + 1, rest, room, pre + [w]);
      var ws := DecodeItems(abi, u, |v.items| - i - 1, b2 + rest, room).value.items;
      assert pre + [w] + ws == pre + ([w] + ws);
      NoSkip(abi, u, w, false);
      var c1, c2 := Encode(abi, u, w, false, false).value.bytes, EncodeItems(abi, u, Arr(pre + [w] + ws), i + 1, false).value.bytes;
      AlikeJoin(b1, c1, LeavesOk(abi, u, v.items[i]), b2, c2, ItemLeaves(abi, u, v, i + 1, true));
    } else {
      assert pre + [] == pre;
      NothingAlike();
    }
  }

  lemma {:induction false} FieldsAgain(abi: Abi, fields: seq<Field>, v: Json, i: nat, allow: bool, rest: Bytes, room: nat, pre: seq<Member>)
    requires Usable(abi) && FieldsKnown(abi, fields) && NamesDistinct(fields) && LastExtensions(abi, fields)
    requires v.Obj? && i <= |fields| && EncodeFields(abi, fields, v, i, allow, false).Some? && (EncodeFields(abi, fields, v, i, allow, false).value.skipped ==> rest == []) && FieldLeaves(abi, fields, v, i, false)
    requires forall k :: 0 <= k < |v.members| ==> Depth(v.members[k].value) <= room
    requires |pre| == i && forall k :: 0 <= k < i ==> pre[k].key == fields[k].name
    ensures var b := EncodeFields(abi, fields, v, i, allow, false).value.bytes;
            var d := DecodeFields(abi, fields, i, b + rest, allow, room);
            && d.Some? && d.value.rest == rest && MembersAgain(abi, fields, i, d.value.members)
            && var r := EncodeFields(abi, fields, Obj(pre + d.value.members), i, allow, false);
               r.Some? && Alike(b, r.value.bytes, FieldLeaves(abi, fields, v, i, true))
    decreases v, 0, |fields| - i, 1
  {
    var b := EncodeFields(abi, fields, v, i, allow, false).value.bytes;
    assert pre + [] == pre;
    if i < |fields| {
      var m := Lookup(v.members, fields[i].name);
      if m.None? { NothingAfterSkip(abi, fields, v, i + 1, allow); }
      if b + rest == [] && IsExtension(abi, fields[i].t) && allow {
        assert RestExtensions(abi, fields, i);
        DecodeNothing(abi, fields, i, allow, room);
        AllMissing(abi, fields, Obj(pre), i, allow, false);
        NoBytesNoChange(abi, fields, v, i, allow, room);
      } else {
        FieldAgain(abi, fields, v, i, allow, rest, room, pre, m.value);
      }
    }
  }

  lemma {:induction false} FieldAgain(abi: Abi, fields: seq<Field>, v: Json, i: nat, allow: bool, rest: Bytes, room: nat, pre: seq<Member>, m: nat)
    requires Usable(abi) && FieldsKnown(abi, fields) && NamesDistinct(fields) && LastExtensions(abi, fields)
    requires v.Obj? && i < |fields| && EncodeFields(abi, fields, v, i, allow, false).Some? && (EncodeFields(abi, fields, v, i, allow, false).value.skipped ==> rest == []) && FieldLeaves(abi, fields, v, i, false)
    requires forall k :: 0 <= k < |v.members| ==> Depth(v.members[k].value) <= room
    requires |pre| == i && forall k :: 0 <= k < i ==> pre[k].key == fields[k].name
    requires Lookup(v.members, fields[i].name) == Some(m)
    requires !(EncodeFields(abi, fields, v, i, allow, false).value.bytes + rest == [] && IsExtension(abi, fields[i].t) && allow)
    ensures var b := EncodeFields(abi, fields, v, i, allow, false).value.bytes;
            var d := DecodeFields(abi, fields, i, b + rest, allow, room);
            && d.Some? && d.value.rest == rest && MembersAgain(abi, fields, i, d.value.members)
            && var r := EncodeFields(abi, fields, Obj(pre + d.value.members), i, allow, false);
               r.Some? && Alike(b, r.value.bytes, FieldLeaves(abi, fields, v, i, true))
    decreases v, 0, |fields| - i, 0
  {
    hide LeavesAre, FieldLeaves, Alike, Ordered, Fits, DistinctNames, ExtensionsLast, Resolved, RoundTrips, Depth, Encode, Decode, MembersAgain, NamesDistinct, LastExtensions, Again;
    var t, x, last := fields[i].t, v.members[m].value, allow && i + 1 == |fields|;
    var r1 := Encode(abi, t, x, last, false).value;
    var r2 := EncodeFields(abi, fields, v, i + 1, allow, r1.skipped).value;
    var b1, b2 := r1.bytes, r2.bytes;
    assert b1 + b2 + rest == b1 + (b2 + rest);
    if i + 1 < |fields| { NoSkip(abi, t, x, false); }
    assert EncodeFields(abi, fields, v, i + 1, allow, false).Some? && EncodeFields(abi, fields, v, i + 1, allow, false).value.bytes == b2;
    NextFieldLeaves(abi, fields, v, i, false);
    NextFieldLeaves(abi, fields, v, i, true);
    RoundTrip(abi, t, x, last, b2 + rest, room);
    var w := Unpacked(abi, t, x, last, b2 + rest, room);
    FieldsAgain(abi, fields, v, i + 1, allow, rest, room, pre + [Member(fields[i].name, w)]);
    var ms := DecodeFields(abi, fields, i + 1, b2 + rest, allow, room).value.members;
    var c1 := Encode(abi, t, w, last, false).value.bytes;
    var c2 := EncodeFields(abi, fields, Obj(pre + [Member(fields[i].name, w)] + ms), i + 1, allow, false).value.bytes;
    FieldsJoin(abi, fields, pre, w, ms, i, allow, c1, c2);
    AlikeJoin(b1, c1, LeavesOk(abi, t, x), b2, c2, FieldLeaves(abi, fields, v, i + 1, true));
    assert DecodeFields(abi, fields, i, b1 + b2 + rest, allow, room) == Some(DecodedMembers([Member(fields[i].name, w)] + ms, rest));
  }

  /** Fields that take no bytes have no leaf that could change. */
  lemma {:induction false} NoBytesNoChange(abi: Abi, fields: seq<Field>, v: Json, i: nat, allow: bool, room: nat)
    requires Usable(abi) && FieldsKnown(abi, fields) && v.Obj? && i <= |fields|
    requires EncodeFields(abi, fields, v, i, allow, false).Some? && EncodeFields(abi, fields, v, i, allow, false).value.bytes == []
    requires FieldLeaves(abi, fields, v, i, false) && forall k :: 0 <= k < |v.members| ==> Depth(v.members[k].value) <= room
    ensures FieldLeaves(abi, fields, v, i, true)
    decreases v, 0, |fields| - i, 0
  {
    hide LeavesAre, Depth, Encode, Decode, Ordered, Fits, DistinctNames, ExtensionsLast, Resolved;
    if i < |fields| {
      var m := Lookup(v.members, fields[i].name);
      if m.None? {
        NothingAfterSkip(abi, fields, v, i + 1, allow);
      } else {
        var t, x, last := fields[i].t, v.members[m.value].value, allow && i + 1 == |fields|;
        NextFieldLeaves(abi, fields, v, i, false);
        NextFieldLeaves(abi, fields, v, i, true);
        if i + 1 < |fields| { NoSkip(abi, t, x, false); }
        RoundTrip(abi, t, x, last, [], room);
        NoBytesNoChange(abi, fields, v, i + 1, allow, room);
      }
    }
  }

  lemma MembersJoin(abi: Abi, fields: seq<Field>, w: Json, ms: seq<Member>, i: nat)
    requires Resolved(abi) && FieldsKnown(abi, fields) && i < |fields|
    requires Ordered(abi, fields[i].t, w) && Fits(w) && MembersAgain(abi, fields, i + 1, ms)
    ensures MembersAgain(abi, fields, i, [Member(fields[i].name, w)] + ms)
  {
    hide Ordered, Fits;
    var all := [Member(fields[i].name, w)] + ms;
    forall k | 0 <= k < |all|
      ensures all[k].key == fields[i + k].name && Ordered(abi, fields[i + k].t, all[k].value) && Fits(all[k].value)
    {
      if k > 0 {
        assert all[k] == ms[k - 1];
        assert fields[i + k] == fields[i + 1 + (k - 1)];
      }
    }
  }

  lemma KeysJoin(abi: Abi, fields: seq<Field>, pre: seq<Member>, ms: seq<Member>, i: nat)
    requires Resolved(abi) && FieldsKnown(abi, fields) && MembersAgain(abi, fields, i, ms)
    requires |pre| == i && (forall k :: 0 <= k < i ==> pre[k].key == fields[k].name)
    ensures |pre + ms| <= |fields| && forall k :: 0 <= k < |pre + ms| ==> (pre + ms)[k].key == fields[k].name
  {
    hide Ordered, Fits;
    forall k | 0 <= k < |pre + ms| ensures (pre + ms)[k].key == fields[k].name {
      if k >= i {
        assert (pre + ms)[k] == ms[k - i];
        assert fields[k] == fields[i + (k - i)];
      }
    }
  }

  lemma FieldsJoin(abi: Abi, fields: seq<Field>, pre: seq<Member>, w: Json, ms: seq<Member>, i: nat, allow: bool, b1: Bytes, b2: Bytes)
    requires Usable(abi) && FieldsKnown(abi, fields) && NamesDistinct(fields) && i < |fields|
    requires |pre| == i && forall k :: 0 <= k < i ==> pre[k].key == fields[k].name
    requires Ordered(abi, fields[i].t, w) && Fits(w) && MembersAgain(abi, fields, i + 1, ms)
    requires var r := Encode(abi, fields[i].t, w, allow && i + 1 == |fields|, false); r.Some? && r.value.bytes == b1
    requires var r := EncodeFields(abi, fields, Obj(pre + [Member(fields[i].name, w)] + ms), i + 1, allow, false); r.Some? && r.value.bytes == b2
    ensures MembersAgain(abi, fields, i, [Member(fields[i].name, w)] + ms)
    ensures var r := EncodeFields(abi, fields, Obj(pre + ([Member(fields[i].name, w)] + ms)), i, allow, false);
            r.Some? && r.value.bytes == b1 + b2
  {
    hide Encode, EncodeFields, Ordered, Fits, LeavesAre, ExtensionsLast, Resolved, DistinctNames, NamesDistinct, MembersAgain;
    MembersJoin(abi, fields, w, ms, i);
    KeysJoin(abi, fields, pre, [Member(fields[i].name, w)] + ms, i);
    var all := pre + ([Member(fields[i].name, w)] + ms);
    assert all == pre + [Member(fields[i].name, w)] + ms;
    assert all[i] == Member(fields[i].name, w);
    LookupPresent(fields, all, i);
    EncodeNext(abi, fields, Obj(all), i, allow, w);
    if i + 1 < |fields| { NoSkip(abi, fields[i].t, w, false); }
    SkipAtEnd(abi, fields, Obj(all), i + 1, allow, Encode(abi, fields[i].t, w, allow && i + 1 == |fields|, false).value.skipped);
  }

  lemma SkipAtEnd(abi: Abi, fields: seq<Field>, v: Json, i: nat, allow: bool, skipped: bool)
    requires Resolved(abi) && FieldsKnown(abi, fields) && v.Obj? && i <= |fields|
    ensures i == |fields| ==> EncodeFields(abi, fields, v, i, allow, skipped) == Some(Out([], skipped))
    ensures i == |fields| ==> EncodeFields(abi, fields, v, i, allow, false) == Some(Out([], false))
  {
  }

  lemma EncodeNext(abi: Abi, fields: seq<Field>, v: Json, i: nat, allow: bool, w: Json)
    requires Resolved(abi) && FieldsKnown(abi, fields) && v.Obj? && i < |fields| && i < |v.members|
    requires Lookup(v.members, fields[i].name) == Some(i) && v.members[i].value == w
    ensures var r := Encode(abi, fields[i].t, w, allow && i + 1 == |fields|, false);
            r.Some? ==> EncodeFields(abi, fields, v, i, allow, false) == Prefix(r.value.bytes, EncodeFields(abi, fields, v, i + 1, allow, r.value.skipped))
  {
  }
}
