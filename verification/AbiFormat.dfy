/** The bytes of each kind of type, put together from the bytes of its parts. */
module AbiFormat {
  import opened Basics
  import opened Options
  import opened ByteStrings
  import opened AbiSpec
  import opened AbiDecode
  import opened JsonTokens

  function Concat(parts: seq<Bytes>): Bytes {
    if parts == [] then [] else parts[0] + Concat(parts[1..])
  }

  /** A value on its own: nothing is skipped before it, and no extension may be missing in it. */
  function Alone(abi: Abi, t: TypeId, v: Json): Option<Bytes>
    requires Resolved(abi) && Known(abi, t)
  {
    var r := Encode(abi, t, v, false, false);
    if r.None? then None else Some(r.value.bytes)
  }

  // ----- scalars, optionals, variants -----

  /** A builtin takes a scalar; an optional is 0, or 1 and the value; an extension is its value. */
  lemma WrappedFormat(abi: Abi, t: TypeId, v: Json, allow: bool)
    requires Resolved(abi) && Known(abi, t) && DefOk(abi, abi.defs[t])
    ensures abi.defs[t].Builtin? ==>
              Encode(abi, t, v, allow, false) ==
                if v.Obj? || v.Arr? || abi.leaf(abi.defs[t].kind, v).None? then None
                else Some(Out(abi.leaf(abi.defs[t].kind, v).value, false))
    ensures abi.defs[t].OptionalOf? && v.Null? ==> Encode(abi, t, v, allow, false) == Some(Out([0], false))
    ensures abi.defs[t].OptionalOf? && !v.Null? ==>
              var r := Encode(abi, abi.defs[t].t, v, allow, false);
              Encode(abi, t, v, allow, false) == if r.None? then None else Some(Out([1] + r.value.bytes, r.value.skipped))
    ensures abi.defs[t].ExtensionOf? ==> Encode(abi, t, v, allow, false) == Encode(abi, abi.defs[t].t, v, allow, false)
  {
  }

  /** A variant's value is a pair of a name and a value: the number of the first alternative of that
      name, then the value. */
  lemma VariantFormat(abi: Abi, t: TypeId, name: string, x: Json, allow: bool, i: nat)
    requires Resolved(abi) && Known(abi, t) && abi.defs[t].VariantOf? && FieldsKnown(abi, abi.defs[t].fields)
    requires i < |abi.defs[t].fields| && i < UINT32 && abi.defs[t].fields[i].name == name
    requires forall k :: 0 <= k < i ==> abi.defs[t].fields[k].name != name
    ensures var r := Encode(abi, abi.defs[t].fields[i].t, x, allow, false);
            Encode(abi, t, Arr([Text(name), x]), allow, false) ==
              if r.None? then None else Some(Out(VarUInt(i) + r.value.bytes, r.value.skipped))
  {
    var v := Arr([Text(name), x]);
    assert Alternative(abi.defs[t].fields, v) == Some(i);
    assert v.items[1] == x;
  }

  /** Anything else is no value of a variant. */
  lemma NoVariant(abi: Abi, t: TypeId, v: Json, allow: bool)
    requires Resolved(abi) && Known(abi, t) && abi.defs[t].VariantOf?
    requires !(v.Arr? && |v.items| == 2 && v.items[0].Text?)
             || forall k :: 0 <= k < |abi.defs[t].fields| ==> abi.defs[t].fields[k].name != v.items[0].s
    ensures Encode(abi, t, v, allow, false).None?
  {
  }

  // ----- arrays -----

  /** The bytes of the items from `i` on. */
  function ItemBytes(abi: Abi, u: TypeId, v: Json, i: nat): seq<Bytes>
    requires Resolved(abi) && Known(abi, u) && v.Arr? && i <= |v.items|
    requires forall k :: i <= k < |v.items| ==> Alone(abi, u, v.items[k]).Some?
    decreases |v.items| - i
  {
    if i == |v.items| then [] else [Alone(abi, u, v.items[i]).value] + ItemBytes(abi, u, v, i + 1)
  }

  ghost predicate AllEncode(abi: Abi, u: TypeId, v: Json, i: nat)
    requires Resolved(abi) && Known(abi, u) && v.Arr? && i <= |v.items|
  {
    forall k :: i <= k < |v.items| ==> Alone(abi, u, v.items[k]).Some?
  }

  lemma {:induction false} ItemsFormat(abi: Abi, u: TypeId, v: Json, i: nat)
    requires Resolved(abi) && Known(abi, u) && v.Arr? && i <= |v.items|
    ensures EncodeItems(abi, u, v, i, false).Some? <==> AllEncode(abi, u, v, i)
    ensures AllEncode(abi, u, v, i) ==> EncodeItems(abi, u, v, i, false) == Some(Out(Concat(ItemBytes(abi, u, v, i)), false))
    decreases |v.items| - i
  {
    hide Encode;
    if i < |v.items| {
      NoSkip(abi, u, v.items[i], false);
      ItemsFormat(abi, u, v, i + 1);
      if AllEncode(abi, u, v, i) {
        var parts := ItemBytes(abi, u, v, i);
        assert parts[1..] == ItemBytes(abi, u, v, i + 1);
      }
    }
  }

  /** An array is the number of its items, and the items one after another. */
  lemma ArrayFormat(abi: Abi, t: TypeId, v: Json, allow: bool)
    requires Resolved(abi) && Known(abi, t) && abi.defs[t].ArrayOf? && Known(abi, abi.defs[t].t)
    ensures Encode(abi, t, v, allow, false).Some? <==> v.Arr? && |v.items| < UINT32 && AllEncode(abi, abi.defs[t].t, v, 0)
    ensures Encode(abi, t, v, allow, false).Some? ==>
              Encode(abi, t, v, allow, false) == Some(Out(VarUInt(|v.items|) + Concat(ItemBytes(abi, abi.defs[t].t, v, 0)), false))
  {
    if v.Arr? { ItemsFormat(abi, abi.defs[t].t, v, 0); }
    hide Concat, ItemBytes, VarUInt, EncodeItems, AllEncode;
  }

  // ----- structs -----

  /** Field `k` has a value, the last one under its name, and it can be encoded. */
  ghost predicate FieldEncodes(abi: Abi, fields: seq<Field>, v: Json, k: nat, allow: bool)
    requires Resolved(abi) && FieldsKnown(abi, fields) && v.Obj? && k < |fields|
  {
    var m := Lookup(v.members, fields[k].name);
    m.Some? && Encode(abi, fields[k].t, v.members[m.value].value, allow && k + 1 == |fields|, false).Some?
  }

  /** Field `k` is an extension without a value. */
  ghost predicate FieldMissing(abi: Abi, fields: seq<Field>, v: Json, k: nat)
    requires FieldsKnown(abi, fields) && v.Obj? && k < |fields|
  {
    IsExtension(abi, fields[k].t) && Lookup(v.members, fields[k].name).None?
  }

  /** The fields from `i` to `p` have values; those from `p` on are missing extensions, which
      is allowed. */
  ghost predicate Complete(abi: Abi, fields: seq<Field>, v: Json, i: nat, p: nat, allow: bool)
    requires Resolved(abi) && FieldsKnown(abi, fields) && v.Obj?
  {
    && i <= p <= |fields| && (p < |fields| ==> allow)
    && (forall k :: i <= k < p ==> FieldEncodes(abi, fields, v, k, allow))
    && (forall k :: p <= k < |fields| ==> FieldMissing(abi, fields, v, k))
  }

  function FieldBytes(abi: Abi, fields: seq<Field>, v: Json, i: nat, p: nat, allow: bool): seq<Bytes>
    requires Resolved(abi) && FieldsKnown(abi, fields) && v.Obj? && Complete(abi, fields, v, i, p, allow)
    decreases p - i
  {
    if i == p then []
    else
      assert FieldEncodes(abi, fields, v, i, allow);
      var m := Lookup(v.members, fields[i].name).value;
      [Encode(abi, fields[i].t, v.members[m].value, allow && i + 1 == |fields|, false).value.bytes] + FieldBytes(abi, fields, v, i + 1, p, allow)
  }

  lemma {:induction false} MissingFormat(abi: Abi, fields: seq<Field>, v: Json, i: nat, allow: bool, skipped: bool)
    requires Resolved(abi) && FieldsKnown(abi, fields) && v.Obj? && i <= |fields| && (i < |fields| ==> allow)
    requires forall k :: i <= k < |fields| ==> FieldMissing(abi, fields, v, k)
    ensures EncodeFields(abi, fields, v, i, allow, skipped) == Some(Out([], skipped || i < |fields|))
    decreases |fields| - i
  {
    if i < |fields| {
      assert FieldMissing(abi, fields, v, i);
      MissingFormat(abi, fields, v, i + 1, allow, true);
    }
  }

  lemma {:induction false} FieldsFormat(abi: Abi, fields: seq<Field>, v: Json, i: nat, p: nat, allow: bool)
    requires Resolved(abi) && FieldsKnown(abi, fields) && v.Obj? && Complete(abi, fields, v, i, p, allow)
    ensures EncodeFields(abi, fields, v, i, allow, false).Some?
    ensures EncodeFields(abi, fields, v, i, allow, false).value.bytes == Concat(FieldBytes(abi, fields, v, i, p, allow))
    decreases p - i
  {
    hide Encode;
    if i == p {
      MissingFormat(abi, fields, v, i, allow, false);
    } else {
      assert FieldEncodes(abi, fields, v, i, allow);
      var m := Lookup(v.members, fields[i].name).value;
      if i + 1 < |fields| { NoSkip(abi, fields[i].t, v.members[m].value, false); }
      FieldsFormat(abi, fields, v, i + 1, p, allow);
      var parts := FieldBytes(abi, fields, v, i, p, allow);
      assert parts[1..] == FieldBytes(abi, fields, v, i + 1, p, allow);
      SkipAtEnd(abi, fields, v, i + 1, allow, Encode(abi, fields[i].t, v.members[m].value, allow && i + 1 == |fields|, false).value.skipped);
    }
  }

  lemma {:induction false} OnlyComplete(abi: Abi, fields: seq<Field>, v: Json, i: nat, allow: bool) returns (p: nat)
    requires Resolved(abi) && FieldsKnown(abi, fields) && v.Obj? && i <= |fields| && EncodeFields(abi, fields, v, i, allow, false).Some?
    ensures Complete(abi, fields, v, i, p, allow)
    decreases |fields| - i
  {
    hide Encode;
    if i == |fields| {
      p := i;
    } else if Lookup(v.members, fields[i].name).None? {
      p := i;
      NothingAfterSkip(abi, fields, v, i + 1, allow);
      forall k | i <= k < |fields| ensures FieldMissing(abi, fields, v, k) { }
    } else {
      var m := Lookup(v.members, fields[i].name).value;
      if i + 1 < |fields| {
        NoSkip(abi, fields[i].t, v.members[m].value, false);
        p := OnlyComplete(abi, fields, v, i + 1, allow);
      } else {
        p := |fields|;
      }
      assert FieldEncodes(abi, fields, v, i, allow);
    }
  }

  /** A struct is its fields one after another, each looked up by name; extensions may be missing
      at the end where that is allowed, and then nothing stands for them. */
  lemma StructFormat(abi: Abi, t: TypeId, v: Json, allow: bool)
    requires Resolved(abi) && Known(abi, t) && abi.defs[t].StructOf? && FieldsKnown(abi, abi.defs[t].fields)
    ensures Encode(abi, t, v, allow, false).Some? <==> v.Obj? && exists p: nat :: Complete(abi, abi.defs[t].fields, v, 0, p, allow)
    ensures v.Obj? ==>
              forall p: nat :: Complete(abi, abi.defs[t].fields, v, 0, p, allow) ==>
                Encode(abi, t, v, allow, false).value.bytes == Concat(FieldBytes(abi, abi.defs[t].fields, v, 0, p, allow))
  {
    hide Concat, FieldBytes, EncodeFields, Complete;
    if v.Obj? {
      var fields := abi.defs[t].fields;
      forall p: nat | Complete(abi, fields, v, 0, p, allow)
        ensures EncodeFields(abi, fields, v, 0, allow, false).Some?
        ensures EncodeFields(abi, fields, v, 0, allow, false).value.bytes == Concat(FieldBytes(abi, fields, v, 0, p, allow))
      {
        FieldsFormat(abi, fields, v, 0, p, allow);
      }
      if EncodeFields(abi, fields, v, 0, allow, false).Some? { var p := OnlyComplete(abi, fields, v, 0, allow); }
    }
  }

  // ----- decoding -----

  /** Any first byte but zero stands for a value of an optional. */
  lemma OptionalDecodes(abi: Abi, t: TypeId, b: byte, rest: Bytes, allow: bool, room: nat)
    requires Resolved(abi) && Known(abi, t) && abi.defs[t].OptionalOf?
    ensures Known(abi, abi.defs[t].t)
    ensures Decode(abi, t, [b] + rest, allow, room) ==
              if b == 0 then Some(Decoded(Null, rest)) else Decode(abi, abi.defs[t].t, rest, allow, room)
    ensures Decode(abi, t, [], allow, room) == None
  {
    assert DefOk(abi, abi.defs[t]);
    assert ([b] + rest)[1..] == rest;
  }

  /** Each object, array and variant takes one place on the stack, and is refused when there is none. */
  lemma NoRoom(abi: Abi, t: TypeId, bin: Bytes, allow: bool)
    requires Resolved(abi) && Known(abi, t)
    ensures abi.defs[t].StructOf? || abi.defs[t].ArrayOf? || abi.defs[t].VariantOf? ==> Decode(abi, t, bin, allow, 0) == None
  {
  }

  /** The number of an alternative stands for its name; a number past the last is refused. */
  lemma VariantDecodes(abi: Abi, t: TypeId, i: nat, rest: Bytes, allow: bool, room: nat)
    requires Resolved(abi) && Known(abi, t) && abi.defs[t].VariantOf? && FieldsKnown(abi, abi.defs[t].fields) && i < UINT32 && room > 0
    ensures i >= |abi.defs[t].fields| ==> Decode(abi, t, VarUInt(i) + rest, allow, room) == None
    ensures i < |abi.defs[t].fields| ==>
              var f := abi.defs[t].fields[i];
              var r := Decode(abi, f.t, rest, allow, room - 1);
              Decode(abi, t, VarUInt(i) + rest, allow, room) ==
                if r.None? then None else Some(Decoded(Arr([Text(f.name), r.value.v]), r.value.rest))
  {
    ReadBack(i, rest);
  }

  /** A number of items: the first one, then that of one item less. */
  lemma ArrayDecodes(abi: Abi, t: TypeId, n: nat, rest: Bytes, allow: bool, room: nat)
    requires Resolved(abi) && Known(abi, t) && abi.defs[t].ArrayOf? && Known(abi, abi.defs[t].t) && n + 1 < UINT32 && room > 0
    ensures Decode(abi, t, VarUInt(0) + rest, allow, room) == Some(Decoded(Arr([]), rest))
    ensures var r := Decode(abi, abi.defs[t].t, rest, false, room - 1);
            Decode(abi, t, VarUInt(n + 1) + rest, allow, room) ==
              if r.None? then None
              else
                var more := Decode(abi, t, VarUInt(n) + r.value.rest, allow, room);
                if more.None? || !more.value.v.Arr? then None else Some(Decoded(Arr([r.value.v] + more.value.v.items), more.value.rest))
  {
    hide VarUInt;
    ReadBack(0, rest);
    ReadBack(n + 1, rest);
    var r := Decode(abi, abi.defs[t].t, rest, false, room - 1);
    if r.Some? { ReadBack(n, r.value.rest); }
  }

  lemma {:induction false} FieldsFrom(abi: Abi, fields: seq<Field>, i: nat, bin: Bytes, allow: bool, room: nat)
    requires Resolved(abi) && FieldsKnown(abi, fields) && 0 < i <= |fields|
    ensures DecodeFields(abi, fields, i, bin, allow, room) == DecodeFields(abi, fields[1..], i - 1, bin, allow, room)
    decreases |fields| - i
  {
    hide Decode;
    if i < |fields| {
      assert fields[i] == fields[1..][i - 1];
      FieldsFrom(abi, fields, i + 1, bin, allow, room);
      var r := Decode(abi, fields[i].t, bin, allow && i + 1 == |fields|, room);
      if r.Some? { FieldsFrom(abi, fields, i + 1, r.value.rest, allow, room); }
    }
  }

  /** A struct: its first field under its name, then the struct `more` of the other fields.  At the
      end of the data an extension is left out where that is allowed. */
  lemma StructDecodes(abi: Abi, t: TypeId, more: TypeId, bin: Bytes, allow: bool, room: nat)
    requires Resolved(abi) && Known(abi, t) && Known(abi, more) && abi.defs[t].StructOf? && abi.defs[more].StructOf? && room > 0
    ensures abi.defs[t].fields == [] ==> Decode(abi, t, bin, allow, room) == Some(Decoded(Obj([]), bin))
    ensures abi.defs[t].fields != [] && abi.defs[more].fields == abi.defs[t].fields[1..] && Known(abi, abi.defs[t].fields[0].t) ==>
              var f := abi.defs[t].fields[0];
              if bin == [] && abi.defs[f.t].ExtensionOf? && allow then Decode(abi, t, bin, allow, room) == Decode(abi, more, bin, allow, room)
              else
                var r := Decode(abi, f.t, bin, allow && abi.defs[more].fields == [], room - 1);
                if r.None? then Decode(abi, t, bin, allow, room) == None
                else StructGoesOn(Decode(abi, t, bin, allow, room), Member(f.name, r.value.v), Decode(abi, more, r.value.rest, allow, room))
  {
    assert DefOk(abi, abi.defs[t]);
    var fields := abi.defs[t].fields;
    if fields != [] && abi.defs[more].fields == fields[1..] {
      hide Decode;
      StructIs(abi, t, bin, allow, room);
      FieldsFrom(abi, fields, 1, bin, allow, room - 1);
      StructIs(abi, more, bin, allow, room);
      var r := Decode(abi, fields[0].t, bin, allow && |fields| == 1, room - 1);
      if r.Some? {
        FieldsFrom(abi, fields, 1, r.value.rest, allow, room - 1);
        StructIs(abi, more, r.value.rest, allow, room);
      }
    }
  }

  ghost predicate StructGoesOn(all: Option<Decoded>, first: Member, more: Option<Decoded>) {
    if more.None? then all == None
    else more.value.v.Obj? && all == Some(Decoded(Obj([first] + more.value.v.members), more.value.rest))
  }

  lemma StructIs(abi: Abi, t: TypeId, bin: Bytes, allow: bool, room: nat)
    requires Resolved(abi) && Known(abi, t) && abi.defs[t].StructOf? && room > 0
    ensures FieldsKnown(abi, abi.defs[t].fields)
    ensures var r := DecodeFields(abi, abi.defs[t].fields, 0, bin, allow, room - 1);
            Decode(abi, t, bin, allow, room) == if r.None? then None else Some(Decoded(Obj(r.value.members), r.value.rest))
  {
    assert DefOk(abi, abi.defs[t]);
  }

  // ----- tokens -----

  /** The token encoder takes the members of a struct only in the order of its fields, all of them but for an
      extension after the last, where that is allowed. */
  lemma {:induction false} MembersInOrder(abi: Abi, fields: seq<Field>, v: Json, i: nat, allow: bool)
    requires Resolved(abi) && FieldsKnown(abi, fields) && v.Obj? && i <= |v.members| && i <= |fields|
    requires PartsOfMembers(abi, fields, v, i, allow, false).Some?
    ensures |v.members| <= |fields| && forall k :: i <= k < |v.members| ==> v.members[k].key == fields[k].name
    ensures |v.members| < |fields| ==> allow && abi.defs[fields[|v.members|].t].ExtensionOf?
    decreases |v.members| - i
  {
    hide EncodeParts;
    if i < |v.members| {
      var r := EncodeParts(abi, fields[i].t, v.members[i].value, allow && i + 1 == |fields|, false);
      if r.value.skipped { SkippedEnds(abi, fields, v, i + 1, allow); } else { MembersInOrder(abi, fields, v, i + 1, allow); }
    }
  }

  lemma SkippedEnds(abi: Abi, fields: seq<Field>, v: Json, i: nat, allow: bool)
    requires Resolved(abi) && FieldsKnown(abi, fields) && v.Obj? && i <= |v.members| && i <= |fields|
    requires PartsOfMembers(abi, fields, v, i, allow, true).Some?
    ensures i == |v.members| && (i < |fields| ==> allow && abi.defs[fields[i].t].ExtensionOf?)
  {
  }

  /** The tokens of a value, by example. */
  lemma TokenExample()
    ensures Tokens(Obj([Member("a", Arr([Text("x"), Null])), Member("b", Flag(true))])) ==
              [StartObject, KeyToken("a"), StartArray, StringToken("x"), NullToken, EndArray, KeyToken("b"), BoolToken(true), EndObject]
  {
    var a := Arr([Text("x"), Null]);
    assert ItemTokens(a, 2) == [EndArray];
    assert ItemTokens(a, 1) == [NullToken, EndArray];
    assert Tokens(a) == [StartArray, StringToken("x"), NullToken, EndArray];
    var v := Obj([Member("a", a), Member("b", Flag(true))]);
    assert MemberTokens(v, 2) == [EndObject];
    assert MemberTokens(v, 1) == [KeyToken("b"), BoolToken(true), EndObject];
    assert MemberTokens(v, 0) == [KeyToken("a")] + Tokens(a) + MemberTokens(v, 1);
  }
}
