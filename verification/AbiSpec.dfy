/** The ABI codec as structural recursions over values: what the stack machines compute. */
module AbiSpec {
  import opened Basics
  import opened Options
  import opened ByteStrings

  /** A JSON value; members are in the order of the text, and numbers are strings. */
  datatype Json =
    | Null
    | Flag(b: bool)
    | Text(s: string)
    | Obj(members: seq<Member>)
    | Arr(items: seq<Json>)

  datatype Member = Member(key: string, value: Json)

  /** How deep the stack of a machine over text or bytes may get. */
  const MAX_STACK_SIZE: nat := 128

  // ----- resolved types -----

  type TypeId = nat
  datatype Field = Field(name: string, t: TypeId)

  datatype Def =
    | Builtin(kind: nat)
    | OptionalOf(t: TypeId)
    | ExtensionOf(t: TypeId)
    | ArrayOf(t: TypeId)
    | StructOf(fields: seq<Field>)
    | VariantOf(fields: seq<Field>)

  /** The type graph, and the codecs of the builtin types, which take one scalar. */
  datatype Abi = Abi(defs: seq<Def>, leaf: (nat, Json) -> Option<Bytes>, unleaf: (nat, Bytes) -> Option<(Json, Bytes)>)

  predicate Known(abi: Abi, t: TypeId) { t < |abi.defs| }

  predicate FieldsKnown(abi: Abi, fields: seq<Field>) {
    forall i :: 0 <= i < |fields| ==> Known(abi, fields[i].t)
  }

  /** What resolving the types guarantees: no optional or array of an optional, array or
      extension, and no extension of an extension. */
  predicate DefOk(abi: Abi, d: Def) {
    match d
    case Builtin(_) => true
    case OptionalOf(u) => Known(abi, u) && !abi.defs[u].OptionalOf? && !abi.defs[u].ArrayOf? && !abi.defs[u].ExtensionOf?
    case ExtensionOf(u) => Known(abi, u) && !abi.defs[u].ExtensionOf?
    case ArrayOf(u) => Known(abi, u) && !abi.defs[u].OptionalOf? && !abi.defs[u].ArrayOf? && !abi.defs[u].ExtensionOf?
    case StructOf(fields) => FieldsKnown(abi, fields)
    case VariantOf(fields) => FieldsKnown(abi, fields)
  }

  predicate Resolved(abi: Abi) {
    forall t :: 0 <= t < |abi.defs| ==> DefOk(abi, abi.defs[t])
  }

  /** How far a type is from the part of it that takes the value. */
  function Rank(abi: Abi, t: TypeId): nat
    requires Known(abi, t)
  {
    match abi.defs[t]
    case ExtensionOf(_) => 2
    case OptionalOf(_) => 1
    case _ => 0
  }

  function Leaf(abi: Abi, kind: nat, v: Json): Option<Bytes> {
    if v.Obj? || v.Arr? then None else abi.leaf(kind, v)
  }

  function Unleaf(abi: Abi, kind: nat, b: Bytes): Option<(Json, Bytes)> {
    var r := abi.unleaf(kind, b);
    if r.Some? && (r.value.0.Obj? || r.value.0.Arr?) then None else r
  }

  /** How deeply objects and arrays are nested. */
  function Depth(v: Json): nat
    decreases v, 1, 0
  {
    match v
    case Obj(_) => 1 + MembersDepth(v, 0)
    case Arr(_) => 1 + ItemsDepth(v, 0)
    case _ => 0
  }

  function MembersDepth(v: Json, i: nat): nat
    requires v.Obj? && i <= |v.members|
    decreases v, 0, |v.members| - i
  {
    if i == |v.members| then 0
    else
      var a, b := Depth(v.members[i].value), MembersDepth(v, i + 1);
      if a > b then a else b
  }

  function ItemsDepth(v: Json, i: nat): nat
    requires v.Arr? && i <= |v.items|
    decreases v, 0, |v.items| - i
  {
    if i == |v.items| then 0
    else
      var a, b := Depth(v.items[i]), ItemsDepth(v, i + 1);
      if a > b then a else b
  }

  lemma {:induction false} MemberDepth(v: Json, i: nat, k: nat)
    requires v.Obj? && k <= i < |v.members|
    ensures Depth(v.members[i].value) <= MembersDepth(v, k)
    decreases i - k
  {
    if k < i { MemberDepth(v, i, k + 1); }
  }

  lemma {:induction false} ItemDepth(v: Json, i: nat, k: nat)
    requires v.Arr? && k <= i < |v.items|
    ensures Depth(v.items[i]) <= ItemsDepth(v, k)
    decreases i - k
  {
    if k < i { ItemDepth(v, i, k + 1); }
  }

  /** The member an object has under a key: of several, the last. */
  function Lookup(members: seq<Member>, key: string): (r: Option<nat>)
    ensures r.Some? ==> r.value < |members| && members[r.value].key == key
    ensures r.Some? ==> forall i :: r.value < i < |members| ==> members[i].key != key
    ensures r.None? ==> forall i :: 0 <= i < |members| ==> members[i].key != key
  {
    if members == [] then None
    else if members[|members| - 1].key == key then Some(|members| - 1)
    else Lookup(members[..|members| - 1], key)
  }

  function FindField(fields: seq<Field>, name: string): (r: Option<nat>)
    ensures r.Some? ==> r.value < |fields| && fields[r.value].name == name
    ensures r.Some? ==> forall i :: 0 <= i < r.value ==> fields[i].name != name
    ensures r.None? ==> forall i :: 0 <= i < |fields| ==> fields[i].name != name
  {
    if fields == [] then None
    else if fields[0].name == name then Some(0)
    else
      var r := FindField(fields[1..], name);
      if r.None? then None else Some(r.value + 1)
  }

  /** The alternative a variant's value names, if the value is a pair that names one. */
  function Alternative(fields: seq<Field>, v: Json): (r: Option<nat>)
    ensures r.Some? ==> r.value < |fields| && v.Arr? && |v.items| == 2
  {
    if v.Arr? && |v.items| == 2 && v.items[0].Text? then
      var i := FindField(fields, v.items[0].s);
      if i.Some? && i.value < UINT32 then i else None
    else None
  }

  predicate IsExtension(abi: Abi, t: TypeId)
    requires Known(abi, t)
  {
    abi.defs[t].ExtensionOf?
  }

  // ----- encoding a value tree -----

  /** Bytes, and whether an extension has been skipped. */
  datatype Out = Out(bytes: Bytes, skipped: bool)

  function Prefix(b: Bytes, r: Option<Out>): Option<Out> {
    if r.None? then None else Some(Out(b + r.value.bytes, r.value.skipped))
  }

  function Encode(abi: Abi, t: TypeId, v: Json, allow: bool, skipped: bool): Option<Out>
    requires Resolved(abi) && Known(abi, t)
    decreases v, 1, Rank(abi, t)
  {
    match abi.defs[t]
    case Builtin(kind) =>
      var b := Leaf(abi, kind, v);
      if b.None? then None else Some(Out(b.value, skipped))
    case OptionalOf(u) =>
      assert DefOk(abi, abi.defs[t]);
      if v.Null? then Some(Out([0], skipped)) else Prefix([1], Encode(abi, u, v, allow, skipped))
    case ExtensionOf(u) =>
      assert DefOk(abi, abi.defs[t]);
      Encode(abi, u, v, allow, skipped)
    case StructOf(fields) =>
      assert DefOk(abi, abi.defs[t]);
      if v.Obj? then EncodeFields(abi, fields, v, 0, allow, skipped) else None
    case ArrayOf(u) =>
      assert DefOk(abi, abi.defs[t]);
      if v.Arr? && |v.items| < UINT32 then Prefix(VarUInt(|v.items|), EncodeItems(abi, u, v, 0, skipped)) else None
    case VariantOf(fields) =>
      assert DefOk(abi, abi.defs[t]);
      var i := Alternative(fields, v);
      if i.None? then None else Prefix(VarUInt(i.value), Encode(abi, fields[i.value].t, v.items[1], allow, skipped))
  }

  /** The fields from `i` on, each looked up by name. */
  function EncodeFields(abi: Abi, fields: seq<Field>, v: Json, i: nat, allow: bool, skipped: bool): Option<Out>
    requires Resolved(abi) && FieldsKnown(abi, fields) && v.Obj? && i <= |fields|
    decreases v, 0, |fields| - i
  {
    if i == |fields| then Some(Out([], skipped))
    else
      var m := Lookup(v.members, fields[i].name);
      if m.None? then
        if IsExtension(abi, fields[i].t) && allow then EncodeFields(abi, fields, v, i + 1, allow, true) else None
      else if skipped then None
      else
        var r := Encode(abi, fields[i].t, v.members[m.value].value, allow && i + 1 == |fields|, skipped);
        if r.None? then None else Prefix(r.value.bytes, EncodeFields(abi, fields, v, i + 1, allow, r.value.skipped))
  }

  function EncodeItems(abi: Abi, u: TypeId, v: Json, i: nat, skipped: bool): Option<Out>
    requires Resolved(abi) && Known(abi, u) && v.Arr? && i <= |v.items|
    decreases v, 0, |v.items| - i
  {
    if i == |v.items| then Some(Out([], skipped))
    else
      var r := Encode(abi, u, v.items[i], false, skipped);
      if r.None? then None else Prefix(r.value.bytes, EncodeItems(abi, u, v, i + 1, r.value.skipped))
  }

  // ----- encoding in the order of the text, with the array sizes kept apart -----

  /** `size` goes in before the byte at `position`. */
  datatype Insertion = Insertion(position: nat, size: nat)

  datatype Parts = Parts(raw: Bytes, sizes: seq<Insertion>, skipped: bool)

  function Shift(sizes: seq<Insertion>, off: nat): (r: seq<Insertion>)
    ensures |r| == |sizes| && forall i :: 0 <= i < |sizes| ==> r[i] == Insertion(sizes[i].position + off, sizes[i].size)
  {
    seq(|sizes|, i requires 0 <= i < |sizes| => Insertion(sizes[i].position + off, sizes[i].size))
  }

  /** One part after another. */
  function Join(raw: Bytes, sizes: seq<Insertion>, r: Option<Parts>): Option<Parts> {
    if r.None? then None else Some(Parts(raw + r.value.raw, sizes + Shift(r.value.sizes, |raw|), r.value.skipped))
  }

  function EncodeParts(abi: Abi, t: TypeId, v: Json, allow: bool, skipped: bool): Option<Parts>
    requires Resolved(abi) && Known(abi, t)
    decreases v, 1, Rank(abi, t)
  {
    match abi.defs[t]
    case Builtin(kind) =>
      var b := Leaf(abi, kind, v);
      if b.None? then None else Some(Parts(b.value, [], skipped))
    case OptionalOf(u) =>
      assert DefOk(abi, abi.defs[t]);
      if v.Null? then Some(Parts([0], [], skipped)) else Join([1], [], EncodeParts(abi, u, v, allow, skipped))
    case ExtensionOf(u) =>
      assert DefOk(abi, abi.defs[t]);
      EncodeParts(abi, u, v, allow, skipped)
    case StructOf(fields) =>
      assert DefOk(abi, abi.defs[t]);
      if v.Obj? then PartsOfMembers(abi, fields, v, 0, allow, skipped) else None
    case ArrayOf(u) =>
      assert DefOk(abi, abi.defs[t]);
      if v.Arr? then Join([], [Insertion(0, |v.items| % UINT32)], PartsOfItems(abi, u, v, 0, skipped)) else None
    case VariantOf(fields) =>
      assert DefOk(abi, abi.defs[t]);
      var i := Alternative(fields, v);
      if i.None? then None else Join(VarUInt(i.value), [], EncodeParts(abi, fields[i.value].t, v.items[1], allow, skipped))
  }

  /** The members from `i` on: they must be the fields in order, and only extensions may
      be missing at the end. */
  function PartsOfMembers(abi: Abi, fields: seq<Field>, v: Json, i: nat, allow: bool, skipped: bool): Option<Parts>
    requires Resolved(abi) && FieldsKnown(abi, fields) && v.Obj? && i <= |v.members| && i <= |fields|
    decreases v, 0, |v.members| - i
  {
    if i == |v.members| then
      if i == |fields| then Some(Parts([], [], skipped))
      else if IsExtension(abi, fields[i].t) && allow then Some(Parts([], [], true))
      else None
    else if i == |fields| || skipped || v.members[i].key != fields[i].name then None
    else
      var r := EncodeParts(abi, fields[i].t, v.members[i].value, allow && i + 1 == |fields|, skipped);
      if r.None? then None else Join(r.value.raw, r.value.sizes, PartsOfMembers(abi, fields, v, i + 1, allow, r.value.skipped))
  }

  function PartsOfItems(abi: Abi, u: TypeId, v: Json, i: nat, skipped: bool): Option<Parts>
    requires Resolved(abi) && Known(abi, u) && v.Arr? && i <= |v.items|
    decreases v, 0, |v.items| - i
  {
    if i == |v.items| then Some(Parts([], [], skipped))
    else
      var r := EncodeParts(abi, u, v.items[i], false, skipped);
      if r.None? then None else Join(r.value.raw, r.value.sizes, PartsOfItems(abi, u, v, i + 1, r.value.skipped))
  }

  /** The bytes from `pos` on with the sizes put in. */
  function Splice(raw: Bytes, sizes: seq<Insertion>, pos: nat): Bytes
    requires pos <= |raw| && InOrder(sizes, pos, |raw|)
    decreases |sizes|
  {
    if sizes == [] then raw[pos..]
    else raw[pos..sizes[0].position] + VarUInt(sizes[0].size) + Splice(raw, sizes[1..], sizes[0].position)
  }

  /** Positions do not decrease. */
  predicate InOrder(sizes: seq<Insertion>, lo: nat, hi: nat)
    decreases |sizes|
  {
    if sizes == [] then lo <= hi else lo <= sizes[0].position <= hi && InOrder(sizes[1..], sizes[0].position, hi)
  }
}
