/** When the two encoders agree on a struct: exactly when its field names are distinct. */
module AbiNames {
  import opened Options
  import opened ByteStrings
  import opened AbiSpec
  import opened AbiLaws

  /** Both encoders take a value. */
  ghost predicate Taken(abi: Abi, t: TypeId, v: Json)
    requires Resolved(abi) && Known(abi, t)
  {
    Encode(abi, t, v, true, false).Some? && EncodeParts(abi, t, v, true, false).Some?
  }

  /** They do not give different bytes. */
  ghost predicate Same(abi: Abi, t: TypeId, v: Json)
    requires Resolved(abi) && Known(abi, t)
  {
    Taken(abi, t, v) ==>
      var p := EncodeParts(abi, t, v, true, false).value;
      PartsOk(p) && Encode(abi, t, v, true, false).value.bytes == Spliced(p)
  }

  function Replaced(v: Json, i: nat, x: Json): Json
    requires v.Obj? && i < |v.members|
  {
    Obj(v.members[i := Member(v.members[i].key, x)])
  }

  /** Field `i` of a value that both encoders take has the name of a later field, and its type
      has another value, `x`, with other bytes. */
  ghost predicate Shadowed(abi: Abi, fields: seq<Field>, v: Json, i: nat, j: nat, x: Json)
    requires Resolved(abi) && FieldsKnown(abi, fields)
  {
    && v.Obj? && i < j < |fields| && j < |v.members| && fields[i].name == fields[j].name
    && var p, q := EncodeParts(abi, fields[i].t, v.members[i].value, false, false), EncodeParts(abi, fields[i].t, x, false, false);
       p.Some? && q.Some? && PartsOk(p.value) && PartsOk(q.value) && Spliced(p.value) != Spliced(q.value)
  }

  // ----- where extensions may not be missing none is -----

  lemma {:induction false} NoneMissing(abi: Abi, t: TypeId, v: Json, skipped: bool)
    requires Resolved(abi) && Known(abi, t)
    ensures var p := EncodeParts(abi, t, v, false, skipped); p.Some? ==> p.value.skipped == skipped
    decreases v, 1, Rank(abi, t)
  {
    assert DefOk(abi, abi.defs[t]);
    match abi.defs[t]
    case Builtin(_) =>
    case OptionalOf(u) => NoneMissing(abi, u, v, skipped);
    case ExtensionOf(u) => NoneMissing(abi, u, v, skipped);
    case StructOf(fields) => if v.Obj? { NoMemberMissing(abi, fields, v, 0, skipped); }
    case ArrayOf(u) => if v.Arr? { NoItemMissing(abi, u, v, 0, skipped); }
    case VariantOf(fields) =>
      var i := Alternative(fields, v);
      if i.Some? { NoneMissing(abi, fields[i.value].t, v.items[1], skipped); }
  }

  lemma {:induction false} NoMemberMissing(abi: Abi, fields: seq<Field>, v: Json, i: nat, skipped: bool)
    requires Resolved(abi) && FieldsKnown(abi, fields) && v.Obj? && i <= |v.members| && i <= |fields|
    ensures var p := PartsOfMembers(abi, fields, v, i, false, skipped); p.Some? ==> p.value.skipped == skipped
    decreases v, 0, |v.members| - i
  {
    if i < |v.members| && i < |fields| {
      NoneMissing(abi, fields[i].t, v.members[i].value, skipped);
      NoMemberMissing(abi, fields, v, i + 1, skipped);
    }
  }

  lemma {:induction false} NoItemMissing(abi: Abi, u: TypeId, v: Json, i: nat, skipped: bool)
    requires Resolved(abi) && Known(abi, u) && v.Arr? && i <= |v.items|
    ensures var p := PartsOfItems(abi, u, v, i, skipped); p.Some? ==> p.value.skipped == skipped
    decreases v, 0, |v.items| - i
  {
    if i < |v.items| {
      NoneMissing(abi, u, v.items[i], skipped);
      NoItemMissing(abi, u, v, i + 1, skipped);
    }
  }

  // ----- the value-tree encoder does not see the shadowed member -----

  lemma {:induction false} SameLookup(a: seq<Member>, b: seq<Member>, key: string)
    requires |a| == |b| && forall k :: 0 <= k < |a| ==> a[k].key == b[k].key
    ensures Lookup(a, key) == Lookup(b, key)
  {
    if a != [] && a[|a| - 1].key != key { SameLookup(a[..|a| - 1], b[..|b| - 1], key); }
  }

  lemma {:induction false} LaterFound(members: seq<Member>, i: nat, j: nat, key: string)
    requires i < j < |members| && members[i].key == members[j].key
    ensures Lookup(members, key) != Some(i)
  {
    if members[|members| - 1].key != key && j < |members| - 1 { LaterFound(members[..|members| - 1], i, j, key); }
  }

  lemma {:induction false} TreeUnchanged(abi: Abi, fields: seq<Field>, v: Json, i: nat, j: nat, x: Json, k: nat, allow: bool, skipped: bool)
    requires Resolved(abi) && FieldsKnown(abi, fields) && v.Obj? && i < j < |v.members| && k <= |fields|
    requires v.members[i].key == v.members[j].key
    ensures EncodeFields(abi, fields, Replaced(v, i, x), k, allow, skipped) == EncodeFields(abi, fields, v, k, allow, skipped)
    decreases |fields| - k
  {
    hide Encode;
    if k < |fields| {
      var w, key := Replaced(v, i, x), fields[k].name;
      SameLookup(v.members, w.members, key);
      LaterFound(v.members, i, j, key);
      var m := Lookup(v.members, key);
      if m.None? {
        TreeUnchanged(abi, fields, v, i, j, x, k + 1, allow, true);
      } else if !skipped {
        assert w.members[m.value] == v.members[m.value];
        var r := Encode(abi, fields[k].t, v.members[m.value].value, allow && k + 1 == |fields|, skipped);
        if r.Some? { TreeUnchanged(abi, fields, v, i, j, x, k + 1, allow, r.value.skipped); }
      }
    }
  }

  // ----- the token encoder does -----

  lemma {:induction false} TailUnchanged(abi: Abi, fields: seq<Field>, v: Json, i: nat, x: Json, k: nat, allow: bool, skipped: bool)
    requires Resolved(abi) && FieldsKnown(abi, fields) && v.Obj? && i < |v.members| && i < k <= |v.members| && k <= |fields|
    ensures PartsOfMembers(abi, fields, Replaced(v, i, x), k, allow, skipped) == PartsOfMembers(abi, fields, v, k, allow, skipped)
    decreases |v.members| - k
  {
    hide EncodeParts;
    if k < |v.members| && k < |fields| {
      var r := EncodeParts(abi, fields[k].t, v.members[k].value, allow && k + 1 == |fields|, skipped);
      if r.Some? { TailUnchanged(abi, fields, v, i, x, k + 1, allow, r.value.skipped); }
    }
  }

  lemma MemberFirst(abi: Abi, fields: seq<Field>, v: Json, k: nat, allow: bool)
    requires Resolved(abi) && FieldsKnown(abi, fields) && v.Obj? && k < |v.members| && k < |fields| && v.members[k].key == fields[k].name
    ensures var first := EncodeParts(abi, fields[k].t, v.members[k].value, allow && k + 1 == |fields|, false);
            var all := PartsOfMembers(abi, fields, v, k, allow, false);
            if first.None? then all == None
            else all == Join(first.value.raw, first.value.sizes, PartsOfMembers(abi, fields, v, k + 1, allow, first.value.skipped))
  {
  }

  lemma {:induction false} TokensChange(abi: Abi, fields: seq<Field>, v: Json, i: nat, j: nat, x: Json, k: nat, allow: bool)
    requires Resolved(abi) && FieldsKnown(abi, fields) && Shadowed(abi, fields, v, i, j, x) && k <= i
    requires PartsOfMembers(abi, fields, v, k, allow, false).Some?
    ensures var p, q := PartsOfMembers(abi, fields, v, k, allow, false), PartsOfMembers(abi, fields, Replaced(v, i, x), k, allow, false);
            q.Some? && PartsOk(p.value) && PartsOk(q.value) && Spliced(p.value) != Spliced(q.value)
    decreases i - k
  {
    hide EncodeParts, PartsOfMembers, Join, Splice, InOrder;
    var w := Replaced(v, i, x);
    KeyIsName(abi, fields, v, k, allow);
    MemberFirst(abi, fields, v, k, allow);
    MemberFirst(abi, fields, w, k, allow);
    var a := EncodeParts(abi, fields[k].t, v.members[k].value, false, false).value;
    var b := EncodeParts(abi, fields[k].t, w.members[k].value, false, false).value;
    NoneMissing(abi, fields[k].t, v.members[k].value, false);
    NoneMissing(abi, fields[k].t, w.members[k].value, false);
    PartsInOrder(abi, fields[k].t, v.members[k].value, false, false);
    PartsInOrder(abi, fields[k].t, w.members[k].value, false, false);
    RestTaken(a, PartsOfMembers(abi, fields, v, k + 1, allow, false));
    var p := PartsOfMembers(abi, fields, v, k + 1, allow, false).value;
    MembersInOrder(abi, fields, v, k + 1, allow, false);
    Joined(a.raw, a.sizes, p);
    if k == i {
      TailUnchanged(abi, fields, v, i, x, k + 1, allow, false);
      RestTaken(b, PartsOfMembers(abi, fields, w, k + 1, allow, false));
      Joined(b.raw, b.sizes, p);
      if Spliced(a) + Spliced(p) == Spliced(b) + Spliced(p) { SameFronts(Spliced(a), Spliced(b), Spliced(p)); }
    } else {
      TokensChange(abi, fields, v, i, j, x, k + 1, allow);
      RestTaken(b, PartsOfMembers(abi, fields, w, k + 1, allow, false));
      var q := PartsOfMembers(abi, fields, w, k + 1, allow, false).value;
      Joined(a.raw, a.sizes, q);
      if Spliced(a) + Spliced(p) == Spliced(a) + Spliced(q) { SameBacks(Spliced(a), Spliced(p), Spliced(q)); }
    }
  }

  lemma KeyIsName(abi: Abi, fields: seq<Field>, v: Json, k: nat, allow: bool)
    requires Resolved(abi) && FieldsKnown(abi, fields) && v.Obj? && k < |v.members| && k < |fields|
    requires PartsOfMembers(abi, fields, v, k, allow, false).Some?
    ensures v.members[k].key == fields[k].name
  {
  }

  lemma RestTaken(a: Parts, r: Option<Parts>)
    ensures Join(a.raw, a.sizes, r).Some? <==> r.Some?
    ensures r.Some? ==> Join(a.raw, a.sizes, r) == Join(a.raw, a.sizes, Some(r.value))
  {
  }

  lemma SameFronts(a: Bytes, b: Bytes, c: Bytes)
    requires a + c == b + c
    ensures a == b
  {
    assert |a + c| == |a| + |c| && |b + c| == |b| + |c|;
    assert a == (a + c)[..|a|];
    assert b == (b + c)[..|b|];
  }

  lemma SameBacks(a: Bytes, b: Bytes, c: Bytes)
    requires a + b == a + c
    ensures b == c
  {
    assert b == (a + b)[|a|..];
    assert c == (a + c)[|a|..];
  }

  // ----- the exact condition -----

  /** A repeated name makes the encoders differ: changing the member that a later field of the
      same name shadows changes nothing for the value-tree encoder, which looks fields up by
      name, and the bytes of the token encoder, which takes them in order. */
  lemma ShadowedFieldsDiffer(abi: Abi, t: TypeId, v: Json, i: nat, j: nat, x: Json)
    requires Resolved(abi) && Known(abi, t) && abi.defs[t].StructOf? && FieldsKnown(abi, abi.defs[t].fields)
    requires Shadowed(abi, abi.defs[t].fields, v, i, j, x) && Taken(abi, t, v)
    ensures var w := Replaced(v, i, x);
            && Taken(abi, t, w) && Encode(abi, t, w, true, false) == Encode(abi, t, v, true, false)
            && (!Same(abi, t, v) || !Same(abi, t, w))
    ensures var p, q := EncodeParts(abi, t, v, true, false).value, EncodeParts(abi, t, Replaced(v, i, x), true, false).value;
            PartsOk(p) && PartsOk(q) && Spliced(p) != Spliced(q)
  {
    var fields := abi.defs[t].fields;
    TakenInOrder(abi, fields, v, 0, true, false);
    TreeUnchanged(abi, fields, v, i, j, x, 0, true, false);
    TokensChange(abi, fields, v, i, j, x, 0, true);
  }

  /** A field of the struct is shadowed on some value both encoders take. */
  ghost predicate SomeShadowed(abi: Abi, t: TypeId)
    requires Resolved(abi) && Known(abi, t) && abi.defs[t].StructOf? && FieldsKnown(abi, abi.defs[t].fields)
  {
    exists v, i: nat, j: nat, x :: Taken(abi, t, v) && Shadowed(abi, abi.defs[t].fields, v, i, j, x)
  }

  /** Where every other struct has distinct names, and a repeated name of this one can be seen
      at all, the encoders never differ on it if and only if its names are distinct. */
  lemma SameIffDistinct(abi: Abi, t: TypeId)
    requires Resolved(abi) && Known(abi, t) && abi.defs[t].StructOf? && FieldsKnown(abi, abi.defs[t].fields)
    requires forall u :: 0 <= u < |abi.defs| && abi.defs[u].StructOf? && u != t ==> NamesDistinct(abi.defs[u].fields)
    requires !NamesDistinct(abi.defs[t].fields) ==> SomeShadowed(abi, t)
    ensures NamesDistinct(abi.defs[t].fields) <==> forall v :: Same(abi, t, v)
  {
    hide Encode, EncodeParts;
    if NamesDistinct(abi.defs[t].fields) {
      forall v ensures Same(abi, t, v) { SameBytes(abi, t, v); }
    } else {
      var v, i: nat, j: nat, x :| Taken(abi, t, v) && Shadowed(abi, abi.defs[t].fields, v, i, j, x);
      ShadowedFieldsDiffer(abi, t, v, i, j, x);
    }
  }
}
