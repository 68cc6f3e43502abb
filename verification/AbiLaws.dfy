/** The two encoders agree. */
module AbiLaws {
  import opened Basics
  import opened Options
  import opened ByteStrings
  import opened AbiSpec

  // ----- putting sizes in -----

  ghost predicate PartsOk(p: Parts) { InOrder(p.sizes, 0, |p.raw|) }

  ghost function Spliced(p: Parts): Bytes
    requires PartsOk(p)
  {
    Splice(p.raw, p.sizes, 0)
  }

  lemma {:induction false} InOrderShift(sizes: seq<Insertion>, lo: nat, hi: nat, off: nat, hi': nat)
    requires InOrder(sizes, lo, hi) && hi + off <= hi'
    ensures InOrder(Shift(sizes, off), lo + off, hi')
    decreases |sizes|
  {
    if sizes != [] {
      assert Shift(sizes, off)[1..] == Shift(sizes[1..], off);
      InOrderShift(sizes[1..], sizes[0].position, hi, off, hi');
    }
  }

  lemma SpliceNext(raw: Bytes, sizes: seq<Insertion>, pos: nat)
    requires pos <= |raw| && InOrder(sizes, pos, |raw|) && sizes != []
    ensures var p := sizes[0].position;
            && pos <= p <= |raw| && InOrder(sizes[1..], p, |raw|)
            && Splice(raw, sizes, pos) == raw[pos..p] + VarUInt(sizes[0].size) + Splice(raw, sizes[1..], p)
  {
  }

  lemma SliceAfter(a: Bytes, b: Bytes, i: nat, j: nat)
    requires i <= j <= |b|
    ensures (a + b)[|a| + i..|a| + j] == b[i..j]
  {
  }

  lemma ShiftNext(sizes: seq<Insertion>, off: nat)
    ensures sizes == [] ==> Shift(sizes, off) == []
    ensures sizes != [] ==> Shift(sizes, off) == [Insertion(sizes[0].position + off, sizes[0].size)] + Shift(sizes[1..], off)
  {
  }

  lemma {:induction false} SpliceShift(raw: Bytes, more: Bytes, sizes: seq<Insertion>, pos: nat)
    requires pos <= |more| && InOrder(sizes, pos, |more|)
    ensures InOrder(Shift(sizes, |raw|), pos + |raw|, |raw + more|)
    ensures Splice(raw + more, Shift(sizes, |raw|), pos + |raw|) == Splice(more, sizes, pos)
    decreases |sizes|
  {
    hide Splice, InOrder, Shift;
    InOrderShift(sizes, pos, |more|, |raw|, |raw + more|);
    ShiftNext(sizes, |raw|);
    if sizes == [] {
      SpliceEnd(raw + more, pos + |raw|);
      SpliceEnd(more, pos);
      SliceAfter(raw, more, pos, |more|);
    } else {
      var shifted := Shift(sizes, |raw|);
      assert shifted[1..] == Shift(sizes[1..], |raw|);
      SpliceNext(raw + more, shifted, pos + |raw|);
      SpliceNext(more, sizes, pos);
      SpliceShift(raw, more, sizes[1..], sizes[0].position);
      SliceAfter(raw, more, pos, sizes[0].position);
    }
  }

  lemma SpliceEnd(raw: Bytes, pos: nat)
    requires pos <= |raw|
    ensures InOrder([], pos, |raw|) && Splice(raw, [], pos) == raw[pos..|raw|]
  {
  }

  /** Starting earlier only adds the bytes before. */
  lemma SpliceFrom(raw: Bytes, sizes: seq<Insertion>, pos: nat, pos': nat)
    requires pos <= pos' <= |raw| && InOrder(sizes, pos', |raw|)
    ensures InOrder(sizes, pos, |raw|) && Splice(raw, sizes, pos) == raw[pos..pos'] + Splice(raw, sizes, pos')
  {
    if sizes == [] {
      assert raw[pos..] == raw[pos..pos'] + raw[pos'..];
    } else {
      var p := sizes[0].position;
      Between(raw, pos, pos', p);
      var rest := VarUInt(sizes[0].size) + Splice(raw, sizes[1..], p);
      assert Splice(raw, sizes, pos) == raw[pos..p] + rest by { Reassociate(raw[pos..p], VarUInt(sizes[0].size), Splice(raw, sizes[1..], p)); }
      assert Splice(raw, sizes, pos') == raw[pos'..p] + rest by { Reassociate(raw[pos'..p], VarUInt(sizes[0].size), Splice(raw, sizes[1..], p)); }
      Reassociate(raw[pos..pos'], raw[pos'..p], rest);
    }
  }

  lemma Reassociate(a: Bytes, b: Bytes, c: Bytes)
    ensures (a + b) + c == a + (b + c)
  {
  }

  lemma Between(raw: Bytes, a: nat, b: nat, c: nat)
    requires a <= b <= c <= |raw|
    ensures raw[a..c] == raw[a..b] + raw[b..c]
  {
  }

  /** A stretch without sizes before a part. */
  lemma SpliceSkip(raw: Bytes, more: Bytes, sizes: seq<Insertion>, pos: nat)
    requires pos <= |raw| && InOrder(sizes, 0, |more|)
    ensures InOrder(Shift(sizes, |raw|), pos, |raw + more|)
    ensures Splice(raw + more, Shift(sizes, |raw|), pos) == raw[pos..] + Splice(more, sizes, 0)
  {
    SpliceShift(raw, more, sizes, 0);
    SpliceFrom(raw + more, Shift(sizes, |raw|), pos, |raw|);
    assert (raw + more)[pos..|raw|] == raw[pos..];
  }

  lemma {:induction false} SpliceConcat(raw: Bytes, sizes: seq<Insertion>, more: Bytes, sizes': seq<Insertion>, pos: nat)
    requires pos <= |raw| && InOrder(sizes, pos, |raw|) && InOrder(sizes', 0, |more|)
    ensures InOrder(sizes + Shift(sizes', |raw|), pos, |raw + more|)
    ensures Splice(raw + more, sizes + Shift(sizes', |raw|), pos) == Splice(raw, sizes, pos) + Splice(more, sizes', 0)
    decreases |sizes|
  {
    hide Splice, InOrder, Shift;
    var tail := Shift(sizes', |raw|);
    if sizes == [] {
      assert sizes + tail == tail;
      SpliceSkip(raw, more, sizes', pos);
      SpliceEnd(raw, pos);
    } else {
      var p := sizes[0].position;
      assert (sizes + tail)[1..] == sizes[1..] + tail && (sizes + tail)[0] == sizes[0];
      SpliceNext(raw, sizes, pos);
      SpliceConcat(raw, sizes[1..], more, sizes', p);
      InOrderBefore(sizes + tail, pos, |raw + more|);
      SpliceNext(raw + more, sizes + tail, pos);
      assert (raw + more)[pos..p] == raw[pos..p];
    }
  }

  lemma InOrderBefore(sizes: seq<Insertion>, lo: nat, hi: nat)
    requires sizes != [] && lo <= sizes[0].position <= hi && InOrder(sizes[1..], sizes[0].position, hi)
    ensures InOrder(sizes, lo, hi)
  {
  }

  /** Splicing one part after another gives the bytes of one after those of the other. */
  lemma Joined(raw: Bytes, sizes: seq<Insertion>, p: Parts)
    requires InOrder(sizes, 0, |raw|) && PartsOk(p)
    ensures var j := Join(raw, sizes, Some(p)).value;
            PartsOk(j) && Spliced(j) == Splice(raw, sizes, 0) + Spliced(p)
  {
    SpliceConcat(raw, sizes, p.raw, p.sizes, 0);
  }

  lemma JoinedPlain(raw: Bytes, p: Parts)
    requires PartsOk(p)
    ensures var j := Join(raw, [], Some(p)).value; PartsOk(j) && Spliced(j) == raw + Spliced(p)
  {
    Joined(raw, [], p);
    assert raw[0..] == raw;
  }

  lemma JoinedSize(n: nat, p: Parts)
    requires PartsOk(p)
    ensures var j := Join([], [Insertion(0, n)], Some(p)).value; PartsOk(j) && Spliced(j) == VarUInt(n) + Spliced(p)
  {
    Joined([], [Insertion(0, n)], p);
    assert Splice([], [Insertion(0, n)], 0) == VarUInt(n);
  }

  // ----- when the encoders agree -----

  /** No struct has two fields with one name. */
  ghost predicate DistinctNames(abi: Abi) {
    forall t :: 0 <= t < |abi.defs| && abi.defs[t].StructOf? ==> NamesDistinct(abi.defs[t].fields)
  }

  predicate NamesDistinct(fields: seq<Field>) {
    forall i, j :: 0 <= i < j < |fields| ==> fields[i].name != fields[j].name
  }

  /** Extensions come last in every struct. */
  ghost predicate ExtensionsLast(abi: Abi)
    requires Resolved(abi)
  {
    forall t :: 0 <= t < |abi.defs| && abi.defs[t].StructOf? ==>
      FieldsKnown(abi, abi.defs[t].fields) && LastExtensions(abi, abi.defs[t].fields)
  }

  ghost predicate LastExtensions(abi: Abi, fields: seq<Field>)
    requires FieldsKnown(abi, fields)
  {
    forall i, j :: 0 <= i < j < |fields| && IsExtension(abi, fields[i].t) ==> IsExtension(abi, fields[j].t)
  }

  /** Array sizes fit the wire format. */
  predicate Fits(v: Json) {
    match v
    case Obj(ms) => forall i :: 0 <= i < |ms| ==> Fits(ms[i].value)
    case Arr(items) => |items| < UINT32 && forall i :: 0 <= i < |items| ==> Fits(items[i])
    case _ => true
  }

  /** Members are in the order of the type: the fields, or a first part of them. */
  predicate Ordered(abi: Abi, t: TypeId, v: Json)
    requires Resolved(abi) && Known(abi, t)
    decreases v, Rank(abi, t)
  {
    assert DefOk(abi, abi.defs[t]);
    match abi.defs[t]
    case Builtin(_) => true
    case OptionalOf(u) => v.Null? || Ordered(abi, u, v)
    case ExtensionOf(u) => Ordered(abi, u, v)
    case StructOf(fields) =>
      v.Obj? ==> |v.members| <= |fields|
                 && forall i :: 0 <= i < |v.members| ==> v.members[i].key == fields[i].name && Ordered(abi, fields[i].t, v.members[i].value)
    case ArrayOf(u) => v.Arr? ==> forall i :: 0 <= i < |v.items| ==> Ordered(abi, u, v.items[i])
    case VariantOf(fields) =>
      var i := Alternative(fields, v);
      i.Some? ==> Ordered(abi, fields[i.value].t, v.items[1])
  }

  /** What holds of the results of the two encoders. */
  ghost predicate Agree(r: Option<Out>, p: Option<Parts>, sized: bool, ordered: bool) {
    && (p.Some? && r.Some? ==> PartsOk(p.value) && r.value == Out(Spliced(p.value), p.value.skipped))
    && (p.Some? && sized ==> r.Some?)
    && (r.Some? && ordered ==> p.Some?)
  }

  lemma AgreeJoin(first: Out, part: Parts, r: Option<Out>, p: Option<Parts>, sized: bool, ordered: bool)
    requires PartsOk(part) && first.bytes == Spliced(part) && Agree(r, p, sized, ordered)
    ensures Agree(Prefix(first.bytes, r), Join(part.raw, part.sizes, p), sized, ordered)
  {
    if p.Some? && r.Some? { Joined(part.raw, part.sizes, p.value); }
  }

  lemma AgreePrefix(raw: Bytes, r: Option<Out>, p: Option<Parts>, sized: bool, ordered: bool)
    requires Agree(r, p, sized, ordered)
    ensures Agree(Prefix(raw, r), Join(raw, [], p), sized, ordered)
  {
    if p.Some? && r.Some? { JoinedPlain(raw, p.value); }
  }

  /** The members are the first fields: looking a field up finds its member. */
  lemma {:induction false} LookupPresent(fields: seq<Field>, members: seq<Member>, i: nat)
    requires NamesDistinct(fields) && i < |members| <= |fields|
    requires forall k :: 0 <= k < |members| ==> members[k].key == fields[k].name
    ensures Lookup(members, fields[i].name) == Some(i)
  {
    var r := Lookup(members, fields[i].name);
    assert members[i].key == fields[i].name;
    assert r.Some?;
    assert fields[r.value].name == fields[i].name;
    assert r.value == i;
  }

  lemma {:induction false} LookupAbsent(fields: seq<Field>, members: seq<Member>, i: nat)
    requires NamesDistinct(fields) && |members| <= i < |fields|
    requires forall k :: 0 <= k < |members| ==> members[k].key == fields[k].name
    ensures Lookup(members, fields[i].name) == None
  {
  }

  /** An object the ordered encoder takes has the fields in order. */
  lemma {:induction false} TakenInOrder(abi: Abi, fields: seq<Field>, v: Json, i: nat, allow: bool, skipped: bool)
    requires Resolved(abi) && FieldsKnown(abi, fields) && v.Obj? && i <= |v.members| && i <= |fields|
    requires PartsOfMembers(abi, fields, v, i, allow, skipped).Some?
    ensures |v.members| <= |fields| && forall k :: i <= k < |v.members| ==> v.members[k].key == fields[k].name
    decreases |v.members| - i
  {
    if i < |v.members| {
      var r := EncodeParts(abi, fields[i].t, v.members[i].value, allow && i + 1 == |fields|, skipped);
      TakenInOrder(abi, fields, v, i + 1, allow, r.value.skipped);
    }
  }

  lemma {:induction false} AllMissing(abi: Abi, fields: seq<Field>, v: Json, i: nat, allow: bool, skipped: bool)
    requires Resolved(abi) && FieldsKnown(abi, fields) && v.Obj? && |v.members| <= i <= |fields| && NamesDistinct(fields)
    requires forall k :: 0 <= k < |v.members| ==> v.members[k].key == fields[k].name
    ensures var r := EncodeFields(abi, fields, v, i, allow, skipped);
            && (r.Some? ==> r.value == Out([], skipped || i < |fields|))
            && (i < |fields| && r.Some? ==> IsExtension(abi, fields[i].t) && allow)
            && (LastExtensions(abi, fields) && (i < |fields| ==> IsExtension(abi, fields[i].t) && allow) ==> r.Some?)
    decreases |fields| - i
  {
    if i < |fields| {
      LookupAbsent(fields, v.members, i);
      AllMissing(abi, fields, v, i + 1, allow, true);
    }
  }

  /** For every type and value: what one encoder and the other say about it. */
  lemma {:induction false} EncodersAgree(abi: Abi, t: TypeId, v: Json, allow: bool, skipped: bool)
    requires Resolved(abi) && Known(abi, t) && DistinctNames(abi)
    ensures Agree(Encode(abi, t, v, allow, skipped), EncodeParts(abi, t, v, allow, skipped),
                  ExtensionsLast(abi) && Fits(v), Ordered(abi, t, v))
    decreases v, 1, Rank(abi, t)
  {
    hide Splice, InOrder, Shift, VarUInt, EncodeFields, PartsOfMembers, EncodeItems, PartsOfItems, NamesDistinct, LastExtensions;
    assert DefOk(abi, abi.defs[t]);
    var sized, ordered := ExtensionsLast(abi) && Fits(v), Ordered(abi, t, v);
    match abi.defs[t]
    case Builtin(kind) =>
      PlainAgrees(Leaf(abi, kind, v), skipped, sized, ordered);
    case OptionalOf(u) =>
      PlainAgrees(Some([0]), skipped, sized, ordered);
      if !v.Null? {
        EncodersAgree(abi, u, v, allow, skipped);
        AgreePrefix([1], Encode(abi, u, v, allow, skipped), EncodeParts(abi, u, v, allow, skipped), sized, ordered);
      }
    case ExtensionOf(u) =>
      EncodersAgree(abi, u, v, allow, skipped);
    case StructOf(fields) =>
      if v.Obj? { FieldsAgree(abi, fields, v, 0, allow, skipped, sized, ordered); }
    case ArrayOf(u) =>
      if v.Arr? {
        ItemsAgree(abi, u, v, 0, skipped, sized, ordered);
        SizeAgrees(|v.items|, EncodeItems(abi, u, v, 0, skipped), PartsOfItems(abi, u, v, 0, skipped), sized, ordered);
      }
    case VariantOf(fields) =>
      var i := Alternative(fields, v);
      if i.Some? {
        var w := v.items[1];
        EncodersAgree(abi, fields[i.value].t, w, allow, skipped);
        AgreePrefix(VarUInt(i.value), Encode(abi, fields[i.value].t, w, allow, skipped), EncodeParts(abi, fields[i.value].t, w, allow, skipped),
                    sized, ordered);
      }
  }

  lemma PlainAgrees(b: Option<Bytes>, skipped: bool, sized: bool, ordered: bool)
    ensures Agree(if b.None? then None else Some(Out(b.value, skipped)), if b.None? then None else Some(Parts(b.value, [], skipped)), sized, ordered)
  {
    if b.Some? { assert b.value[0..] == b.value; }
  }

  lemma SizeAgrees(n: nat, r: Option<Out>, p: Option<Parts>, sized: bool, ordered: bool)
    requires Agree(r, p, sized, ordered) && (sized ==> n < UINT32)
    ensures Agree(if n < UINT32 then Prefix(VarUInt(n), r) else None, Join([], [Insertion(0, n % UINT32)], p), sized, ordered)
  {
    hide Splice, VarUInt, InOrder, Shift;
    if p.Some? && r.Some? && n < UINT32 {
      assert n % UINT32 == n;
      JoinedSize(n, p.value);
    }
  }

  lemma {:induction false} ItemsAgree(abi: Abi, u: TypeId, v: Json, i: nat, skipped: bool, sized: bool, ordered: bool)
    requires Resolved(abi) && Known(abi, u) && DistinctNames(abi) && v.Arr? && i <= |v.items|
    requires sized ==> ExtensionsLast(abi) && forall k :: 0 <= k < |v.items| ==> Fits(v.items[k])
    requires ordered ==> forall k :: 0 <= k < |v.items| ==> Ordered(abi, u, v.items[k])
    ensures Agree(EncodeItems(abi, u, v, i, skipped), PartsOfItems(abi, u, v, i, skipped), sized, ordered)
    decreases v, 0, |v.items| - i
  {
    if i == |v.items| {
      PlainAgrees(Some([]), skipped, sized, ordered);
    } else {
      EncodersAgree(abi, u, v.items[i], false, skipped);
      var r, p := Encode(abi, u, v.items[i], false, skipped), EncodeParts(abi, u, v.items[i], false, skipped);
      if r.Some? && p.Some? {
        ItemsAgree(abi, u, v, i + 1, r.value.skipped, sized, ordered);
        AgreeJoin(r.value, p.value, EncodeItems(abi, u, v, i + 1, r.value.skipped), PartsOfItems(abi, u, v, i + 1, r.value.skipped), sized, ordered);
      }
    }
  }

  /** The members are fields in order. */
  predicate KeysMatch(fields: seq<Field>, members: seq<Member>) {
    |members| <= |fields| && forall k :: 0 <= k < |members| ==> members[k].key == fields[k].name
  }

  lemma {:induction false} FieldsAgree(abi: Abi, fields: seq<Field>, v: Json, i: nat, allow: bool, skipped: bool, sized: bool, ordered: bool)
    requires Resolved(abi) && FieldsKnown(abi, fields) && DistinctNames(abi) && NamesDistinct(fields)
    requires v.Obj? && i <= |v.members| && i <= |fields| && forall k :: 0 <= k < i ==> v.members[k].key == fields[k].name
    requires sized ==> ExtensionsLast(abi) && LastExtensions(abi, fields) && forall k :: 0 <= k < |v.members| ==> Fits(v.members[k].value)
    requires ordered ==> KeysMatch(fields, v.members) && forall k :: 0 <= k < |v.members| ==> Ordered(abi, fields[k].t, v.members[k].value)
    ensures Agree(EncodeFields(abi, fields, v, i, allow, skipped), PartsOfMembers(abi, fields, v, i, allow, skipped), sized, ordered)
    decreases v, 0, |v.members| - i
  {
    if PartsOfMembers(abi, fields, v, i, allow, skipped).Some? { TakenInOrder(abi, fields, v, i, allow, skipped); }
    if KeysMatch(fields, v.members) {
      if i == |v.members| {
        AllMissing(abi, fields, v, i, allow, skipped);
        PlainAgrees(Some([]), skipped, sized, ordered);
        PlainAgrees(Some([]), true, sized, ordered);
      } else {
        LookupPresent(fields, v.members, i);
        if !skipped { MemberAgrees(abi, fields, v, i, allow, sized, ordered); }
      }
    }
  }

  lemma {:induction false} MemberAgrees(abi: Abi, fields: seq<Field>, v: Json, i: nat, allow: bool, sized: bool, ordered: bool)
    requires Resolved(abi) && FieldsKnown(abi, fields) && DistinctNames(abi) && NamesDistinct(fields)
    requires v.Obj? && i < |v.members| && KeysMatch(fields, v.members) && Lookup(v.members, fields[i].name) == Some(i)
    requires sized ==> ExtensionsLast(abi) && LastExtensions(abi, fields) && forall k :: 0 <= k < |v.members| ==> Fits(v.members[k].value)
    requires ordered ==> forall k :: 0 <= k < |v.members| ==> Ordered(abi, fields[k].t, v.members[k].value)
    ensures Agree(EncodeFields(abi, fields, v, i, allow, false), PartsOfMembers(abi, fields, v, i, allow, false), sized, ordered)
    decreases v, 0, |v.members| - i, 0
  {
    hide Encode, EncodeParts, Splice, InOrder, Shift, Ordered, Fits, DistinctNames, NamesDistinct, ExtensionsLast;
    var last, w := allow && i + 1 == |fields|, v.members[i].value;
    EncodersAgree(abi, fields[i].t, w, last, false);
    var r, p := Encode(abi, fields[i].t, w, last, false), EncodeParts(abi, fields[i].t, w, last, false);
    if r.Some? && p.Some? {
      FieldsAgree(abi, fields, v, i + 1, allow, r.value.skipped, sized, ordered);
      AgreeJoin(r.value, p.value, EncodeFields(abi, fields, v, i + 1, allow, r.value.skipped),
                PartsOfMembers(abi, fields, v, i + 1, allow, r.value.skipped), sized, ordered);
    }
  }

  // ----- the sizes come in the order of their places -----

  ghost predicate SizesFit(sizes: seq<Insertion>) {
    forall k :: 0 <= k < |sizes| ==> sizes[k].size < UINT32
  }

  ghost predicate PartsFine(p: Option<Parts>) {
    p.Some? ==> PartsOk(p.value) && SizesFit(p.value.sizes)
  }

  lemma JoinFine(raw: Bytes, sizes: seq<Insertion>, p: Option<Parts>)
    requires InOrder(sizes, 0, |raw|) && SizesFit(sizes) && PartsFine(p)
    ensures PartsFine(Join(raw, sizes, p))
  {
    if p.Some? { Joined(raw, sizes, p.value); }
  }

  lemma {:induction false} PartsInOrder(abi: Abi, t: TypeId, v: Json, allow: bool, skipped: bool)
    requires Resolved(abi) && Known(abi, t)
    ensures PartsFine(EncodeParts(abi, t, v, allow, skipped))
    decreases v, 1, Rank(abi, t)
  {
    assert DefOk(abi, abi.defs[t]);
    match abi.defs[t]
    case Builtin(_) =>
    case OptionalOf(u) =>
      PartsInOrder(abi, u, v, allow, skipped);
      JoinFine([1], [], EncodeParts(abi, u, v, allow, skipped));
    case ExtensionOf(u) => PartsInOrder(abi, u, v, allow, skipped);
    case StructOf(fields) =>
      if v.Obj? { MembersInOrder(abi, fields, v, 0, allow, skipped); }
    case ArrayOf(u) =>
      if v.Arr? {
        ItemsInOrder(abi, u, v, 0, skipped);
        JoinFine([], [Insertion(0, |v.items| % UINT32)], PartsOfItems(abi, u, v, 0, skipped));
      }
    case VariantOf(fields) =>
      var i := Alternative(fields, v);
      if i.Some? {
        PartsInOrder(abi, fields[i.value].t, v.items[1], allow, skipped);
        JoinFine(VarUInt(i.value), [], EncodeParts(abi, fields[i.value].t, v.items[1], allow, skipped));
      }
  }

  lemma {:induction false} MembersInOrder(abi: Abi, fields: seq<Field>, v: Json, i: nat, allow: bool, skipped: bool)
    requires Resolved(abi) && FieldsKnown(abi, fields) && v.Obj? && i <= |v.members| && i <= |fields|
    ensures PartsFine(PartsOfMembers(abi, fields, v, i, allow, skipped))
    decreases v, 0, |v.members| - i
  {
    if i < |v.members| && i < |fields| {
      var last := allow && i + 1 == |fields|;
      PartsInOrder(abi, fields[i].t, v.members[i].value, last, skipped);
      var r := EncodeParts(abi, fields[i].t, v.members[i].value, last, skipped);
      if r.Some? {
        MembersInOrder(abi, fields, v, i + 1, allow, r.value.skipped);
        JoinFine(r.value.raw, r.value.sizes, PartsOfMembers(abi, fields, v, i + 1, allow, r.value.skipped));
      }
    }
  }

  lemma {:induction false} ItemsInOrder(abi: Abi, u: TypeId, v: Json, i: nat, skipped: bool)
    requires Resolved(abi) && Known(abi, u) && v.Arr? && i <= |v.items|
    ensures PartsFine(PartsOfItems(abi, u, v, i, skipped))
    decreases v, 0, |v.items| - i
  {
    if i < |v.items| {
      PartsInOrder(abi, u, v.items[i], false, skipped);
      var r := EncodeParts(abi, u, v.items[i], false, skipped);
      if r.Some? {
        ItemsInOrder(abi, u, v, i + 1, r.value.skipped);
        JoinFine(r.value.raw, r.value.sizes, PartsOfItems(abi, u, v, i + 1, r.value.skipped));
      }
    }
  }

  // ----- the promise -----

  /** Whenever both encoders take a value they give the same bytes.  With extensions last
      and sizes that fit, what the ordered one takes the other takes too; and what the
      other takes, the ordered one takes if its members are in order. */
  lemma SameBytes(abi: Abi, t: TypeId, v: Json)
    requires Resolved(abi) && Known(abi, t) && DistinctNames(abi)
    ensures var r, p := Encode(abi, t, v, true, false), EncodeParts(abi, t, v, true, false);
            && (r.Some? && p.Some? ==> PartsOk(p.value) && r.value.bytes == Spliced(p.value))
            && (ExtensionsLast(abi) && Fits(v) && p.Some? ==> r.Some?)
            && (Ordered(abi, t, v) && r.Some? ==> p.Some?)
  {
    EncodersAgree(abi, t, v, true, false);
  }

  /** Without distinct names they need not: resolving a derived struct puts its base's
      fields first, and nothing keeps a name from being used twice. */
  lemma RepeatedNamesDiffer() returns (abi: Abi, v: Json)
    ensures Resolved(abi) && Known(abi, 1) && !DistinctNames(abi) && ExtensionsLast(abi) && Fits(v) && Ordered(abi, 1, v)
    ensures Encode(abi, 1, v, true, false) == Some(Out([2, 2], false))
    ensures EncodeParts(abi, 1, v, true, false) == Some(Parts([1, 2], [], false))
  {
    var fields := [Field("a", 0), Field("a", 0)];
    abi := Abi([Builtin(0), StructOf(fields)], (kind, w) => if w == Text("1") then Some([1]) else Some([2]), (kind, b) => None);
    v := Obj([Member("a", Text("1")), Member("a", Text("2"))]);
    assert fields[0].name == fields[1].name;
    assert abi.defs[1].StructOf? && !NamesDistinct(fields);
    assert abi.defs[0] == Builtin(0);
    TreeTakesLast(abi, fields, v);
    TokensTakeEach(abi, fields, v);
  }

  lemma TreeTakesLast(abi: Abi, fields: seq<Field>, v: Json)
    requires Resolved(abi) && Known(abi, 0) && FieldsKnown(abi, fields) && fields == [Field("a", 0), Field("a", 0)] && abi.defs[0] == Builtin(0)
    requires v == Obj([Member("a", Text("1")), Member("a", Text("2"))]) && abi.leaf(0, Text("2")) == Some([2])
    ensures EncodeFields(abi, fields, v, 0, true, false) == Some(Out([2, 2], false))
  {
    var two: Bytes := [2];
    assert two + [] == two && two + two == [2, 2];
    assert Lookup(v.members, "a") == Some(1);
    assert Encode(abi, 0, v.members[1].value, true, false) == Some(Out([2], false));
    assert Encode(abi, 0, v.members[1].value, false, false) == Some(Out([2], false));
    hide Encode, Lookup;
    assert EncodeFields(abi, fields, v, 2, true, false) == Some(Out([], false));
    assert EncodeFields(abi, fields, v, 1, true, false) == Some(Out([2], false));
  }

  lemma TokensTakeEach(abi: Abi, fields: seq<Field>, v: Json)
    requires Resolved(abi) && Known(abi, 0) && FieldsKnown(abi, fields) && fields == [Field("a", 0), Field("a", 0)] && abi.defs[0] == Builtin(0)
    requires v == Obj([Member("a", Text("1")), Member("a", Text("2"))])
    requires abi.leaf(0, Text("1")) == Some([1]) && abi.leaf(0, Text("2")) == Some([2])
    ensures PartsOfMembers(abi, fields, v, 0, true, false) == Some(Parts([1, 2], [], false))
  {
    var one: Bytes, two: Bytes, none: seq<Insertion> := [1], [2], [];
    assert two + [] == two && one + two == [1, 2] && none + Shift([], 1) == none;
    assert EncodeParts(abi, 0, v.members[1].value, true, false) == Some(Parts([2], [], false));
    assert EncodeParts(abi, 0, v.members[0].value, false, false) == Some(Parts([1], [], false));
    hide EncodeParts;
    assert PartsOfMembers(abi, fields, v, 2, true, false) == Some(Parts([], [], false));
    assert PartsOfMembers(abi, fields, v, 1, true, false) == Some(Parts([2], [], false));
  }
}
