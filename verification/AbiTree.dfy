/** The encoder of value trees: a loop over an explicit stack. */
module AbiTree {
  import opened Basics
  import opened Options
  import opened ByteStrings
  import opened AbiSpec

  datatype Entry = Entry(t: TypeId, allow: bool, value: Json, position: int)

  // ----- what is left to do -----

  ghost predicate EntryOk(abi: Abi, e: Entry) {
    && Known(abi, e.t)
    && match abi.defs[e.t]
       case StructOf(fields) => e.value.Obj? && -1 <= e.position < |fields|
       case ArrayOf(_) => e.value.Arr? && -1 <= e.position < |e.value.items|
       case VariantOf(_) => e.value.Arr? && |e.value.items| == 2 && e.value.items[0].Text? && 0 <= e.position <= 1
       case _ => false
  }

  ghost predicate StackOk(abi: Abi, stack: seq<Entry>) {
    forall i :: 0 <= i < |stack| ==> EntryOk(abi, stack[i])
  }

  /** The encoding of what an entry has not done yet. */
  ghost function RestOf(abi: Abi, e: Entry, skipped: bool): Option<Out>
    requires Resolved(abi) && EntryOk(abi, e)
  {
    assert DefOk(abi, abi.defs[e.t]);
    match abi.defs[e.t]
    case StructOf(fields) => EncodeFields(abi, fields, e.value, e.position + 1, e.allow, skipped)
    case ArrayOf(u) => EncodeItems(abi, u, e.value, e.position + 1, skipped)
    case VariantOf(fields) =>
      if e.position == 1 then Some(Out([], skipped)) else Encode(abi, e.t, e.value, e.allow, skipped)
  }

  /** A first part, then the rest of the stack from the top down. */
  ghost function Onto(abi: Abi, first: Option<Out>, stack: seq<Entry>): Option<Bytes>
    requires Resolved(abi) && StackOk(abi, stack)
    decreases |stack|, 1
  {
    if first.None? then None
    else
      var r := Rest(abi, stack, first.value.skipped);
      if r.None? then None else Some(first.value.bytes + r.value)
  }

  ghost function Rest(abi: Abi, stack: seq<Entry>, skipped: bool): Option<Bytes>
    requires Resolved(abi) && StackOk(abi, stack)
    decreases |stack|, 0
  {
    if stack == [] then Some([])
    else Onto(abi, RestOf(abi, stack[|stack| - 1], skipped), stack[..|stack| - 1])
  }

  ghost function Whole(writer: Bytes, rest: Option<Bytes>): Option<Bytes> {
    if rest.None? then None else Some(writer + rest.value)
  }

  /** Bytes written are bytes that are no longer to come. */
  lemma Written(abi: Abi, writer: Bytes, b: Bytes, r: Option<Out>, stack: seq<Entry>)
    requires Resolved(abi) && StackOk(abi, stack)
    ensures Whole(writer + b, Onto(abi, r, stack)) == Whole(writer, Onto(abi, Prefix(b, r), stack))
  {
    if r.Some? {
      var rest := Rest(abi, stack, r.value.skipped);
      if rest.Some? {
        var x, y := r.value.bytes, rest.value;
        assert writer + b + (x + y) == writer + (b + x + y);
      }
    }
  }

  lemma Pushed(abi: Abi, stack: seq<Entry>, e: Entry, skipped: bool)
    requires Resolved(abi) && StackOk(abi, stack) && EntryOk(abi, e)
    ensures StackOk(abi, stack + [e]) && Rest(abi, stack + [e], skipped) == Onto(abi, RestOf(abi, e, skipped), stack)
  {
    assert (stack + [e])[..|stack|] == stack;
  }

  /** A first part, then what an entry has left. */
  ghost function Before(abi: Abi, first: Option<Out>, e: Entry): Option<Out>
    requires Resolved(abi) && EntryOk(abi, e)
  {
    if first.None? then None else Prefix(first.value.bytes, RestOf(abi, e, first.value.skipped))
  }

  lemma OntoPushed(abi: Abi, first: Option<Out>, stack: seq<Entry>, e: Entry)
    requires Resolved(abi) && StackOk(abi, stack) && EntryOk(abi, e)
    ensures StackOk(abi, stack + [e]) && Onto(abi, first, stack + [e]) == Onto(abi, Before(abi, first, e), stack)
  {
    if first.Some? {
      Pushed(abi, stack, e, first.value.skipped);
      var r := RestOf(abi, e, first.value.skipped);
      if r.Some? && Rest(abi, stack, r.value.skipped).Some? {
        var x, y, z := first.value.bytes, r.value.bytes, Rest(abi, stack, r.value.skipped).value;
        assert x + (y + z) == x + y + z;
      }
    }
  }

  lemma NothingFirst(abi: Abi, stack: seq<Entry>, skipped: bool)
    requires Resolved(abi) && StackOk(abi, stack)
    ensures Onto(abi, Some(Out([], skipped)), stack) == Rest(abi, stack, skipped)
  {
    var r := Rest(abi, stack, skipped);
    if r.Some? { assert [] + r.value == r.value; }
  }

  // ----- how many steps are left -----

  ghost function Work(abi: Abi, t: TypeId, v: Json): nat
    requires Resolved(abi) && Known(abi, t)
    decreases v, 1, Rank(abi, t)
  {
    assert DefOk(abi, abi.defs[t]);
    match abi.defs[t]
    case Builtin(_) => 0
    case OptionalOf(u) => Work(abi, u, v)
    case ExtensionOf(u) => Work(abi, u, v)
    case StructOf(fields) => if v.Obj? then WorkOfFields(abi, fields, v, 0) else 0
    case ArrayOf(u) => if v.Arr? then WorkOfItems(abi, u, v, 0) else 0
    case VariantOf(fields) =>
      var i := Alternative(fields, v);
      if i.Some? then 2 + Work(abi, fields[i.value].t, v.items[1]) else 2
  }

  ghost function WorkOfFields(abi: Abi, fields: seq<Field>, v: Json, i: nat): nat
    requires Resolved(abi) && FieldsKnown(abi, fields) && v.Obj? && i <= |fields|
    decreases v, 0, |fields| - i
  {
    if i == |fields| then 0
    else
      var m := Lookup(v.members, fields[i].name);
      (if m.Some? then Work(abi, fields[i].t, v.members[m.value].value) else 0) + 1 + WorkOfFields(abi, fields, v, i + 1)
  }

  ghost function WorkOfItems(abi: Abi, u: TypeId, v: Json, i: nat): nat
    requires Resolved(abi) && Known(abi, u) && v.Arr? && i <= |v.items|
    decreases v, 0, |v.items| - i
  {
    if i == |v.items| then 0 else Work(abi, u, v.items[i]) + 1 + WorkOfItems(abi, u, v, i + 1)
  }

  ghost function WorkLeft(abi: Abi, e: Entry): nat
    requires Resolved(abi) && EntryOk(abi, e)
  {
    assert DefOk(abi, abi.defs[e.t]);
    match abi.defs[e.t]
    case StructOf(fields) => 1 + WorkOfFields(abi, fields, e.value, e.position + 1)
    case ArrayOf(u) => 1 + WorkOfItems(abi, u, e.value, e.position + 1)
    case VariantOf(fields) => if e.position == 1 then 1 else Work(abi, e.t, e.value)
  }

  ghost function StackWork(abi: Abi, stack: seq<Entry>): nat
    requires Resolved(abi) && StackOk(abi, stack)
  {
    if stack == [] then 0 else WorkLeft(abi, stack[|stack| - 1]) + StackWork(abi, stack[..|stack| - 1])
  }

  lemma PushedWork(abi: Abi, stack: seq<Entry>, e: Entry)
    requires Resolved(abi) && StackOk(abi, stack) && EntryOk(abi, e)
    ensures StackOk(abi, stack + [e]) && StackWork(abi, stack + [e]) == WorkLeft(abi, e) + StackWork(abi, stack)
  {
    assert (stack + [e])[..|stack|] == stack;
  }

  // ----- the machine -----

  class JvalueToBin {
    const abi: Abi
    var writer: Bytes
    var received: Json
    var stack: seq<Entry>
    var skipped: bool

    constructor (abi: Abi, value: Json)
      ensures this.abi == abi && writer == [] && received == value && stack == [] && !skipped
    {
      this.abi, writer, received, stack, skipped := abi, [], value, [], false;
    }

    ghost predicate Valid()
      reads this
    {
      Resolved(abi) && StackOk(abi, stack)
    }

    /** All that will have been written in the end. */
    ghost function Result(): Option<Bytes>
      reads this
      requires Valid()
    {
      Whole(writer, Rest(abi, stack, skipped))
    }

    /** Encodes the received value, or as much of it as comes before the first entry that
        has to wait on the stack. */
    method Start(allow: bool, t: TypeId) returns (ok: bool)
      requires Valid() && Known(abi, t)
      modifies this
      ensures ok ==> Valid() && Result() == Whole(old(writer), Onto(abi, Encode(abi, t, old(received), allow, old(skipped)), old(stack)))
      ensures ok ==> StackWork(abi, stack) <= old(StackWork(abi, stack)) + Work(abi, t, old(received))
      ensures !ok ==> Encode(abi, t, old(received), allow, old(skipped)).None?
      decreases received, 2, Rank(abi, t)
    {
      hide Onto, Rest, Whole, RestOf, StackWork, WorkLeft;
      assert DefOk(abi, abi.defs[t]);
      match abi.defs[t]
      case Builtin(kind) =>
        var b := Leaf(abi, kind, received);
        ok := b.Some?;
        if ok {
          Written(abi, writer, b.value, Some(Out([], skipped)), stack);
          NothingFirst(abi, stack, skipped);
          PlainPrefix(b.value, skipped);
          writer := writer + b.value;
        }
      case OptionalOf(u) =>
        if received.Null? {
          Written(abi, writer, [0], Some(Out([], skipped)), stack);
          NothingFirst(abi, stack, skipped);
          PlainPrefix([0], skipped);
          writer := writer + [0];
          ok := true;
        } else {
          Written(abi, writer, [1], Encode(abi, u, received, allow, skipped), stack);
          writer := writer + [1];
          ok := Start(allow, u);
        }
      case ExtensionOf(u) =>
        ok := Start(allow, u);
      case StructOf(fields) =>
        ok := received.Obj?;
        if ok {
          var e := Entry(t, allow, received, -1);
          StartsWhole(abi, e, skipped);
          Pushed(abi, stack, e, skipped);
          PushedWork(abi, stack, e);
          stack := stack + [e];
          ok := ContinueObject();
        }
      case ArrayOf(u) =>
        ok := received.Arr? && |received.items| < UINT32;
        if ok {
          var e := Entry(t, false, received, -1);
          StartsWhole(abi, e, skipped);
          Written(abi, writer, VarUInt(|received.items|), RestOf(abi, e, skipped), stack);
          Pushed(abi, stack, e, skipped);
          PushedWork(abi, stack, e);
          writer := writer + VarUInt(|received.items|);
          stack := stack + [e];
          ok := ContinueArray();
        }
      case VariantOf(fields) =>
        ok := received.Arr? && |received.items| == 2 && received.items[0].Text?;
        if ok {
          var e := Entry(t, allow, received, 0);
          StartsWhole(abi, e, skipped);
          Pushed(abi, stack, e, skipped);
          PushedWork(abi, stack, e);
          stack := stack + [e];
        }
    }

    ghost predicate TopIs(struct_: bool, array_: bool)
      reads this
      requires Valid()
    {
      stack != [] && var d := abi.defs[stack[|stack| - 1].t]; d.StructOf? == struct_ && d.ArrayOf? == array_
    }

    /** The object on top of the stack goes on to its next field. */
    method ContinueObject() returns (ok: bool)
      requires Valid() && TopIs(true, false)
      modifies this
      ensures ok ==> Valid() && Result() == old(Result()) && StackWork(abi, stack) < old(StackWork(abi, stack))
      ensures !ok ==> RestOf(abi, old(stack[|stack| - 1]), old(skipped)).None?
      decreases stack[|stack| - 1].value, 1, 0
    {
      hide Onto, Rest, Whole, RestOf, StackWork, WorkLeft;
      ghost var below := stack[..|stack| - 1];
      var e := stack[|stack| - 1];
      TopOf(abi, stack, skipped);
      var fields := abi.defs[e.t].fields;
      var next := e.(position := e.position + 1);
      FieldStep(abi, e, skipped);
      stack := stack[..|stack| - 1];
      if next.position == |fields| {
        NothingFirst(abi, stack, skipped);
        return true;
      }
      Pushed(abi, stack, next, skipped);
      PushedWork(abi, stack, next);
      stack := stack + [next];
      var field := fields[next.position];
      var it := Lookup(e.value.members, field.name);
      if it.None? {
        if IsExtension(abi, field.t) && e.allow {
          Pushed(abi, below, next, true);
          skipped := true;
          return true;
        }
        return false;
      }
      if skipped {
        return false;
      }
      received := e.value.members[it.value].value;
      OntoPushed(abi, Encode(abi, field.t, received, e.allow && next.position == |fields| - 1, skipped), below, next);
      ok := Start(e.allow && next.position == |fields| - 1, field.t);
    }

    method ContinueArray() returns (ok: bool)
      requires Valid() && TopIs(false, true)
      modifies this
      ensures ok ==> Valid() && Result() == old(Result()) && StackWork(abi, stack) < old(StackWork(abi, stack))
      ensures !ok ==> RestOf(abi, old(stack[|stack| - 1]), old(skipped)).None?
      decreases stack[|stack| - 1].value, 1, 0
    {
      hide Onto, Rest, Whole, RestOf, StackWork, WorkLeft;
      ghost var below := stack[..|stack| - 1];
      var e := stack[|stack| - 1];
      TopOf(abi, stack, skipped);
      var next := e.(position := e.position + 1);
      ItemStep(abi, e, skipped);
      stack := stack[..|stack| - 1];
      if next.position == |e.value.items| {
        NothingFirst(abi, stack, skipped);
        return true;
      }
      Pushed(abi, stack, next, skipped);
      PushedWork(abi, stack, next);
      stack := stack + [next];
      received := e.value.items[next.position];
      var u := abi.defs[e.t].t;
      OntoPushed(abi, Encode(abi, u, received, false, skipped), below, next);
      ok := Start(false, u);
    }

    method ContinueVariant() returns (ok: bool)
      requires Valid() && TopIs(false, false)
      modifies this
      ensures ok ==> Valid() && Result() == old(Result()) && StackWork(abi, stack) < old(StackWork(abi, stack))
      ensures !ok ==> RestOf(abi, old(stack[|stack| - 1]), old(skipped)).None?
      decreases stack[|stack| - 1].value, 1, 0
    {
      hide Onto, Rest, Whole, RestOf, StackWork, WorkLeft;
      ghost var below := stack[..|stack| - 1];
      var e := stack[|stack| - 1];
      TopOf(abi, stack, skipped);
      VariantStep(abi, e, skipped);
      if e.position == 0 {
        var fields := abi.defs[e.t].fields;
        var it := FindField(fields, e.value.items[0].s);
        if it.None? || it.value >= UINT32 {
          return false;
        }
        var next := e.(position := 1);
        received := e.value.items[1];
        OntoPushed(abi, Encode(abi, fields[it.value].t, received, e.allow, skipped), below, next);
        PushedWork(abi, below, next);
        Written(abi, writer, VarUInt(it.value), Before(abi, Encode(abi, fields[it.value].t, received, e.allow, skipped), next), below);
        writer := writer + VarUInt(it.value);
        stack := stack[..|stack| - 1] + [next];
        ok := Start(e.allow, fields[it.value].t);
      } else {
        stack := stack[..|stack| - 1];
        NothingFirst(abi, stack, skipped);
        ok := true;
      }
    }
  }

  /** json_to_bin for value trees: accepts what the recursion accepts, with the same bytes. */
  method JsonToBin(abi: Abi, t: TypeId, value: Json) returns (ok: bool, bin: Bytes)
    requires Resolved(abi) && Known(abi, t)
    ensures ok <==> Encode(abi, t, value, true, false).Some?
    ensures ok ==> bin == Encode(abi, t, value, true, false).value.bytes
  {
    var state := new JvalueToBin(abi, value);
    ghost var all := Encode(abi, t, value, true, false);
    OntoNothing(abi, all);
    bin := [];
    ok := state.Start(true, t);
    if !ok {
      return;
    }
    while state.stack != []
      invariant state.Valid() && state.abi == abi
      invariant state.Result() == if all.None? then None else Some(all.value.bytes)
      decreases StackWork(abi, state.stack)
    {
      TopFails(abi, state.stack, state.skipped);
      var d := abi.defs[state.stack[|state.stack| - 1].t];
      if d.StructOf? {
        ok := state.ContinueObject();
      } else if d.ArrayOf? {
        ok := state.ContinueArray();
      } else {
        ok := state.ContinueVariant();
      }
      if !ok {
        return;
      }
    }
    bin := state.writer;
  }

  lemma OntoNothing(abi: Abi, r: Option<Out>)
    requires Resolved(abi)
    ensures Whole([], Onto(abi, r, [])) == if r.None? then None else Some(r.value.bytes)
  {
    if r.Some? { assert [] + (r.value.bytes + []) == r.value.bytes; }
  }

  lemma TopFails(abi: Abi, stack: seq<Entry>, skipped: bool)
    requires Resolved(abi) && StackOk(abi, stack) && stack != []
    ensures RestOf(abi, stack[|stack| - 1], skipped).None? ==> Rest(abi, stack, skipped).None?
  {
  }

  lemma PlainPrefix(b: Bytes, skipped: bool)
    ensures Prefix(b, Some(Out([], skipped))) == Some(Out(b, skipped))
  {
    assert b + [] == b;
  }

  /** An entry that has just been made has everything left to do. */
  lemma StartsWhole(abi: Abi, e: Entry, skipped: bool)
    requires Resolved(abi) && EntryOk(abi, e) && e.position == if abi.defs[e.t].VariantOf? then 0 else -1
    ensures abi.defs[e.t].StructOf? ==> RestOf(abi, e, skipped) == Encode(abi, e.t, e.value, e.allow, skipped)
    ensures abi.defs[e.t].VariantOf? ==> RestOf(abi, e, skipped) == Encode(abi, e.t, e.value, e.allow, skipped)
    ensures abi.defs[e.t].ArrayOf? && |e.value.items| < UINT32 ==>
              Prefix(VarUInt(|e.value.items|), RestOf(abi, e, skipped)) == Encode(abi, e.t, e.value, e.allow, skipped)
    ensures WorkLeft(abi, e) == Work(abi, e.t, e.value) + if abi.defs[e.t].VariantOf? then 0 else 1
  {
  }

  lemma TopOf(abi: Abi, stack: seq<Entry>, skipped: bool)
    requires Resolved(abi) && StackOk(abi, stack) && stack != []
    ensures Rest(abi, stack, skipped) == Onto(abi, RestOf(abi, stack[|stack| - 1], skipped), stack[..|stack| - 1])
    ensures StackWork(abi, stack) == WorkLeft(abi, stack[|stack| - 1]) + StackWork(abi, stack[..|stack| - 1])
  {
  }

  /** What an object has left is its next field, then what it has left after that. */
  lemma FieldStep(abi: Abi, e: Entry, skipped: bool)
    requires Resolved(abi) && EntryOk(abi, e) && abi.defs[e.t].StructOf?
    ensures FieldsKnown(abi, abi.defs[e.t].fields)
    ensures var fields := abi.defs[e.t].fields;
            var next := e.(position := e.position + 1);
            if next.position == |fields| then RestOf(abi, e, skipped) == Some(Out([], skipped)) && WorkLeft(abi, e) == 1
            else
              EntryOk(abi, next) && var field, m := fields[next.position], Lookup(e.value.members, fields[next.position].name);
              if m.None? then
                WorkLeft(abi, next) < WorkLeft(abi, e)
                && RestOf(abi, e, skipped) == if IsExtension(abi, field.t) && e.allow then RestOf(abi, next, true) else None
              else
                var w := e.value.members[m.value].value;
                WorkLeft(abi, next) + Work(abi, field.t, w) < WorkLeft(abi, e)
                && RestOf(abi, e, skipped) ==
                     if skipped then None
                     else Before(abi, Encode(abi, field.t, w, e.allow && next.position == |fields| - 1, skipped), next)
  {
    assert DefOk(abi, abi.defs[e.t]);
  }

  lemma ItemStep(abi: Abi, e: Entry, skipped: bool)
    requires Resolved(abi) && EntryOk(abi, e) && abi.defs[e.t].ArrayOf?
    ensures Known(abi, abi.defs[e.t].t)
    ensures var u := abi.defs[e.t].t;
            var next := e.(position := e.position + 1);
            if next.position == |e.value.items| then RestOf(abi, e, skipped) == Some(Out([], skipped)) && WorkLeft(abi, e) == 1
            else
              EntryOk(abi, next) && WorkLeft(abi, next) + Work(abi, u, e.value.items[next.position]) < WorkLeft(abi, e)
              && RestOf(abi, e, skipped) == Before(abi, Encode(abi, u, e.value.items[next.position], false, skipped), next)
  {
    assert DefOk(abi, abi.defs[e.t]);
  }

  lemma VariantStep(abi: Abi, e: Entry, skipped: bool)
    requires Resolved(abi) && EntryOk(abi, e) && abi.defs[e.t].VariantOf?
    ensures FieldsKnown(abi, abi.defs[e.t].fields)
    ensures e.position == 1 ==> RestOf(abi, e, skipped) == Some(Out([], skipped)) && WorkLeft(abi, e) == 1
    ensures e.position == 0 ==>
              var fields := abi.defs[e.t].fields;
              var next := e.(position := 1);
              var it := FindField(fields, e.value.items[0].s);
              if it.None? || it.value >= UINT32 then RestOf(abi, e, skipped) == None
              else
                EntryOk(abi, next) && WorkLeft(abi, next) + Work(abi, fields[it.value].t, e.value.items[1]) < WorkLeft(abi, e)
                && RestOf(abi, e, skipped) ==
                     Prefix(VarUInt(it.value), Before(abi, Encode(abi, fields[it.value].t, e.value.items[1], e.allow, skipped), next))
  {
    assert DefOk(abi, abi.defs[e.t]);
    if e.position == 0 {
      var it := FindField(abi.defs[e.t].fields, e.value.items[0].s);
      if it.Some? && it.value < UINT32 {
        var r := Encode(abi, abi.defs[e.t].fields[it.value].t, e.value.items[1], e.allow, skipped);
        if r.Some? { assert r.value.bytes + [] == r.value.bytes; }
      }
    }
  }
}
