/** The decoder: a loop over an explicit stack that writes the JSON text as it reads. */
module AbiReader {
  import opened Basics
  import opened Options
  import opened ByteStrings
  import opened AbiSpec
  import opened AbiDecode
  import opened JsonTokens

  datatype Frame = Frame(t: TypeId, allow: bool, position: int, arraySize: nat)

  /** What is written, and what is left of the input. */
  datatype Written = Written(tokens: seq<Token>, rest: Bytes)

  function Put(tokens: seq<Token>, r: Option<Written>): Option<Written> {
    if r.None? then None else Some(Written(tokens + r.value.tokens, r.value.rest))
  }

  ghost predicate FrameOk(abi: Abi, f: Frame) {
    && Known(abi, f.t)
    && match abi.defs[f.t]
       case StructOf(fields) => -1 <= f.position < |fields|
       case ArrayOf(_) => -1 <= f.position && (f.position < f.arraySize || f.position == -1) && f.arraySize <= 5 * UINT32
       case VariantOf(_) => -1 <= f.position <= 0
       case _ => false
  }

  ghost predicate StackOk(abi: Abi, stack: seq<Frame>) {
    forall i :: 0 <= i < |stack| ==> FrameOk(abi, stack[i])
  }

  /** What a frame, with room for `room` more above it, still writes. */
  ghost function RestOf(abi: Abi, f: Frame, bin: Bytes, room: nat): Option<Written>
    requires Resolved(abi) && FrameOk(abi, f)
  {
    assert DefOk(abi, abi.defs[f.t]);
    match abi.defs[f.t]
    case StructOf(fields) =>
      var r := DecodeFields(abi, fields, f.position + 1, bin, f.allow, room);
      if r.None? then None else Some(Written(MemberTokens(Obj(r.value.members), 0), r.value.rest))
    case ArrayOf(u) =>
      var r := DecodeItems(abi, u, f.arraySize - (f.position + 1), bin, room);
      if r.None? then None else Some(Written(ItemTokens(Arr(r.value.items), 0), r.value.rest))
    case VariantOf(fields) =>
      if f.position == 0 then Some(Written([EndArray], bin))
      else
        var i := VarUIntFrom(bin, 0);
        if i.None? || i.value.value >= |fields| then None
        else
          var g := fields[i.value.value];
          var r := Decode(abi, g.t, i.value.rest, f.allow, room);
          if r.None? then None else Some(Written([StringToken(g.name)] + Tokens(r.value.v) + [EndArray], r.value.rest))
  }

  ghost function Onto(abi: Abi, first: Option<Written>, stack: seq<Frame>): Option<Written>
    requires Resolved(abi) && StackOk(abi, stack) && |stack| <= MAX_STACK_SIZE
    decreases |stack|, 1
  {
    if first.None? then None else Put(first.value.tokens, Rest(abi, stack, first.value.rest))
  }

  ghost function Rest(abi: Abi, stack: seq<Frame>, bin: Bytes): Option<Written>
    requires Resolved(abi) && StackOk(abi, stack) && |stack| <= MAX_STACK_SIZE
    decreases |stack|, 0
  {
    if stack == [] then Some(Written([], bin))
    else
      var n := |stack| - 1;
      Onto(abi, RestOf(abi, stack[n], bin, MAX_STACK_SIZE - |stack|), stack[..n])
  }

  lemma PutNone(a: seq<Token>)
    ensures Put(a, None).None?
  {
  }

  /** A decoded value as what is written for it. */
  ghost function Value(r: Option<Decoded>): Option<Written> {
    if r.None? then None else Some(Written(Tokens(r.value.v), r.value.rest))
  }

  lemma PutPut(a: seq<Token>, b: seq<Token>, r: Option<Written>)
    ensures Put(a, Put(b, r)) == Put(a + b, r)
  {
    if r.Some? { assert a + (b + r.value.tokens) == a + b + r.value.tokens; }
  }

  lemma PutNothing(r: Option<Written>)
    ensures Put([], r) == r
  {
    if r.Some? { assert [] + r.value.tokens == r.value.tokens; }
  }

  /** Tokens written are tokens that are no longer to come. */
  lemma Output(abi: Abi, out: seq<Token>, tokens: seq<Token>, r: Option<Written>, stack: seq<Frame>)
    requires Resolved(abi) && StackOk(abi, stack) && |stack| <= MAX_STACK_SIZE
    ensures Put(out + tokens, Onto(abi, r, stack)) == Put(out, Onto(abi, Put(tokens, r), stack))
  {
    if r.Some? {
      PutPut(out, tokens, Onto(abi, r, stack));
      PutPut(tokens, r.value.tokens, Rest(abi, stack, r.value.rest));
    }
  }

  lemma Pushed(abi: Abi, stack: seq<Frame>, f: Frame, bin: Bytes)
    requires Resolved(abi) && StackOk(abi, stack) && FrameOk(abi, f) && |stack| < MAX_STACK_SIZE
    ensures StackOk(abi, stack + [f])
    ensures Rest(abi, stack + [f], bin) == Onto(abi, RestOf(abi, f, bin, MAX_STACK_SIZE - |stack| - 1), stack)
  {
    assert (stack + [f])[..|stack|] == stack;
  }

  lemma NothingFirst(abi: Abi, stack: seq<Frame>, bin: Bytes)
    requires Resolved(abi) && StackOk(abi, stack) && |stack| <= MAX_STACK_SIZE
    ensures Onto(abi, Some(Written([], bin)), stack) == Rest(abi, stack, bin)
  {
    PutNothing(Rest(abi, stack, bin));
  }

  /** A first part, then what a frame still writes. */
  ghost function Before(abi: Abi, first: Option<Written>, f: Frame, room: nat): Option<Written>
    requires Resolved(abi) && FrameOk(abi, f)
  {
    if first.None? then None else Put(first.value.tokens, RestOf(abi, f, first.value.rest, room))
  }

  lemma OntoPushed(abi: Abi, first: Option<Written>, stack: seq<Frame>, f: Frame)
    requires Resolved(abi) && StackOk(abi, stack) && FrameOk(abi, f) && |stack| < MAX_STACK_SIZE
    ensures StackOk(abi, stack + [f])
    ensures Onto(abi, first, stack + [f]) == Onto(abi, Before(abi, first, f, MAX_STACK_SIZE - |stack| - 1), stack)
    ensures first.None? ==> Before(abi, first, f, MAX_STACK_SIZE - |stack| - 1).None?
  {
    if first.Some? {
      Pushed(abi, stack, f, first.value.rest);
      var r := RestOf(abi, f, first.value.rest, MAX_STACK_SIZE - |stack| - 1);
      if r.Some? { PutPut(first.value.tokens, r.value.tokens, Rest(abi, stack, r.value.rest)); }
    }
  }

  // ----- tokens of lists -----

  lemma {:induction false} MemberTokensTail(m: Member, ms: seq<Member>, i: nat)
    requires i <= |ms|
    ensures MemberTokens(Obj([m] + ms), i + 1) == MemberTokens(Obj(ms), i)
    decreases |ms| - i
  {
    if i < |ms| {
      assert ([m] + ms)[i + 1] == ms[i];
      MemberTokensTail(m, ms, i + 1);
    }
  }

  lemma {:induction false} ItemTokensTail(x: Json, xs: seq<Json>, i: nat)
    requires i <= |xs|
    ensures ItemTokens(Arr([x] + xs), i + 1) == ItemTokens(Arr(xs), i)
    decreases |xs| - i
  {
    if i < |xs| {
      assert ([x] + xs)[i + 1] == xs[i];
      ItemTokensTail(x, xs, i + 1);
    }
  }

  // ----- why it ends -----

  ghost function FieldCount(defs: seq<Def>): nat {
    if defs == [] then 0
    else (if defs[0].StructOf? then |defs[0].fields| else 0) + FieldCount(defs[1..])
  }

  lemma {:induction false} FieldCountBounds(defs: seq<Def>, t: nat)
    requires t < |defs| && defs[t].StructOf?
    ensures |defs[t].fields| <= FieldCount(defs)
  {
    if t > 0 {
      assert defs[1..][t - 1] == defs[t];
      FieldCountBounds(defs[1..], t - 1);
    }
  }

  /** More than any frame has left. */
  ghost function Base(abi: Abi): nat { FieldCount(abi.defs) + 5 * UINT32 + 3 }

  ghost function Left(abi: Abi, f: Frame): nat
    requires FrameOk(abi, f)
  {
    match abi.defs[f.t]
    case StructOf(fields) => |fields| - f.position
    case ArrayOf(_) => if f.arraySize == 0 then 1 else f.arraySize - f.position
    case VariantOf(_) => 1 - f.position
  }

  lemma LeftBounds(abi: Abi, f: Frame)
    requires FrameOk(abi, f)
    ensures 0 < Left(abi, f) < Base(abi)
  {
    if abi.defs[f.t].StructOf? { FieldCountBounds(abi.defs, f.t); }
  }

  /** Frames lower in the stack weigh more than all that can be above them. */
  ghost function Weight(abi: Abi, stack: seq<Frame>): nat
    requires StackOk(abi, stack) && |stack| <= MAX_STACK_SIZE
  {
    if stack == [] then 0
    else
      var n := |stack| - 1;
      Weight(abi, stack[..n]) + Left(abi, stack[n]) * Power(Base(abi), MAX_STACK_SIZE - n)
  }

  lemma {:induction false} WeightPushed(abi: Abi, stack: seq<Frame>, f: Frame)
    requires StackOk(abi, stack) && FrameOk(abi, f) && |stack| < MAX_STACK_SIZE
    ensures StackOk(abi, stack + [f])
    ensures Weight(abi, stack + [f]) == Weight(abi, stack) + Left(abi, f) * Power(Base(abi), MAX_STACK_SIZE - |stack|)
  {
    assert (stack + [f])[..|stack|] == stack;
  }

  lemma LessWeight(a: nat, b: nat, p: nat)
    requires a < b && p > 0
    ensures a * p + p <= b * p
  {
    assert (b - a - 1) * p >= 0;
    assert (b - a - 1) * p == b * p - a * p - p;
  }

  /** A frame that has less left, even with a new frame above it, weighs less. */
  lemma WeightDrops(abi: Abi, below: seq<Frame>, f: Frame, next: Frame, above: seq<Frame>)
    requires StackOk(abi, below) && FrameOk(abi, f) && FrameOk(abi, next) && Left(abi, next) < Left(abi, f)
    requires |above| <= 1 && |below| + 1 + |above| <= MAX_STACK_SIZE && StackOk(abi, above)
    ensures StackOk(abi, below + [f]) && StackOk(abi, below + [next] + above)
    ensures Weight(abi, below + [next] + above) < Weight(abi, below + [f])
  {
    WeightPushed(abi, below, f);
    WeightPushed(abi, below, next);
    var b, n := Base(abi), MAX_STACK_SIZE - |below|;
    LessWeight(Left(abi, next), Left(abi, f), Power(b, n));
    if above == [] {
      assert below + [next] + above == below + [next];
    } else {
      var g := above[0];
      assert above == [g];
      WeightPushed(abi, below + [next], g);
      LeftBounds(abi, g);
      LessWeight(Left(abi, g), b, Power(b, n - 1));
    }
  }

  lemma WeightPopped(abi: Abi, below: seq<Frame>, f: Frame)
    requires StackOk(abi, below) && FrameOk(abi, f) && |below| < MAX_STACK_SIZE
    ensures StackOk(abi, below + [f]) && Weight(abi, below) < Weight(abi, below + [f])
  {
    WeightPushed(abi, below, f);
    var p := Power(Base(abi), MAX_STACK_SIZE - |below|);
    LeftBounds(abi, f);
    LessWeight(0, Left(abi, f), p);
  }

  // ----- the machine -----

  class BinToJson {
    const abi: Abi
    var bin: Bytes
    var out: seq<Token>
    var stack: seq<Frame>

    constructor (abi: Abi, bin: Bytes)
      ensures this.abi == abi && this.bin == bin && out == [] && stack == []
    {
      this.abi, this.bin, out, stack := abi, bin, [], [];
    }

    ghost predicate Valid()
      reads this
    {
      Resolved(abi) && StackOk(abi, stack)
    }

    /** All that will have been written, and what will be left of the input. */
    ghost function Result(): Option<Written>
      reads this
      requires Valid() && |stack| <= MAX_STACK_SIZE
    {
      Put(out, Rest(abi, stack, bin))
    }

    /** Reads a value of type `t`, or as much of it as comes before the first frame. */
    method Start(allow: bool, t: TypeId) returns (ok: bool)
      requires Valid() && Known(abi, t) && |stack| <= MAX_STACK_SIZE
      modifies this
      ensures ok ==> Valid() && |old(stack)| <= |stack| <= |old(stack)| + 1 && stack[..|old(stack)|] == old(stack)
      ensures ok && |stack| <= MAX_STACK_SIZE ==>
                Result() == Put(old(out), Onto(abi, Value(Decode(abi, t, old(bin), allow, MAX_STACK_SIZE - |old(stack)|)), old(stack)))
      ensures !ok || |stack| > MAX_STACK_SIZE ==> Decode(abi, t, old(bin), allow, MAX_STACK_SIZE - |old(stack)|).None?
      decreases Rank(abi, t)
    {
      hide Onto, Rest, RestOf, Put, Tokens;
      assert DefOk(abi, abi.defs[t]);
      ghost var room := MAX_STACK_SIZE - |stack|;
      match abi.defs[t]
      case Builtin(kind) =>
        var r := Unleaf(abi, kind, bin);
        ok := r.Some?;
        if ok {
          PlainOutput(abi, out, r.value.0, r.value.1, stack);
          out := out + Tokens(r.value.0);
          bin := r.value.1;
        }
      case OptionalOf(u) =>
        if bin == [] {
          return false;
        }
        var present := bin[0] != 0;
        bin := bin[1..];
        if present {
          ok := Start(allow, u);
        } else {
          PlainOutput(abi, out, Null, bin, stack);
          NullTokens();
          out := out + [NullToken];
          ok := true;
        }
      case ExtensionOf(u) =>
        ok := Start(allow, u);
      case StructOf(fields) =>
        var f := Frame(t, allow, -1, 0);
        OpensObject(abi, f, bin, allow, room);
        if |stack| < MAX_STACK_SIZE {
          Output(abi, out, [StartObject], RestOf(abi, f, bin, room - 1), stack);
          Pushed(abi, stack, f, bin);
        }
        stack := stack + [f];
        out := out + [StartObject];
        ok := true;
      case ArrayOf(u) =>
        OpensArray(abi, t, bin, allow, room);
        var n := VarUIntFrom(bin, 0);
        if n.None? {
          return false;
        }
        var f := Frame(t, false, -1, n.value.value);
        if |stack| < MAX_STACK_SIZE {
          Output(abi, out, [StartArray], RestOf(abi, f, n.value.rest, room - 1), stack);
          Pushed(abi, stack, f, n.value.rest);
        }
        bin := n.value.rest;
        stack := stack + [f];
        out := out + [StartArray];
        ok := true;
      case VariantOf(fields) =>
        var f := Frame(t, allow, -1, 0);
        OpensVariant(abi, f, bin, allow, room);
        if |stack| < MAX_STACK_SIZE {
          Output(abi, out, [StartArray], RestOf(abi, f, bin, room - 1), stack);
          Pushed(abi, stack, f, bin);
        }
        stack := stack + [f];
        out := out + [StartArray];
        ok := true;
    }

    method ContinueObject() returns (ok: bool)
      requires Valid() && 0 < |stack| <= MAX_STACK_SIZE && abi.defs[stack[|stack| - 1].t].StructOf?
      modifies this
      ensures ok ==> Valid()
      ensures ok && |stack| <= MAX_STACK_SIZE ==> Result() == old(Result()) && Weight(abi, stack) < old(Weight(abi, stack))
      ensures !ok || |stack| > MAX_STACK_SIZE ==> RestOf(abi, old(stack[|stack| - 1]), old(bin), MAX_STACK_SIZE - |old(stack)|).None?
    {
      hide Onto, Rest, RestOf, Put, Tokens, Weight, Left, Before, Decode, DecodeFields, DecodeItems, MemberTokens, ItemTokens, Value;
      var n := |stack| - 1;
      var f := stack[n];
      ghost var below, room := stack[..n], MAX_STACK_SIZE - |stack|;
      TopOf(abi, stack, bin);
      WeightTop(abi, stack);
      ObjectStep(abi, f, bin, room);
      var fields := abi.defs[f.t].fields;
      var next := f.(position := f.position + 1);
      if next.position < |fields| {
        var field := fields[next.position];
        stack := stack[..n] + [next];
        Pushed(abi, below, next, bin);
        WeightDrops(abi, below, f, next, []);
        assert below + [next] + [] == below + [next];
        if bin == [] && IsExtension(abi, field.t) && f.allow {
          return true;
        }
        var last := f.allow && next.position == |fields| - 1;
        ghost var first := Value(Decode(abi, field.t, bin, last, room));
        PutNone([KeyToken(field.name)]);
        Output(abi, out, [KeyToken(field.name)], Before(abi, first, next, room), below);
        OntoPushed(abi, first, below, next);
        out := out + [KeyToken(field.name)];
        label before:
        ok := Start(last, field.t);
        if ok && |stack| <= MAX_STACK_SIZE { Above(abi, below, f, next, old@before(stack), stack); }
        FirstFails(abi, first, Decode(abi, field.t, old(bin), last, room));
      } else {
        stack := stack[..n];
        Output(abi, out, [EndObject], Some(Written([], bin)), below);
        NothingFirst(abi, below, bin);
        PlainPut([EndObject], bin);
        out := out + [EndObject];
        WeightPopped(abi, below, f);
        ok := true;
      }
    }

    method ContinueArray() returns (ok: bool)
      requires Valid() && 0 < |stack| <= MAX_STACK_SIZE && abi.defs[stack[|stack| - 1].t].ArrayOf?
      modifies this
      ensures ok ==> Valid()
      ensures ok && |stack| <= MAX_STACK_SIZE ==> Result() == old(Result()) && Weight(abi, stack) < old(Weight(abi, stack))
      ensures !ok || |stack| > MAX_STACK_SIZE ==> RestOf(abi, old(stack[|stack| - 1]), old(bin), MAX_STACK_SIZE - |old(stack)|).None?
    {
      hide Onto, Rest, RestOf, Put, Tokens, Weight, Left, Before, Decode, DecodeFields, DecodeItems, MemberTokens, ItemTokens, Value;
      var n := |stack| - 1;
      var f := stack[n];
      ghost var below, room := stack[..n], MAX_STACK_SIZE - |stack|;
      TopOf(abi, stack, bin);
      WeightTop(abi, stack);
      ItemStep(abi, f, bin, room);
      var next := f.(position := f.position + 1);
      if next.position < f.arraySize {
        var u := abi.defs[f.t].t;
        stack := stack[..n] + [next];
        ghost var first := Value(Decode(abi, u, bin, false, room));
        OntoPushed(abi, first, below, next);
        label before:
        ok := Start(false, u);
        if ok && |stack| <= MAX_STACK_SIZE { Above(abi, below, f, next, old@before(stack), stack); }
        FirstFails(abi, first, Decode(abi, u, old(bin), false, room));
      } else {
        stack := stack[..n];
        Output(abi, out, [EndArray], Some(Written([], bin)), below);
        NothingFirst(abi, below, bin);
        PlainPut([EndArray], bin);
        out := out + [EndArray];
        WeightPopped(abi, below, f);
        ok := true;
      }
    }

    method ContinueVariant() returns (ok: bool)
      requires Valid() && 0 < |stack| <= MAX_STACK_SIZE && abi.defs[stack[|stack| - 1].t].VariantOf?
      modifies this
      ensures ok ==> Valid()
      ensures ok && |stack| <= MAX_STACK_SIZE ==> Result() == old(Result()) && Weight(abi, stack) < old(Weight(abi, stack))
      ensures !ok || |stack| > MAX_STACK_SIZE ==> RestOf(abi, old(stack[|stack| - 1]), old(bin), MAX_STACK_SIZE - |old(stack)|).None?
    {
      hide Onto, Rest, RestOf, Put, Tokens, Weight, Left, Before, Decode, DecodeFields, DecodeItems, MemberTokens, ItemTokens, Value;
      var n := |stack| - 1;
      var f := stack[n];
      ghost var below, room := stack[..n], MAX_STACK_SIZE - |stack|;
      TopOf(abi, stack, bin);
      WeightTop(abi, stack);
      VariantStep(abi, f, bin, room);
      var next := f.(position := f.position + 1);
      if next.position == 0 {
        var index := VarUIntFrom(bin, 0);
        var fields := abi.defs[f.t].fields;
        if index.None? || index.value.value >= |fields| {
          return false;
        }
        var g := fields[index.value.value];
        stack := stack[..n] + [next];
        bin := index.value.rest;
        ghost var first := Value(Decode(abi, g.t, bin, f.allow, room));
        PutNone([StringToken(g.name)]);
        Output(abi, out, [StringToken(g.name)], Before(abi, first, next, room), below);
        OntoPushed(abi, first, below, next);
        out := out + [StringToken(g.name)];
        label before:
        ok := Start(f.allow, g.t);
        if ok && |stack| <= MAX_STACK_SIZE { Above(abi, below, f, next, old@before(stack), stack); }
        FirstFails(abi, first, Decode(abi, g.t, old@before(bin), f.allow, room));
      } else {
        stack := stack[..n];
        Output(abi, out, [EndArray], Some(Written([], bin)), below);
        NothingFirst(abi, below, bin);
        PlainPut([EndArray], bin);
        out := out + [EndArray];
        WeightPopped(abi, below, f);
        ok := true;
      }
    }
  }

  /** bin_to_json: reads what the recursion reads and writes the tokens of the value. */
  method BinToTokens(abi: Abi, t: TypeId, bin: Bytes) returns (ok: bool, dest: seq<Token>, rest: Bytes)
    requires Resolved(abi) && Known(abi, t)
    ensures ok <==> Decode(abi, t, bin, true, MAX_STACK_SIZE).Some?
    ensures ok ==> var d := Decode(abi, t, bin, true, MAX_STACK_SIZE).value; dest == Tokens(d.v) && rest == d.rest
  {
    var state := new BinToJson(abi, bin);
    ghost var all := Decode(abi, t, bin, true, MAX_STACK_SIZE);
    Beginning(abi, all);
    dest, rest := [], [];
    ok := state.Start(true, t);
    if !ok {
      return;
    }
    while state.stack != []
      invariant ok && state.Valid() && state.abi == abi && |state.stack| <= MAX_STACK_SIZE
      invariant state.Result() == Value(all)
      decreases Weight(abi, state.stack)
    {
      TopFails(abi, state.stack, state.bin, state.out);
      var d := abi.defs[state.stack[|state.stack| - 1].t];
      if d.StructOf? {
        ok := state.ContinueObject();
      } else if d.ArrayOf? {
        ok := state.ContinueArray();
      } else {
        ok := state.ContinueVariant();
      }
      if !ok || |state.stack| > MAX_STACK_SIZE {
        return false, [], [];
      }
    }
    dest, rest := state.out, state.bin;
    assert dest + [] == dest;
  }

  lemma NullTokens()
    ensures Tokens(Null) == [NullToken]
  {
  }

  lemma PlainOutput(abi: Abi, out: seq<Token>, v: Json, rest: Bytes, stack: seq<Frame>)
    requires Resolved(abi) && StackOk(abi, stack) && |stack| <= MAX_STACK_SIZE
    ensures Put(out + Tokens(v), Rest(abi, stack, rest)) == Put(out, Onto(abi, Value(Some(Decoded(v, rest))), stack))
  {
    Output(abi, out, Tokens(v), Some(Written([], rest)), stack);
    NothingFirst(abi, stack, rest);
    assert Tokens(v) + [] == Tokens(v);
  }

  lemma OpensObject(abi: Abi, f: Frame, bin: Bytes, allow: bool, room: nat)
    requires Resolved(abi) && Known(abi, f.t) && abi.defs[f.t].StructOf? && f == Frame(f.t, allow, -1, 0)
    ensures FrameOk(abi, f)
    ensures room == 0 ==> Decode(abi, f.t, bin, allow, room).None?
    ensures room > 0 ==> Value(Decode(abi, f.t, bin, allow, room)) == Put([StartObject], RestOf(abi, f, bin, room - 1))
  {
    assert DefOk(abi, abi.defs[f.t]);
  }

  lemma OpensArray(abi: Abi, t: TypeId, bin: Bytes, allow: bool, room: nat)
    requires Resolved(abi) && Known(abi, t) && abi.defs[t].ArrayOf?
    ensures var n := VarUIntFrom(bin, 0);
            if n.None? || room == 0 then Decode(abi, t, bin, allow, room).None?
            else
              var f := Frame(t, false, -1, n.value.value);
              FrameOk(abi, f) && Value(Decode(abi, t, bin, allow, room)) == Put([StartArray], RestOf(abi, f, n.value.rest, room - 1))
    ensures VarUIntFrom(bin, 0).Some? ==> FrameOk(abi, Frame(t, false, -1, VarUIntFrom(bin, 0).value.value))
  {
    assert DefOk(abi, abi.defs[t]);
    VarUIntBound(bin, 0);
  }

  lemma {:induction false} VarUIntBound(bin: Bytes, k: nat)
    requires k <= 5
    ensures var n := VarUIntFrom(bin, k); n.Some? ==> n.value.value <= (5 - k) * UINT32
    decreases |bin|
  {
    if k < 5 && bin != [] && bin[0] >= 128 { VarUIntBound(bin[1..], k + 1); }
  }

  lemma OpensVariant(abi: Abi, f: Frame, bin: Bytes, allow: bool, room: nat)
    requires Resolved(abi) && Known(abi, f.t) && abi.defs[f.t].VariantOf? && f == Frame(f.t, allow, -1, 0)
    ensures FrameOk(abi, f)
    ensures room == 0 ==> Decode(abi, f.t, bin, allow, room).None?
    ensures room > 0 ==> Value(Decode(abi, f.t, bin, allow, room)) == Put([StartArray], RestOf(abi, f, bin, room - 1))
  {
    assert DefOk(abi, abi.defs[f.t]);
    var fields, i := abi.defs[f.t].fields, VarUIntFrom(bin, 0);
    if room > 0 && i.Some? && i.value.value < |fields| {
      var r := Decode(abi, fields[i.value.value].t, i.value.rest, allow, room - 1);
      if r.Some? { PairTokens(fields[i.value.value].name, r.value.v); }
    }
  }

  lemma PairTokens(name: string, v: Json)
    ensures Tokens(Arr([Text(name), v])) == [StartArray] + ([StringToken(name)] + Tokens(v) + [EndArray])
  {
    var p := Arr([Text(name), v]);
    assert ItemTokens(p, 2) == [EndArray];
    assert ItemTokens(p, 1) == Tokens(v) + [EndArray];
    assert ItemTokens(p, 0) == Tokens(Text(name)) + (Tokens(v) + [EndArray]);
  }

  lemma Beginning(abi: Abi, r: Option<Decoded>)
    requires Resolved(abi)
    ensures Put([], Onto(abi, Value(r), [])) == Value(r)
  {
    if r.Some? { assert [] + (Tokens(r.value.v) + []) == Tokens(r.value.v); }
  }

  lemma TopFails(abi: Abi, stack: seq<Frame>, bin: Bytes, out: seq<Token>)
    requires Resolved(abi) && StackOk(abi, stack) && 0 < |stack| <= MAX_STACK_SIZE
    ensures RestOf(abi, stack[|stack| - 1], bin, MAX_STACK_SIZE - |stack|).None? ==> Put(out, Rest(abi, stack, bin)).None?
  {
  }

  lemma TopOf(abi: Abi, stack: seq<Frame>, bin: Bytes)
    requires Resolved(abi) && StackOk(abi, stack) && 0 < |stack| <= MAX_STACK_SIZE
    ensures var n := |stack| - 1;
            Rest(abi, stack, bin) == Onto(abi, RestOf(abi, stack[n], bin, MAX_STACK_SIZE - |stack|), stack[..n])
  {
  }

  lemma WeightTop(abi: Abi, stack: seq<Frame>)
    requires StackOk(abi, stack) && stack != []
    ensures stack == stack[..|stack| - 1] + [stack[|stack| - 1]]
  {
  }

  lemma PlainPut(tokens: seq<Token>, bin: Bytes)
    ensures Put(tokens, Some(Written([], bin))) == Some(Written(tokens, bin))
  {
    assert tokens + [] == tokens;
  }

  lemma FirstFails(abi: Abi, first: Option<Written>, r: Option<Decoded>)
    requires first == Value(r)
    ensures r.None? ==> first.None?
  {
  }

  /** At most one frame was put above the one that has moved on. */
  lemma Above(abi: Abi, below: seq<Frame>, f: Frame, next: Frame, before: seq<Frame>, after: seq<Frame>)
    requires StackOk(abi, below) && FrameOk(abi, f) && FrameOk(abi, next) && Left(abi, next) < Left(abi, f) && StackOk(abi, after)
    requires before == below + [next] && |before| <= |after| <= |before| + 1 && |after| <= MAX_STACK_SIZE && after[..|before|] == before
    ensures StackOk(abi, below + [f]) && Weight(abi, after) < Weight(abi, below + [f])
  {
    var above := after[|before|..];
    assert after == below + [next] + above;
    WeightDrops(abi, below, f, next, above);
  }

  lemma ObjectStep(abi: Abi, f: Frame, bin: Bytes, room: nat)
    requires Resolved(abi) && FrameOk(abi, f) && abi.defs[f.t].StructOf?
    ensures FieldsKnown(abi, abi.defs[f.t].fields)
    ensures var fields := abi.defs[f.t].fields;
            var next := f.(position := f.position + 1);
            if next.position == |fields| then RestOf(abi, f, bin, room) == Some(Written([EndObject], bin))
            else
              var field := fields[next.position];
              && FrameOk(abi, next) && Left(abi, next) < Left(abi, f)
              && RestOf(abi, f, bin, room) ==
                   if bin == [] && IsExtension(abi, field.t) && f.allow then RestOf(abi, next, bin, room)
                   else Put([KeyToken(field.name)], Before(abi, Value(Decode(abi, field.t, bin, f.allow && next.position == |fields| - 1, room)), next, room))
  {
    hide Decode, Tokens;
    assert DefOk(abi, abi.defs[f.t]);
    var fields, i := abi.defs[f.t].fields, f.position + 1;
    if i < |fields| && !(bin == [] && IsExtension(abi, fields[i].t) && f.allow) {
      var r := Decode(abi, fields[i].t, bin, f.allow && i == |fields| - 1, room);
      if r.Some? {
        var more := DecodeFields(abi, fields, i + 1, r.value.rest, f.allow, room);
        if more.Some? { MemberIsWritten(Member(fields[i].name, r.value.v), more.value.members); }
      }
    }
  }

  lemma MemberIsWritten(m: Member, ms: seq<Member>)
    ensures MemberTokens(Obj([m] + ms), 0) == [KeyToken(m.key)] + (Tokens(m.value) + MemberTokens(Obj(ms), 0))
  {
    MemberTokensTail(m, ms, 0);
    assert ([m] + ms)[0] == m;
  }

  lemma ItemStep(abi: Abi, f: Frame, bin: Bytes, room: nat)
    requires Resolved(abi) && FrameOk(abi, f) && abi.defs[f.t].ArrayOf?
    ensures Known(abi, abi.defs[f.t].t)
    ensures var next := f.(position := f.position + 1);
            if next.position < f.arraySize then
              && FrameOk(abi, next) && Left(abi, next) < Left(abi, f)
              && RestOf(abi, f, bin, room) == Before(abi, Value(Decode(abi, abi.defs[f.t].t, bin, false, room)), next, room)
            else RestOf(abi, f, bin, room) == Some(Written([EndArray], bin))
  {
    assert DefOk(abi, abi.defs[f.t]);
    var u, n := abi.defs[f.t].t, f.arraySize - (f.position + 1);
    if n > 0 {
      var r := Decode(abi, u, bin, false, room);
      if r.Some? {
        var more := DecodeItems(abi, u, n - 1, r.value.rest, room);
        if more.Some? { ItemIsWritten(r.value.v, more.value.items); }
      }
    }
  }

  lemma ItemIsWritten(x: Json, xs: seq<Json>)
    ensures ItemTokens(Arr([x] + xs), 0) == Tokens(x) + ItemTokens(Arr(xs), 0)
  {
    ItemTokensTail(x, xs, 0);
    assert ([x] + xs)[0] == x;
  }

  lemma VariantStep(abi: Abi, f: Frame, bin: Bytes, room: nat)
    requires Resolved(abi) && FrameOk(abi, f) && abi.defs[f.t].VariantOf?
    ensures FieldsKnown(abi, abi.defs[f.t].fields)
    ensures f.position == 0 ==> RestOf(abi, f, bin, room) == Some(Written([EndArray], bin))
    ensures f.position == -1 ==>
              var fields := abi.defs[f.t].fields;
              var next := f.(position := 0);
              var i := VarUIntFrom(bin, 0);
              if i.None? || i.value.value >= |fields| then RestOf(abi, f, bin, room) == None
              else
                var g := fields[i.value.value];
                && FrameOk(abi, next) && Left(abi, next) < Left(abi, f)
                && RestOf(abi, f, bin, room) ==
                     Put([StringToken(g.name)], Before(abi, Value(Decode(abi, g.t, i.value.rest, f.allow, room)), next, room))
  {
    assert DefOk(abi, abi.defs[f.t]);
    var fields, i := abi.defs[f.t].fields, VarUIntFrom(bin, 0);
    if f.position == -1 && i.Some? && i.value.value < |fields| {
      var g := fields[i.value.value];
      var r := Decode(abi, g.t, i.value.rest, f.allow, room);
      if r.Some? { assert [StringToken(g.name)] + (Tokens(r.value.v) + [EndArray]) == [StringToken(g.name)] + Tokens(r.value.v) + [EndArray]; }
    }
  }
}
