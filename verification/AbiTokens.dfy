/** The encoder of token streams: a loop over an explicit stack that learns the size of an
    array only at its end, and puts the sizes in afterwards. */
module AbiTokens {
  import opened Basics
  import opened Options
  import opened ByteStrings
  import opened AbiSpec
  import opened AbiLaws
  import opened JsonTokens

  datatype Entry = Entry(t: TypeId, allow: bool, position: int, sizeIndex: nat, variantIndex: nat)

  /** What an entry is in the middle of: `next` counts the parts done, and `keyed` says
      that the key of the next one is done too. */
  datatype Pending = Pending(v: Json, next: nat, keyed: bool)

  // ----- what is left to do -----

  ghost predicate EntryOk(abi: Abi, e: Entry, p: Pending, target: seq<Insertion>) {
    && Known(abi, e.t)
    && match abi.defs[e.t]
       case StructOf(fields) =>
         && p.v.Obj? && p.next <= |p.v.members| && p.next <= |fields|
         && e.position == (if p.keyed then p.next else p.next - 1)
         && (p.keyed ==> p.next < |p.v.members| && p.next < |fields|)
       case ArrayOf(_) =>
         && p.v.Arr? && p.next <= |p.v.items| && !p.keyed && e.position == p.next - 1
         && e.sizeIndex < |target| && target[e.sizeIndex].size == |p.v.items| % UINT32
       case VariantOf(fields) =>
         && p.v.Arr? && p.next <= |p.v.items| && !p.keyed && e.position == p.next - 1 && p.next <= 2
         && (p.next > 0 ==> p.v.items[0].Text? && FindField(fields, p.v.items[0].s) == Some(e.variantIndex) && e.variantIndex < UINT32)
       case _ => false
  }

  ghost predicate StackOk(abi: Abi, stack: seq<Entry>, values: seq<Pending>, target: seq<Insertion>) {
    |stack| == |values| && forall i :: 0 <= i < |stack| ==> EntryOk(abi, stack[i], values[i], target)
  }

  ghost function TokensLeft(abi: Abi, e: Entry, p: Pending, target: seq<Insertion>): seq<Token>
    requires EntryOk(abi, e, p, target)
  {
    if abi.defs[e.t].StructOf? then
      if p.keyed then Tokens(p.v.members[p.next].value) + MemberTokens(p.v, p.next + 1) else MemberTokens(p.v, p.next)
    else ItemTokens(p.v, p.next)
  }

  ghost function AllTokensLeft(abi: Abi, stack: seq<Entry>, values: seq<Pending>, target: seq<Insertion>): seq<Token>
    requires StackOk(abi, stack, values, target)
  {
    if stack == [] then []
    else TokensLeft(abi, stack[|stack| - 1], values[|stack| - 1], target)
         + AllTokensLeft(abi, stack[..|stack| - 1], values[..|stack| - 1], target)
  }

  /** The encoding of what an entry has not done yet. */
  ghost function RestOf(abi: Abi, e: Entry, p: Pending, target: seq<Insertion>, skipped: bool): Option<Parts>
    requires Resolved(abi) && EntryOk(abi, e, p, target)
  {
    assert DefOk(abi, abi.defs[e.t]);
    match abi.defs[e.t]
    case StructOf(fields) =>
      if p.keyed then
        var r := EncodeParts(abi, fields[p.next].t, p.v.members[p.next].value, e.allow && p.next + 1 == |fields|, skipped);
        if r.None? then None else Join(r.value.raw, r.value.sizes, PartsOfMembers(abi, fields, p.v, p.next + 1, e.allow, r.value.skipped))
      else PartsOfMembers(abi, fields, p.v, p.next, e.allow, skipped)
    case ArrayOf(u) => PartsOfItems(abi, u, p.v, p.next, skipped)
    case VariantOf(fields) =>
      if p.next == 0 then EncodeParts(abi, e.t, p.v, e.allow, skipped)
      else if |p.v.items| != 2 then None
      else if p.next == 1 then EncodeParts(abi, fields[e.variantIndex].t, p.v.items[1], e.allow, skipped)
      else Some(Parts([], [], skipped))
  }

  ghost function Onto(abi: Abi, first: Option<Parts>, stack: seq<Entry>, values: seq<Pending>, target: seq<Insertion>): Option<Parts>
    requires Resolved(abi) && StackOk(abi, stack, values, target)
    decreases |stack|, 1
  {
    if first.None? then None else Join(first.value.raw, first.value.sizes, Rest(abi, stack, values, target, first.value.skipped))
  }

  ghost function Rest(abi: Abi, stack: seq<Entry>, values: seq<Pending>, target: seq<Insertion>, skipped: bool): Option<Parts>
    requires Resolved(abi) && StackOk(abi, stack, values, target)
    decreases |stack|, 0
  {
    if stack == [] then Some(Parts([], [], skipped))
    else
      var n := |stack| - 1;
      Onto(abi, RestOf(abi, stack[n], values[n], target, skipped), stack[..n], values[..n], target)
  }

  lemma ShiftConcat(a: seq<Insertion>, b: seq<Insertion>, n: nat, m: nat)
    ensures Shift(a + Shift(b, n), m) == Shift(a, m) + Shift(b, m + n)
  {
  }

  /** Joining is associative. */
  lemma JoinJoin(a: Bytes, s: seq<Insertion>, b: Bytes, s': seq<Insertion>, r: Option<Parts>)
    ensures Join(a, s, Join(b, s', r)) == Join(a + b, s + Shift(s', |a|), r)
  {
    if r.Some? {
      ShiftConcat(s', r.value.sizes, |b|, |a|);
      assert a + (b + r.value.raw) == a + b + r.value.raw;
      assert s + (Shift(s', |a|) + Shift(r.value.sizes, |a| + |b|)) == s + Shift(s', |a|) + Shift(r.value.sizes, |a| + |b|);
    }
  }

  lemma JoinPlain(a: Bytes, s: seq<Insertion>, b: Bytes, r: Option<Parts>)
    ensures Join(a, s, Join(b, [], r)) == Join(a + b, s, r)
  {
    JoinJoin(a, s, b, [], r);
    assert s + Shift([], |a|) == s;
  }

  lemma JoinNone(a: Bytes, s: seq<Insertion>)
    ensures Join(a, s, None) == None
  {
  }

  lemma JoinNothing(r: Option<Parts>)
    ensures Join([], [], r) == r
  {
    if r.Some? { assert [] + r.value.raw == r.value.raw && [] + Shift(r.value.sizes, 0) == r.value.sizes; }
  }

  /** A first part, then what an entry has left. */
  ghost function Before(abi: Abi, first: Option<Parts>, e: Entry, p: Pending, target: seq<Insertion>): Option<Parts>
    requires Resolved(abi) && EntryOk(abi, e, p, target)
  {
    if first.None? then None else Join(first.value.raw, first.value.sizes, RestOf(abi, e, p, target, first.value.skipped))
  }

  lemma Pushed(abi: Abi, stack: seq<Entry>, values: seq<Pending>, target: seq<Insertion>, e: Entry, p: Pending, skipped: bool)
    requires Resolved(abi) && StackOk(abi, stack, values, target) && EntryOk(abi, e, p, target)
    ensures StackOk(abi, stack + [e], values + [p], target)
    ensures Rest(abi, stack + [e], values + [p], target, skipped) == Onto(abi, RestOf(abi, e, p, target, skipped), stack, values, target)
    ensures AllTokensLeft(abi, stack + [e], values + [p], target) == TokensLeft(abi, e, p, target) + AllTokensLeft(abi, stack, values, target)
  {
    assert (stack + [e])[..|stack|] == stack && (values + [p])[..|stack|] == values;
  }

  lemma OntoPushed(abi: Abi, first: Option<Parts>, stack: seq<Entry>, values: seq<Pending>, target: seq<Insertion>, e: Entry, p: Pending)
    requires Resolved(abi) && StackOk(abi, stack, values, target) && EntryOk(abi, e, p, target)
    ensures StackOk(abi, stack + [e], values + [p], target)
    ensures Onto(abi, first, stack + [e], values + [p], target) == Onto(abi, Before(abi, first, e, p, target), stack, values, target)
    ensures first.None? ==> Before(abi, first, e, p, target).None?
  {
    if first.Some? {
      Pushed(abi, stack, values, target, e, p, first.value.skipped);
      var r := RestOf(abi, e, p, target, first.value.skipped);
      if r.Some? {
        JoinJoin(first.value.raw, first.value.sizes, r.value.raw, r.value.sizes, Rest(abi, stack, values, target, r.value.skipped));
      }
    }
  }

  lemma NothingFirst(abi: Abi, stack: seq<Entry>, values: seq<Pending>, target: seq<Insertion>, skipped: bool)
    requires Resolved(abi) && StackOk(abi, stack, values, target)
    ensures Onto(abi, Some(Parts([], [], skipped)), stack, values, target) == Rest(abi, stack, values, target, skipped)
  {
    JoinNothing(Rest(abi, stack, values, target, skipped));
  }

  /** Bytes written are bytes that are no longer to come. */
  lemma Written(abi: Abi, writer: Bytes, done: seq<Insertion>, b: Bytes, r: Option<Parts>, stack: seq<Entry>, values: seq<Pending>, target: seq<Insertion>)
    requires Resolved(abi) && StackOk(abi, stack, values, target)
    ensures Join(writer + b, done, Onto(abi, r, stack, values, target)) == Join(writer, done, Onto(abi, Join(b, [], r), stack, values, target))
  {
    if r.Some? {
      var rest := Rest(abi, stack, values, target, r.value.skipped);
      JoinPlain(writer, done, b, Onto(abi, r, stack, values, target));
      JoinJoin(b, [], r.value.raw, r.value.sizes, rest);
    }
  }

  /** A longer list of sizes changes nothing for the entries there are. */
  lemma {:induction false} TargetGrows(abi: Abi, stack: seq<Entry>, values: seq<Pending>, target: seq<Insertion>, x: Insertion, skipped: bool)
    requires Resolved(abi) && StackOk(abi, stack, values, target)
    ensures StackOk(abi, stack, values, target + [x])
    ensures Rest(abi, stack, values, target + [x], skipped) == Rest(abi, stack, values, target, skipped)
    ensures AllTokensLeft(abi, stack, values, target + [x]) == AllTokensLeft(abi, stack, values, target)
    decreases |stack|
  {
    hide EncodeParts, PartsOfMembers, PartsOfItems, Join, Tokens, MemberTokens, ItemTokens;
    if stack != [] {
      var n := |stack| - 1;
      var r := RestOf(abi, stack[n], values[n], target, skipped);
      TargetGrows(abi, stack[..n], values[..n], target, x, if r.Some? then r.value.skipped else skipped);
    }
  }

  /** A size to come is one more entry of the list. */
  lemma WrittenSize(abi: Abi, writer: Bytes, done: seq<Insertion>, n: nat, r: Option<Parts>, stack: seq<Entry>, values: seq<Pending>, target: seq<Insertion>)
    requires Resolved(abi) && StackOk(abi, stack, values, target)
    ensures Join(writer, done + [Insertion(|writer|, n)], Onto(abi, r, stack, values, target)) ==
            Join(writer, done, Onto(abi, Join([], [Insertion(0, n)], r), stack, values, target))
  {
    if r.Some? {
      var rest := Rest(abi, stack, values, target, r.value.skipped);
      JoinJoin(writer, done, [], [Insertion(0, n)], Onto(abi, r, stack, values, target));
      assert writer + [] == writer && Shift([Insertion(0, n)], |writer|) == [Insertion(|writer|, n)];
      JoinJoin([], [Insertion(0, n)], r.value.raw, r.value.sizes, rest);
    }
  }

  // ----- how deep the stack gets -----

  /** How many entries a value puts on the stack: an empty object is off it again at once. */
  function Frames(v: Json): nat
    decreases v, 1, 0
  {
    match v
    case Obj(ms) => if ms == [] then 0 else 1 + MemberFrames(v, 0)
    case Arr(_) => 1 + ItemFrames(v, 0)
    case _ => 0
  }

  function MemberFrames(v: Json, i: nat): nat
    requires v.Obj? && i <= |v.members|
    decreases v, 0, |v.members| - i
  {
    if i == |v.members| then 0
    else
      var a, b := Frames(v.members[i].value), MemberFrames(v, i + 1);
      if a > b then a else b
  }

  function ItemFrames(v: Json, i: nat): nat
    requires v.Arr? && i <= |v.items|
    decreases v, 0, |v.items| - i
  {
    if i == |v.items| then 0
    else
      var a, b := Frames(v.items[i]), ItemFrames(v, i + 1);
      if a > b then a else b
  }

  /** The entries once a value has been started on. */
  ghost function Started(v: Json): seq<Pending> {
    if v.Obj? then (if v.members == [] then [] else [Pending(v, 0, true)])
    else if v.Arr? then [Pending(v, 0, false)]
    else []
  }

  /** The entries after one more step. */
  ghost function Moved(values: seq<Pending>): seq<Pending>
    requires values != []
  {
    var n := |values| - 1;
    var p := values[n];
    if p.v.Obj? && p.next < |p.v.members| then
      if p.keyed then values[..n] + [Pending(p.v, p.next + 1, false)] + Started(p.v.members[p.next].value)
      else values[..n] + [p.(keyed := true)]
    else if p.v.Arr? && p.next < |p.v.items| then
      values[..n] + [Pending(p.v, p.next + 1, false)] + Started(p.v.items[p.next])
    else values[..n]
  }

  /** How many more entries the rest of one needs. */
  ghost function FramesLeft(p: Pending): nat {
    if p.v.Obj? && p.next <= |p.v.members| then MemberFrames(p.v, p.next)
    else if p.v.Arr? && p.next <= |p.v.items| then ItemFrames(p.v, p.next)
    else 0
  }

  /** No more than `f` entries are needed. */
  ghost predicate AtMost(values: seq<Pending>, f: nat) {
    forall i :: 0 <= i < |values| ==> i + 1 + FramesLeft(values[i]) <= f
  }

  /** Unless `f` entries are allowed, as many are still to come. */
  ghost predicate StillToCome(values: seq<Pending>, f: nat) {
    f <= MAX_STACK_SIZE || exists i :: 0 <= i < |values| && i + 1 + FramesLeft(values[i]) >= f
  }

  lemma StartedFrames(v: Json)
    ensures AtMost(Started(v), Frames(v)) && StillToCome(Started(v), Frames(v))
    ensures forall p :: p in Started(v) ==> 1 + FramesLeft(p) == Frames(v)
    ensures Started(v) == [] ==> Frames(v) == 0
    ensures |Started(v)| <= 1
  {
    if Started(v) != [] { assert 0 + 1 + FramesLeft(Started(v)[0]) == Frames(v); }
  }

  lemma TooMany(values: seq<Pending>, f: nat)
    requires AtMost(values, f) && |values| > MAX_STACK_SIZE
    ensures f > MAX_STACK_SIZE
  {
    assert MAX_STACK_SIZE + 1 + FramesLeft(values[MAX_STACK_SIZE]) <= f;
  }

  lemma NoneToCome(values: seq<Pending>, f: nat)
    requires StillToCome(values, f) && values == []
    ensures f <= MAX_STACK_SIZE
  {
  }

  /** What a step does to the entries, by what is on top. */
  lemma MovedIs(values: seq<Pending>)
    requires values != []
    ensures var n := |values| - 1;
            var p := values[n];
            && (p.v.Obj? && !p.keyed && p.next < |p.v.members| ==> Moved(values) == values[..n] + [p.(keyed := true)])
            && (p.v.Obj? && p.keyed && p.next < |p.v.members| ==>
                  Moved(values) == values[..n] + [Pending(p.v, p.next + 1, false)] + Started(p.v.members[p.next].value))
            && (p.v.Arr? && p.next < |p.v.items| ==> Moved(values) == values[..n] + [Pending(p.v, p.next + 1, false)] + Started(p.v.items[p.next]))
            && ((p.v.Obj? && p.next >= |p.v.members|) || (p.v.Arr? && p.next >= |p.v.items|) ==> Moved(values) == values[..n])
  {
  }

  lemma StartedIs(v: Json)
    ensures v.Arr? ==> Started(v) == [Pending(v, 0, false)]
    ensures !v.Arr? && !v.Obj? ==> Started(v) == []
  {
  }

  /** An object goes on the stack and at once takes its first key or is off it again. */
  lemma ObjectStarted(values: seq<Pending>, v: Json)
    requires v.Obj?
    ensures Moved(values + [Pending(v, 0, false)]) == values + Started(v)
  {
    assert (values + [Pending(v, 0, false)])[..|values|] == values;
  }

  lemma MovedFrames(values: seq<Pending>, f: nat)
    requires values != [] && |values| <= MAX_STACK_SIZE && AtMost(values, f) && StillToCome(values, f)
    ensures AtMost(Moved(values), f) && StillToCome(Moved(values), f)
  {
    var n := |values| - 1;
    var p := values[n];
    if p.v.Obj? && p.next < |p.v.members| && p.keyed {
      ChildFrames(values, f, Pending(p.v, p.next + 1, false), p.v.members[p.next].value);
    } else if p.v.Arr? && p.next < |p.v.items| {
      ChildFrames(values, f, Pending(p.v, p.next + 1, false), p.v.items[p.next]);
    } else {
      assert p.v.Obj? && p.next < |p.v.members| ==> FramesLeft(p.(keyed := true)) == FramesLeft(p);
      SameFrames(values, Moved(values), f);
    }
  }

  lemma SameFrames(values: seq<Pending>, after: seq<Pending>, f: nat)
    requires values != [] && |values| <= MAX_STACK_SIZE && AtMost(values, f) && StillToCome(values, f)
    requires |values| - 1 <= |after| <= |values| && after[..|values| - 1] == values[..|values| - 1]
    requires if |after| == |values| then FramesLeft(after[|values| - 1]) == FramesLeft(values[|values| - 1]) else FramesLeft(values[|values| - 1]) == 0
    ensures AtMost(after, f) && StillToCome(after, f)
  {
    assert forall i :: 0 <= i < |values| - 1 ==> after[..|values| - 1][i] == after[i] && values[..|values| - 1][i] == values[i];
    if f > MAX_STACK_SIZE {
      var i :| 0 <= i < |values| && i + 1 + FramesLeft(values[i]) >= f;
      assert i + 1 + FramesLeft(after[i]) >= f;
    }
  }

  lemma ChildFrames(values: seq<Pending>, f: nat, q: Pending, c: Json)
    requires values != [] && |values| <= MAX_STACK_SIZE && AtMost(values, f) && StillToCome(values, f)
    requires FramesLeft(values[|values| - 1]) == if Frames(c) > FramesLeft(q) then Frames(c) else FramesLeft(q)
    ensures AtMost(values[..|values| - 1] + [q] + Started(c), f) && StillToCome(values[..|values| - 1] + [q] + Started(c), f)
  {
    hide FramesLeft, Frames, Started;
    StartedFrames(c);
    var n, after := |values| - 1, values[..|values| - 1] + [q] + Started(c);
    forall i | 0 <= i < |after| ensures i + 1 + FramesLeft(after[i]) <= f {
      if i < n { assert after[i] == values[i]; }
      if i > n { assert after[i] == Started(c)[i - n - 1] && after[i] in Started(c); }
    }
    if f > MAX_STACK_SIZE {
      var i :| 0 <= i < |values| && i + 1 + FramesLeft(values[i]) >= f;
      if i < n {
        assert after[i] == values[i];
      } else if Frames(c) <= FramesLeft(q) {
        assert after[n] == q && n + 1 + FramesLeft(after[n]) >= f;
      } else {
        assert after[n + 1] == Started(c)[0] && Started(c)[0] in Started(c);
        assert n + 1 + 1 + FramesLeft(after[n + 1]) >= f;
      }
    }
  }

  /** Never more entries than objects and arrays are nested. */
  lemma {:induction false} FramesWithinDepth(v: Json)
    ensures Frames(v) <= Depth(v)
    decreases v, 1, 0
  {
    if v.Obj? { MembersWithinDepth(v, 0); }
    if v.Arr? { ItemsWithinDepth(v, 0); }
  }

  lemma {:induction false} MembersWithinDepth(v: Json, i: nat)
    requires v.Obj? && i <= |v.members|
    ensures MemberFrames(v, i) <= MembersDepth(v, i)
    decreases v, 0, |v.members| - i
  {
    if i < |v.members| {
      FramesWithinDepth(v.members[i].value);
      MembersWithinDepth(v, i + 1);
    }
  }

  lemma {:induction false} ItemsWithinDepth(v: Json, i: nat)
    requires v.Arr? && i <= |v.items|
    ensures ItemFrames(v, i) <= ItemsDepth(v, i)
    decreases v, 0, |v.items| - i
  {
    if i < |v.items| {
      FramesWithinDepth(v.items[i]);
      ItemsWithinDepth(v, i + 1);
    }
  }

  // ----- the machine -----

  class JsonToBinState {
    const abi: Abi
    var input: seq<Token>
    var writer: Bytes
    var sizes: seq<Insertion>
    var stack: seq<Entry>
    var skipped: bool
    /** What the entries are in the middle of. */
    ghost var values: seq<Pending>
    /** The sizes as they will be in the end. */
    ghost var target: seq<Insertion>

    constructor (abi: Abi, input: seq<Token>)
      ensures this.abi == abi && this.input == input && writer == [] && sizes == [] && stack == [] && !skipped && values == [] && target == []
    {
      this.abi, this.input, writer, sizes, stack, skipped, values, target := abi, input, [], [], [], false, [], [];
    }

    /** Only the sizes of arrays that are still open are missing. */
    ghost predicate SizesOk()
      reads this
    {
      && |sizes| == |target|
      && forall k :: 0 <= k < |sizes| ==> sizes[k].position == target[k].position && (sizes[k] == target[k] || IsOpen(abi, stack, k))
    }

    ghost predicate Valid()
      reads this
    {
      Resolved(abi) && StackOk(abi, stack, values, target) && SizesOk()
    }

    ghost predicate Aligned()
      reads this
      requires Valid()
    {
      input == AllTokensLeft(abi, stack, values, target)
    }

    ghost function Result(): Option<Parts>
      reads this
      requires Valid()
    {
      Join(writer, target, Rest(abi, stack, values, target, skipped))
    }

    /** Takes the first token. */
    method Advance()
      requires input != []
      modifies this`input
      ensures input == old(input)[1..]
    {
      input := input[1..];
    }

    /** Starts on a value of type `t`; the tokens are those of `v`. */
    method Start(allow: bool, t: TypeId, ghost v: Json) returns (ok: bool)
      requires Valid() && Known(abi, t) && input == Tokens(v) + AllTokensLeft(abi, stack, values, target)
      modifies this
      ensures ok ==> Valid() && Aligned() && |input| < |old(input)| && values == old(values) + Started(v)
      ensures ok ==> Result() == Join(old(writer), old(target), Onto(abi, EncodeParts(abi, t, v, allow, old(skipped)), old(stack), old(values), old(target)))
      ensures !ok ==> EncodeParts(abi, t, v, allow, old(skipped)).None?
      decreases |input|, 2, Rank(abi, t)
    {
      hide Moved, Started, Onto, Rest, RestOf, AllTokensLeft, Join, TokensLeft, IsOpen, PartsOfMembers, PartsOfItems, Tokens, MemberTokens, ItemTokens, Before, Shift;
      assert DefOk(abi, abi.defs[t]);
      StartedIs(v);
      FirstToken(v);
      ghost var left := AllTokensLeft(abi, stack, values, target);
      assert input[0] == Tokens(v)[0] && input[1..] == Tokens(v)[1..] + left;
      match abi.defs[t]
      case Builtin(kind) =>
        var x := Scalar(input[0]);
        if x.None? {
          return false;
        }
        var b := Leaf(abi, kind, x.value);
        if b.None? {
          return false;
        }
        Written(abi, writer, target, b.value, Some(Parts([], [], skipped)), stack, values, target);
        NothingFirst(abi, stack, values, target, skipped);
        PlainJoin(b.value, skipped);
        Advance();
        writer := writer + b.value;
        ok := true;
      case OptionalOf(u) =>
        if input[0] == NullToken {
          Written(abi, writer, target, [0], Some(Parts([], [], skipped)), stack, values, target);
          NothingFirst(abi, stack, values, target, skipped);
          PlainJoin([0], skipped);
          Advance();
          writer := writer + [0];
          return true;
        }
        Written(abi, writer, target, [1], EncodeParts(abi, u, v, allow, skipped), stack, values, target);
        JoinNone([1], []);
        writer := writer + [1];
        ok := Start(allow, u, v);
      case ExtensionOf(u) =>
        ok := Start(allow, u, v);
      case StructOf(_) => ok := BeginObject(allow, t, v);
      case ArrayOf(_) => ok := BeginArray(allow, t, v);
      case VariantOf(_) => ok := BeginVariant(allow, t, v);
    }

    method BeginObject(allow: bool, t: TypeId, ghost v: Json) returns (ok: bool)
      requires Valid() && Known(abi, t) && abi.defs[t].StructOf? && input == Tokens(v) + AllTokensLeft(abi, stack, values, target)
      modifies this
      ensures ok ==> Valid() && Aligned() && |input| < |old(input)| && values == old(values) + Started(v)
      ensures ok ==> Result() == Join(old(writer), old(target), Onto(abi, EncodeParts(abi, t, v, allow, old(skipped)), old(stack), old(values), old(target)))
      ensures !ok ==> EncodeParts(abi, t, v, allow, old(skipped)).None?
      decreases |input|, 1, 0
    {
      hide Moved, Started, Onto, Rest, RestOf, AllTokensLeft, Join, TokensLeft, IsOpen, PartsOfMembers, PartsOfItems, Tokens, MemberTokens, ItemTokens, Before, Shift;
      assert DefOk(abi, abi.defs[t]);
      StartedIs(v);
      FirstToken(v);
      ghost var left := AllTokensLeft(abi, stack, values, target);
      assert input[0] == Tokens(v)[0] && input[1..] == Tokens(v)[1..] + left;
      if input[0] != StartObject {
        return false;
      }
      Advance();
      var e := Entry(t, allow, -1, 0, 0);
      ghost var p := Pending(v, 0, false);
      NewObject(abi, e, p, target, skipped);
      Pushed(abi, stack, values, target, e, p, skipped);
      OpenStays(abi, stack, e);
      ObjectStarted(values, v);
      stack := stack + [e];
      values := values + [p];
      ok := ContinueObject();
    }

    method BeginArray(allow: bool, t: TypeId, ghost v: Json) returns (ok: bool)
      requires Valid() && Known(abi, t) && abi.defs[t].ArrayOf? && input == Tokens(v) + AllTokensLeft(abi, stack, values, target)
      modifies this
      ensures ok ==> Valid() && Aligned() && |input| < |old(input)| && values == old(values) + Started(v)
      ensures ok ==> Result() == Join(old(writer), old(target), Onto(abi, EncodeParts(abi, t, v, allow, old(skipped)), old(stack), old(values), old(target)))
      ensures !ok ==> EncodeParts(abi, t, v, allow, old(skipped)).None?
      decreases |input|, 1, 0
    {
      hide Moved, Started, Onto, Rest, RestOf, AllTokensLeft, Join, TokensLeft, IsOpen, PartsOfMembers, PartsOfItems, Tokens, MemberTokens, ItemTokens, Before, Shift;
      assert DefOk(abi, abi.defs[t]);
      StartedIs(v);
      FirstToken(v);
      ghost var left := AllTokensLeft(abi, stack, values, target);
      assert input[0] == Tokens(v)[0] && input[1..] == Tokens(v)[1..] + left;
      if input[0] != StartArray {
        return false;
      }
      Advance();
      var e := Entry(t, false, -1, |sizes|, 0);
      ghost var p := Pending(v, 0, false);
      ghost var x := Insertion(|writer|, |v.items| % UINT32);
      TargetGrows(abi, stack, values, target, x, skipped);
      NewArray(abi, e, p, target + [x], skipped);
      ArrayParts(abi, t, v, allow, skipped);
      WrittenSize(abi, writer, target, |v.items| % UINT32, PartsOfItems(abi, abi.defs[t].t, v, 0, skipped), stack, values, target + [x]);
      OntoGrown(abi, EncodeParts(abi, t, v, allow, skipped), stack, values, target, x);
      Pushed(abi, stack, values, target + [x], e, p, skipped);
      OpenStays(abi, stack, e);
      OpenTop(abi, stack + [e]);
      stack := stack + [e];
      values := values + [p];
      sizes := sizes + [Insertion(|writer|, 0)];
      target := target + [x];
      ok := true;
    }

    method BeginVariant(allow: bool, t: TypeId, ghost v: Json) returns (ok: bool)
      requires Valid() && Known(abi, t) && abi.defs[t].VariantOf? && input == Tokens(v) + AllTokensLeft(abi, stack, values, target)
      modifies this
      ensures ok ==> Valid() && Aligned() && |input| < |old(input)| && values == old(values) + Started(v)
      ensures ok ==> Result() == Join(old(writer), old(target), Onto(abi, EncodeParts(abi, t, v, allow, old(skipped)), old(stack), old(values), old(target)))
      ensures !ok ==> EncodeParts(abi, t, v, allow, old(skipped)).None?
      decreases |input|, 1, 0
    {
      hide Moved, Started, Onto, Rest, RestOf, AllTokensLeft, Join, TokensLeft, IsOpen, PartsOfMembers, PartsOfItems, Tokens, MemberTokens, ItemTokens, Before, Shift;
      assert DefOk(abi, abi.defs[t]);
      StartedIs(v);
      FirstToken(v);
      ghost var left := AllTokensLeft(abi, stack, values, target);
      assert input[0] == Tokens(v)[0] && input[1..] == Tokens(v)[1..] + left;
      if input[0] != StartArray {
        return false;
      }
      Advance();
      var e := Entry(t, allow, -1, 0, 0);
      ghost var p := Pending(v, 0, false);
      NewVariant(abi, e, p, target, skipped);
      Pushed(abi, stack, values, target, e, p, skipped);
      OpenStays(abi, stack, e);
      stack := stack + [e];
      values := values + [p];
      ok := true;
    }

    ghost predicate TopIs(object_: bool, array_: bool)
      reads this
      requires Valid()
    {
      stack != [] && var d := abi.defs[stack[|stack| - 1].t]; d.StructOf? == object_ && d.ArrayOf? == array_
    }

    method ContinueObject() returns (ok: bool)
      requires Valid() && Aligned() && TopIs(true, false)
      modifies this
      ensures ok ==> Valid() && Aligned() && |input| < |old(input)| && Result() == old(Result())
      ensures ok ==> values == Moved(old(values))
      ensures !ok ==> RestOf(abi, old(stack[|stack| - 1]), old(values[|stack| - 1]), old(target), old(skipped)).None?
      decreases |input|, 3, 0
    {
      hide Moved, Started, Onto, Rest, RestOf, AllTokensLeft, Join, TokensLeft, IsOpen, EncodeParts, PartsOfMembers, PartsOfItems, Tokens, MemberTokens, ItemTokens, Before, Shift;
      var e := stack[|stack| - 1];
      ghost var p, n := values[|stack| - 1], |stack| - 1;
      ghost var below, belowValues, left := stack[..n], values[..n], AllTokensLeft(abi, stack[..n], values[..n], target);
      MovedIs(values);
      TopOf(abi, stack, values, target, skipped);
      ObjectStep(abi, e, p, target, skipped);
      var fields := abi.defs[e.t].fields;
      assert input[0] == TokensLeft(abi, e, p, target)[0] && input[1..] == TokensLeft(abi, e, p, target)[1..] + left;
      if input[0] == EndObject {
        ok := CloseObject();
      } else if input[0].KeyToken? {
        ok := TakeKey();
      } else {
        ghost var q, v := Pending(p.v, p.next + 1, false), p.v.members[p.next].value;
        Pushed(abi, below, belowValues, target, e, q, skipped);
        OntoPushed(abi, EncodeParts(abi, fields[e.position].t, v, e.allow && e.position == |fields| - 1, skipped), below, belowValues, target, e, q);
        assert stack == below + [e];
        values := belowValues + [q];
        ok := Start(e.allow && e.position == |fields| - 1, fields[e.position].t, v);
      }
    }

    /** The end of an object: nothing but extensions may be missing. */
    method CloseObject() returns (ok: bool)
      requires Valid() && Aligned() && TopIs(true, false) && input != [] && input[0] == EndObject
      modifies this
      ensures ok ==> Valid() && Aligned() && |input| < |old(input)| && Result() == old(Result())
      ensures ok ==> values == Moved(old(values))
      ensures !ok ==> RestOf(abi, old(stack[|stack| - 1]), old(values[|stack| - 1]), old(target), old(skipped)).None?
    {
      hide Moved, Started, Onto, Rest, RestOf, AllTokensLeft, Join, TokensLeft, IsOpen, EncodeParts, PartsOfMembers, PartsOfItems, Tokens, MemberTokens, ItemTokens, Before, Shift;
      var e := stack[|stack| - 1];
      ghost var n := |stack| - 1;
      ghost var left := AllTokensLeft(abi, stack[..n], values[..n], target);
      MovedIs(values);
      TopOf(abi, stack, values, target, skipped);
      ObjectStep(abi, e, values[n], target, skipped);
      var fields := abi.defs[e.t].fields;
      assert input[0] == TokensLeft(abi, e, values[n], target)[0] && input[1..] == TokensLeft(abi, e, values[n], target)[1..] + left;
      OpenBelow(abi, stack);
      Advance();
      if e.position + 1 != |fields| {
        if !IsExtension(abi, fields[e.position + 1].t) || !e.allow {
          return false;
        }
        skipped := true;
      }
      NothingFirst(abi, stack[..n], values[..n], target, skipped);
      stack := stack[..|stack| - 1];
      values := values[..n];
      ok := true;
    }

    /** The key of a member: it must be the name of the next field. */
    method TakeKey() returns (ok: bool)
      requires Valid() && Aligned() && TopIs(true, false) && input != [] && input[0].KeyToken?
      modifies this
      ensures ok ==> Valid() && Aligned() && |input| < |old(input)| && Result() == old(Result())
      ensures ok ==> values == Moved(old(values))
      ensures !ok ==> RestOf(abi, old(stack[|stack| - 1]), old(values[|stack| - 1]), old(target), old(skipped)).None?
    {
      hide Moved, Started, Onto, Rest, RestOf, AllTokensLeft, Join, TokensLeft, IsOpen, EncodeParts, PartsOfMembers, PartsOfItems, Tokens, MemberTokens, ItemTokens, Before, Shift;
      var e := stack[|stack| - 1];
      ghost var n := |stack| - 1;
      ghost var p, left := values[n], AllTokensLeft(abi, stack[..n], values[..n], target);
      MovedIs(values);
      TopOf(abi, stack, values, target, skipped);
      ObjectStep(abi, e, p, target, skipped);
      var fields := abi.defs[e.t].fields;
      assert input[0] == TokensLeft(abi, e, p, target)[0] && input[1..] == TokensLeft(abi, e, p, target)[1..] + left;
      var key := input[0].key;
      Advance();
      if e.position + 1 >= |fields| || skipped || key != fields[e.position + 1].name {
        return false;
      }
      var next := e.(position := e.position + 1);
      Pushed(abi, stack[..n], values[..n], target, next, p.(keyed := true), skipped);
      OpenReplaced(abi, stack, next);
      stack := stack[..|stack| - 1] + [next];
      values := values[..n] + [p.(keyed := true)];
      ok := true;
    }

    method ContinueArray() returns (ok: bool)
      requires Valid() && Aligned() && TopIs(false, true)
      modifies this
      ensures ok ==> Valid() && Aligned() && |input| < |old(input)| && Result() == old(Result())
      ensures ok ==> values == Moved(old(values))
      ensures !ok ==> RestOf(abi, old(stack[|stack| - 1]), old(values[|stack| - 1]), old(target), old(skipped)).None?
      decreases |input|, 3, 0
    {
      hide Moved, Started, Onto, Rest, RestOf, AllTokensLeft, Join, TokensLeft, IsOpen, EncodeParts, PartsOfMembers, PartsOfItems, Tokens, MemberTokens, ItemTokens, Before, Shift;
      var e := stack[|stack| - 1];
      ghost var p, n := values[|stack| - 1], |stack| - 1;
      ghost var below, belowValues, left := stack[..n], values[..n], AllTokensLeft(abi, stack[..n], values[..n], target);
      MovedIs(values);
      TopOf(abi, stack, values, target, skipped);
      ArrayStep(abi, e, p, target, skipped);
      assert input[0] == TokensLeft(abi, e, p, target)[0] && input[1..] == TokensLeft(abi, e, p, target)[1..] + left;
      if input[0] == EndArray {
        Advance();
        NothingFirst(abi, below, belowValues, target, skipped);
        OpenBelowArray(abi, stack);
        sizes := sizes[e.sizeIndex := sizes[e.sizeIndex].(size := (e.position + 1) % UINT32)];
        stack := stack[..|stack| - 1];
        values := belowValues;
        return true;
      }
      var next := e.(position := e.position + 1);
      ghost var q, v := Pending(p.v, p.next + 1, false), p.v.items[p.next];
      var u := abi.defs[e.t].t;
      Pushed(abi, below, belowValues, target, next, q, skipped);
      OntoPushed(abi, EncodeParts(abi, u, v, false, skipped), below, belowValues, target, next, q);
      OpenReplaced(abi, stack, next);
      stack := stack[..|stack| - 1] + [next];
      values := belowValues + [q];
      ok := Start(false, u, v);
    }

    method ContinueVariant() returns (ok: bool)
      requires Valid() && Aligned() && TopIs(false, false)
      modifies this
      ensures ok ==> Valid() && Aligned() && |input| < |old(input)| && Result() == old(Result())
      ensures ok ==> values == Moved(old(values))
      ensures !ok ==> RestOf(abi, old(stack[|stack| - 1]), old(values[|stack| - 1]), old(target), old(skipped)).None?
      decreases |input|, 3, 0
    {
      hide Moved, Started, Onto, Rest, RestOf, AllTokensLeft, Join, TokensLeft, IsOpen, EncodeParts, PartsOfMembers, PartsOfItems, Tokens, MemberTokens, ItemTokens, Before, Shift;
      var e := stack[|stack| - 1];
      ghost var p, n := values[|stack| - 1], |stack| - 1;
      ghost var below, belowValues, left := stack[..n], values[..n], AllTokensLeft(abi, stack[..n], values[..n], target);
      MovedIs(values);
      TopOf(abi, stack, values, target, skipped);
      VariantStep(abi, e, p, target, skipped);
      var fields := abi.defs[e.t].fields;
      assert input[0] == TokensLeft(abi, e, p, target)[0] && input[1..] == TokensLeft(abi, e, p, target)[1..] + left;
      var next := e.(position := e.position + 1);
      if input[0] == EndArray {
        ok := CloseVariant();
      } else if next.position == 0 {
        ok := TakeName();
      } else if next.position == 1 {
        var field := fields[e.variantIndex];
        ghost var q := Pending(p.v, p.next + 1, false);
        OntoPushed(abi, EncodeParts(abi, field.t, p.v.items[1], e.allow, skipped), below, belowValues, target, next, q);
        Pushed(abi, below, belowValues, target, next, q, skipped);
        OpenReplaced(abi, stack, next);
        stack := stack[..|stack| - 1] + [next];
        values := belowValues + [q];
        ok := Start(e.allow, field.t, p.v.items[1]);
      } else {
        ok := false;
      }
    }

    /** The end of a variant: it must have its two parts. */
    method CloseVariant() returns (ok: bool)
      requires Valid() && Aligned() && TopIs(false, false) && input != [] && input[0] == EndArray
      modifies this
      ensures ok ==> Valid() && Aligned() && |input| < |old(input)| && Result() == old(Result())
      ensures ok ==> values == Moved(old(values))
      ensures !ok ==> RestOf(abi, old(stack[|stack| - 1]), old(values[|stack| - 1]), old(target), old(skipped)).None?
    {
      hide Moved, Started, Onto, Rest, RestOf, AllTokensLeft, Join, TokensLeft, IsOpen, EncodeParts, PartsOfMembers, PartsOfItems, Tokens, MemberTokens, ItemTokens, Before, Shift;
      var e := stack[|stack| - 1];
      ghost var p, n := values[|stack| - 1], |stack| - 1;
      ghost var below, belowValues, left := stack[..n], values[..n], AllTokensLeft(abi, stack[..n], values[..n], target);
      MovedIs(values);
      TopOf(abi, stack, values, target, skipped);
      VariantStep(abi, e, p, target, skipped);
      assert input[0] == TokensLeft(abi, e, p, target)[0] && input[1..] == TokensLeft(abi, e, p, target)[1..] + left;
      Advance();
      if e.position + 1 != 2 {
        return false;
      }
      NothingFirst(abi, below, belowValues, target, skipped);
      OpenBelow(abi, stack);
      stack := stack[..|stack| - 1];
      values := belowValues;
      ok := true;
    }

    /** The name of the alternative: it is written as its number. */
    method TakeName() returns (ok: bool)
      requires Valid() && Aligned() && TopIs(false, false) && input != [] && input[0] != EndArray && stack[|stack| - 1].position == -1
      modifies this
      ensures ok ==> Valid() && Aligned() && |input| < |old(input)| && Result() == old(Result())
      ensures ok ==> values == Moved(old(values))
      ensures !ok ==> RestOf(abi, old(stack[|stack| - 1]), old(values[|stack| - 1]), old(target), old(skipped)).None?
    {
      hide Moved, Started, Onto, Rest, RestOf, AllTokensLeft, Join, TokensLeft, IsOpen, EncodeParts, PartsOfMembers, PartsOfItems, Tokens, MemberTokens, ItemTokens, Before, Shift;
      var e := stack[|stack| - 1];
      ghost var p, n := values[|stack| - 1], |stack| - 1;
      ghost var below, belowValues, left := stack[..n], values[..n], AllTokensLeft(abi, stack[..n], values[..n], target);
      MovedIs(values);
      TopOf(abi, stack, values, target, skipped);
      VariantStep(abi, e, p, target, skipped);
      var fields := abi.defs[e.t].fields;
      assert input[0] == TokensLeft(abi, e, p, target)[0] && input[1..] == TokensLeft(abi, e, p, target)[1..] + left;
      ghost var q := Pending(p.v, p.next + 1, false);
      StartedIs(p.v.items[p.next]);
      if !input[0].StringToken? {
        return false;
      }
      var it := FindField(fields, input[0].s);
      if it.None? || it.value >= UINT32 {
        return false;
      }
      Advance();
      var next := e.(position := 0, variantIndex := it.value);
      Written(abi, writer, target, VarUInt(it.value), RestOf(abi, next, q, target, skipped), below, belowValues, target);
      Pushed(abi, below, belowValues, target, next, q, skipped);
      OpenReplaced(abi, stack, next);
      writer := writer + VarUInt(it.value);
      stack := stack[..|stack| - 1] + [next];
      values := belowValues + [q];
      ok := true;
    }

    /** The entry on top goes on, whatever its type. */
    method Continue() returns (ok: bool)
      requires Valid() && Aligned() && stack != []
      modifies this
      ensures ok ==> Valid() && Aligned() && |input| < |old(input)| && Result() == old(Result())
      ensures ok ==> values == Moved(old(values))
      ensures !ok ==> old(Result()).None?
    {
      hide Moved, Onto, Rest, RestOf, AllTokensLeft, Join, TokensLeft, IsOpen, EntryOk;
      TopFails(abi, stack, values, target, skipped, writer);
      var d := abi.defs[stack[|stack| - 1].t];
      if d.StructOf? {
        ok := ContinueObject();
      } else if d.ArrayOf? {
        ok := ContinueArray();
      } else {
        ok := ContinueVariant();
      }
    }
  }

  /** The size number `k` belongs to an array on the stack. */
  ghost predicate IsOpen(abi: Abi, stack: seq<Entry>, k: nat) {
    exists i :: 0 <= i < |stack| && Known(abi, stack[i].t) && abi.defs[stack[i].t].ArrayOf? && stack[i].sizeIndex == k
  }

  lemma {:induction false} OpenStays(abi: Abi, stack: seq<Entry>, e: Entry)
    ensures forall k: nat :: IsOpen(abi, stack, k) ==> IsOpen(abi, stack + [e], k)
  {
    forall k: nat | IsOpen(abi, stack, k)
      ensures IsOpen(abi, stack + [e], k)
    {
      var i :| 0 <= i < |stack| && Known(abi, stack[i].t) && abi.defs[stack[i].t].ArrayOf? && stack[i].sizeIndex == k;
      assert (stack + [e])[i] == stack[i];
    }
  }

  lemma PlainJoin(b: Bytes, skipped: bool)
    ensures Join(b, [], Some(Parts([], [], skipped))) == Some(Parts(b, [], skipped))
  {
    assert b + [] == b && [] + Shift([], |b|) == [];
  }

  lemma NewObject(abi: Abi, e: Entry, p: Pending, target: seq<Insertion>, skipped: bool)
    requires Resolved(abi) && Known(abi, e.t) && abi.defs[e.t].StructOf? && p.v.Obj? && e.position == -1 && p == Pending(p.v, 0, false)
    ensures EntryOk(abi, e, p, target) && RestOf(abi, e, p, target, skipped) == EncodeParts(abi, e.t, p.v, e.allow, skipped)
    ensures Tokens(p.v)[1..] == TokensLeft(abi, e, p, target)
  {
  }

  lemma NewArray(abi: Abi, e: Entry, p: Pending, target: seq<Insertion>, skipped: bool)
    requires Resolved(abi) && Known(abi, e.t) && abi.defs[e.t].ArrayOf? && p.v.Arr? && e.position == -1 && p == Pending(p.v, 0, false)
    requires e.sizeIndex < |target| && target[e.sizeIndex].size == |p.v.items| % UINT32
    ensures EntryOk(abi, e, p, target) && Known(abi, abi.defs[e.t].t)
    ensures RestOf(abi, e, p, target, skipped) == PartsOfItems(abi, abi.defs[e.t].t, p.v, 0, skipped)
    ensures Tokens(p.v)[1..] == TokensLeft(abi, e, p, target)
  {
    assert DefOk(abi, abi.defs[e.t]);
  }

  lemma ArrayParts(abi: Abi, t: TypeId, v: Json, allow: bool, skipped: bool)
    requires Resolved(abi) && Known(abi, t) && abi.defs[t].ArrayOf? && v.Arr?
    ensures Known(abi, abi.defs[t].t)
    ensures EncodeParts(abi, t, v, allow, skipped) == Join([], [Insertion(0, |v.items| % UINT32)], PartsOfItems(abi, abi.defs[t].t, v, 0, skipped))
  {
    assert DefOk(abi, abi.defs[t]);
  }

  lemma OntoGrown(abi: Abi, first: Option<Parts>, stack: seq<Entry>, values: seq<Pending>, target: seq<Insertion>, x: Insertion)
    requires Resolved(abi) && StackOk(abi, stack, values, target)
    ensures StackOk(abi, stack, values, target + [x])
    ensures Onto(abi, first, stack, values, target + [x]) == Onto(abi, first, stack, values, target)
  {
    TargetGrows(abi, stack, values, target, x, if first.Some? then first.value.skipped else false);
  }

  lemma NewVariant(abi: Abi, e: Entry, p: Pending, target: seq<Insertion>, skipped: bool)
    requires Resolved(abi) && Known(abi, e.t) && abi.defs[e.t].VariantOf? && p.v.Arr? && e.position == -1 && p == Pending(p.v, 0, false)
    ensures EntryOk(abi, e, p, target) && RestOf(abi, e, p, target, skipped) == EncodeParts(abi, e.t, p.v, e.allow, skipped)
    ensures Tokens(p.v)[1..] == TokensLeft(abi, e, p, target)
  {
  }

  lemma OpenTop(abi: Abi, stack: seq<Entry>)
    requires stack != [] && Known(abi, stack[|stack| - 1].t) && abi.defs[stack[|stack| - 1].t].ArrayOf?
    ensures IsOpen(abi, stack, stack[|stack| - 1].sizeIndex)
  {
  }

  lemma {:induction false} OpenBelow(abi: Abi, stack: seq<Entry>)
    requires stack != [] && Known(abi, stack[|stack| - 1].t) && !abi.defs[stack[|stack| - 1].t].ArrayOf?
    ensures forall k: nat :: IsOpen(abi, stack, k) ==> IsOpen(abi, stack[..|stack| - 1], k)
  {
    forall k: nat | IsOpen(abi, stack, k)
      ensures IsOpen(abi, stack[..|stack| - 1], k)
    {
      var i :| 0 <= i < |stack| && Known(abi, stack[i].t) && abi.defs[stack[i].t].ArrayOf? && stack[i].sizeIndex == k;
      assert stack[..|stack| - 1][i] == stack[i];
    }
  }

  lemma {:induction false} OpenBelowArray(abi: Abi, stack: seq<Entry>)
    requires stack != []
    ensures forall k: nat :: IsOpen(abi, stack, k) && k != stack[|stack| - 1].sizeIndex ==> IsOpen(abi, stack[..|stack| - 1], k)
  {
    forall k: nat | IsOpen(abi, stack, k) && k != stack[|stack| - 1].sizeIndex
      ensures IsOpen(abi, stack[..|stack| - 1], k)
    {
      var i :| 0 <= i < |stack| && Known(abi, stack[i].t) && abi.defs[stack[i].t].ArrayOf? && stack[i].sizeIndex == k;
      assert stack[..|stack| - 1][i] == stack[i];
    }
  }

  lemma {:induction false} OpenReplaced(abi: Abi, stack: seq<Entry>, next: Entry)
    requires stack != [] && next.t == stack[|stack| - 1].t && next.sizeIndex == stack[|stack| - 1].sizeIndex
    ensures forall k: nat :: IsOpen(abi, stack, k) ==> IsOpen(abi, stack[..|stack| - 1] + [next], k)
  {
    forall k: nat | IsOpen(abi, stack, k)
      ensures IsOpen(abi, stack[..|stack| - 1] + [next], k)
    {
      var i :| 0 <= i < |stack| && Known(abi, stack[i].t) && abi.defs[stack[i].t].ArrayOf? && stack[i].sizeIndex == k;
      var s := stack[..|stack| - 1] + [next];
      assert s[i].t == stack[i].t && s[i].sizeIndex == k;
    }
  }

  lemma TopOf(abi: Abi, stack: seq<Entry>, values: seq<Pending>, target: seq<Insertion>, skipped: bool)
    requires Resolved(abi) && StackOk(abi, stack, values, target) && stack != []
    ensures var n := |stack| - 1;
            && Rest(abi, stack, values, target, skipped) == Onto(abi, RestOf(abi, stack[n], values[n], target, skipped), stack[..n], values[..n], target)
            && AllTokensLeft(abi, stack, values, target) ==
                 TokensLeft(abi, stack[n], values[n], target) + AllTokensLeft(abi, stack[..n], values[..n], target)
  {
  }

  /** The next token of an object, and what it leads to. */
  lemma ObjectStep(abi: Abi, e: Entry, p: Pending, target: seq<Insertion>, skipped: bool)
    requires Resolved(abi) && EntryOk(abi, e, p, target) && abi.defs[e.t].StructOf?
    ensures FieldsKnown(abi, abi.defs[e.t].fields)
    ensures var fields := abi.defs[e.t].fields;
            var tokens := TokensLeft(abi, e, p, target);
            && tokens != []
            && (tokens[0] == EndObject <==> !p.keyed && p.next == |p.v.members|) && (tokens[0].KeyToken? <==> !p.keyed && p.next < |p.v.members|)
            && (if p.keyed then
                  var q, v := Pending(p.v, p.next + 1, false), p.v.members[p.next].value;
                  && EntryOk(abi, e, q, target) && tokens == Tokens(v) + TokensLeft(abi, e, q, target)
                  && RestOf(abi, e, p, target, skipped) ==
                       Before(abi, EncodeParts(abi, fields[e.position].t, v, e.allow && e.position == |fields| - 1, skipped), e, q, target)
                else if p.next == |p.v.members| then
                  && tokens[1..] == []
                  && RestOf(abi, e, p, target, skipped) ==
                       if p.next == |fields| then Some(Parts([], [], skipped))
                       else if IsExtension(abi, fields[p.next].t) && e.allow then Some(Parts([], [], true)) else None
                else
                  var next, q := e.(position := p.next), p.(keyed := true);
                  && tokens[0].key == p.v.members[p.next].key
                  && if p.next == |fields| || skipped || tokens[0].key != fields[p.next].name then RestOf(abi, e, p, target, skipped) == None
                     else EntryOk(abi, next, q, target) && tokens[1..] == TokensLeft(abi, next, q, target)
                          && RestOf(abi, e, p, target, skipped) == RestOf(abi, next, q, target, skipped))
  {
    assert DefOk(abi, abi.defs[e.t]);
    if p.keyed { FirstToken(p.v.members[p.next].value); }
  }

  lemma ArrayStep(abi: Abi, e: Entry, p: Pending, target: seq<Insertion>, skipped: bool)
    requires Resolved(abi) && EntryOk(abi, e, p, target) && abi.defs[e.t].ArrayOf?
    ensures Known(abi, abi.defs[e.t].t)
    ensures var tokens := TokensLeft(abi, e, p, target);
            && tokens != [] && (tokens[0] == EndArray <==> p.next == |p.v.items|)
            && if p.next == |p.v.items| then tokens[1..] == [] && RestOf(abi, e, p, target, skipped) == Some(Parts([], [], skipped))
               else
                 var next, q, v := e.(position := p.next), Pending(p.v, p.next + 1, false), p.v.items[p.next];
                 && EntryOk(abi, next, q, target) && tokens == Tokens(v) + TokensLeft(abi, next, q, target)
                 && RestOf(abi, e, p, target, skipped) == Before(abi, EncodeParts(abi, abi.defs[e.t].t, v, false, skipped), next, q, target)
  {
    assert DefOk(abi, abi.defs[e.t]);
    if p.next < |p.v.items| { FirstToken(p.v.items[p.next]); }
  }

  lemma VariantStep(abi: Abi, e: Entry, p: Pending, target: seq<Insertion>, skipped: bool)
    requires Resolved(abi) && EntryOk(abi, e, p, target) && abi.defs[e.t].VariantOf?
    ensures FieldsKnown(abi, abi.defs[e.t].fields)
    ensures var fields := abi.defs[e.t].fields;
            var tokens := TokensLeft(abi, e, p, target);
            && tokens != [] && (tokens[0] == EndArray <==> p.next == |p.v.items|)
            && (p.next == |p.v.items| ==>
                  tokens[1..] == [] && RestOf(abi, e, p, target, skipped) == if p.next == 2 then Some(Parts([], [], skipped)) else None)
            && (p.next < |p.v.items| && p.next == 2 ==> RestOf(abi, e, p, target, skipped) == None)
            && (p.next < |p.v.items| && p.next == 1 ==>
                  var next, q := e.(position := 1), Pending(p.v, 2, false);
                  && EntryOk(abi, next, q, target) && tokens == Tokens(p.v.items[1]) + TokensLeft(abi, next, q, target)
                  && RestOf(abi, e, p, target, skipped) ==
                       Before(abi, EncodeParts(abi, fields[e.variantIndex].t, p.v.items[1], e.allow, skipped), next, q, target))
            && (p.next < |p.v.items| && p.next == 0 ==>
                  if !tokens[0].StringToken? then RestOf(abi, e, p, target, skipped) == None
                  else
                    var it := FindField(fields, tokens[0].s);
                    if it.None? || it.value >= UINT32 then RestOf(abi, e, p, target, skipped) == None
                    else
                      var next, q := e.(position := 0, variantIndex := it.value), Pending(p.v, 1, false);
                      && EntryOk(abi, next, q, target) && tokens[1..] == TokensLeft(abi, next, q, target)
                      && RestOf(abi, e, p, target, skipped) == Join(VarUInt(it.value), [], RestOf(abi, next, q, target, skipped)))
  {
    assert DefOk(abi, abi.defs[e.t]);
    if p.next < |p.v.items| { FirstToken(p.v.items[p.next]); }
    if p.next == 1 && |p.v.items| == 2 {
      var r := EncodeParts(abi, abi.defs[e.t].fields[e.variantIndex].t, p.v.items[1], e.allow, skipped);
      if r.Some? { JoinLast(r.value); }
    }
    if p.next == 0 && p.v.items != [] && p.v.items[0].Text? {
      assert Tokens(p.v.items[0]) == [StringToken(p.v.items[0].s)];
    }
  }

  lemma JoinLast(p: Parts)
    ensures Join(p.raw, p.sizes, Some(Parts([], [], p.skipped))) == Some(p)
  {
    assert p.raw + [] == p.raw && p.sizes + Shift([], |p.raw|) == p.sizes;
  }

  // ----- the driver -----

  datatype Outcome = Accepted(bin: Bytes) | Rejected | TooDeep

  /** json_to_bin for the tokens of a value: accepts what the recursion accepts, unless it
      needs too many entries, and splices in the array sizes. */
  method JsonToBin(abi: Abi, t: TypeId, input: seq<Token>, ghost v: Json) returns (r: Outcome)
    requires Resolved(abi) && Known(abi, t) && input == Tokens(v)
    ensures r.Rejected? ==> EncodeParts(abi, t, v, true, false).None?
    ensures r.TooDeep? ==> Frames(v) > 128
    ensures r.Accepted? ==> Frames(v) <= 128
    ensures r.Accepted? ==> EncodeParts(abi, t, v, true, false).Some?
    ensures r.Accepted? ==> PartsOk(EncodeParts(abi, t, v, true, false).value) && r.bin == Spliced(EncodeParts(abi, t, v, true, false).value)
  {
    hide EncodeParts, Tokens, Onto, Rest, RestOf, Join, Splice, InOrder, AllTokensLeft, EntryOk, IsOpen, Started, Moved, AtMost, StillToCome, Frames, FramesLeft;
    var state := new JsonToBinState(abi, input);
    ghost var all := EncodeParts(abi, t, v, true, false);
    Beginning(abi, input, all);
    var ok := state.Start(true, t, v);
    if !ok {
      return Rejected;
    }
    StartedFrames(v);
    assert [] + Started(v) == Started(v);
    while state.stack != []
      invariant state.Valid() && state.abi == abi && state.Aligned() && state.Result() == all
      invariant AtMost(state.values, Frames(v)) && StillToCome(state.values, Frames(v))
      decreases |state.input|
    {
      if |state.stack| > MAX_STACK_SIZE {
        TooMany(state.values, Frames(v));
        return TooDeep;
      }
      MovedFrames(state.values, Frames(v));
      ok := state.Continue();
      if !ok {
        return Rejected;
      }
    }
    NoneToCome(state.values, Frames(v));
    Ending(abi, state.writer, state.sizes, state.target, state.skipped);
    PartsInOrder(abi, t, v, true, false);
    var bin := Assemble(state.writer, state.sizes);
    r := Accepted(bin);
  }

  /** Copies the bytes with the sizes between them. */
  method Assemble(writer: Bytes, sizes: seq<Insertion>) returns (bin: Bytes)
    requires InOrder(sizes, 0, |writer|)
    requires forall k :: 0 <= k < |sizes| ==> sizes[k].size < UINT32
    ensures bin == Splice(writer, sizes, 0)
  {
    hide Splice, InOrder, VarUInt;
    bin := [];
    var pos: nat := 0;
    assert sizes[0..] == sizes;
    for k := 0 to |sizes|
      invariant pos <= |writer| && InOrder(sizes[k..], pos, |writer|)
      invariant bin + Splice(writer, sizes[k..], pos) == Splice(writer, sizes, 0)
    {
      assert sizes[k..][1..] == sizes[k + 1..];
      SpliceNext(writer, sizes[k..], pos);
      bin := bin + writer[pos..sizes[k].position];
      var ok, r := WriteVarUInt32(sizes[k].size, bin);
      bin := r;
      pos := sizes[k].position;
    }
    assert sizes[|sizes|..] == [];
    SpliceEnd(writer, pos);
    bin := bin + writer[pos..];
  }

  lemma Beginning(abi: Abi, input: seq<Token>, all: Option<Parts>)
    requires Resolved(abi)
    ensures input == input + AllTokensLeft(abi, [], [], []) && Join([], [], Onto(abi, all, [], [], [])) == all
  {
    JoinNothing(Onto(abi, all, [], [], []));
    if all.Some? { JoinLast(all.value); }
  }

  lemma TopFails(abi: Abi, stack: seq<Entry>, values: seq<Pending>, target: seq<Insertion>, skipped: bool, writer: Bytes)
    requires Resolved(abi) && StackOk(abi, stack, values, target) && stack != []
    ensures var t := stack[|stack| - 1].t; Known(abi, t) && (abi.defs[t].StructOf? || abi.defs[t].ArrayOf? || abi.defs[t].VariantOf?)
    ensures RestOf(abi, stack[|stack| - 1], values[|stack| - 1], target, skipped).None? ==> Join(writer, target, Rest(abi, stack, values, target, skipped)) == None
  {
  }

  lemma Ending(abi: Abi, writer: Bytes, sizes: seq<Insertion>, target: seq<Insertion>, skipped: bool)
    requires Resolved(abi) && |sizes| == |target|
    requires forall k :: 0 <= k < |sizes| ==> sizes[k].position == target[k].position && (sizes[k] == target[k] || IsOpen(abi, [], k))
    ensures sizes == target && Join(writer, target, Rest(abi, [], [], target, skipped)) == Some(Parts(writer, sizes, skipped))
  {
    JoinLast(Parts(writer, target, skipped));
  }
}
