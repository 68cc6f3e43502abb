/** Generating a DWARF line-number program, and the machine that runs it (DWARF version 4,
    sections 6.2 and 7.6). */
module LineProgram {
  import opened Basics
  import opened Options
  import opened ByteStrings
  import opened SortedSearch

  // ----- signed numbers of variable length -----

  /** Seven bits a byte, low bits first; bit 6 of the last byte is the sign. */
  function SignedLeb(v: int): (r: Bytes)
    ensures |r| > 0
    decreases if v < 0 then -v else v
  {
    if -64 <= v < 64 then [v % 128] else [v % 128 + 128] + SignedLeb(v / 128)
  }

  datatype ReadInt = ReadInt(value: int, rest: Bytes)

  function SignedLebFrom(data: Bytes): Option<ReadInt>
    decreases |data|
  {
    if data == [] then None
    else if data[0] < 64 then Some(ReadInt(data[0], data[1..]))
    else if data[0] < 128 then Some(ReadInt(data[0] as int - 128, data[1..]))
    else
      var r := SignedLebFrom(data[1..]);
      if r.None? then None else Some(ReadInt(data[0] as int - 128 + 128 * r.value.value, r.value.rest))
  }

  lemma {:induction false} SignedLebReads(v: int, rest: Bytes)
    ensures SignedLebFrom(SignedLeb(v) + rest) == Some(ReadInt(v, rest))
    decreases if v < 0 then -v else v
  {
    if -64 <= v < 64 {
      assert ([v % 128] + rest)[1..] == rest;
    } else {
      var tail := SignedLeb(v / 128) + rest;
      assert SignedLeb(v) + rest == [v % 128 + 128] + tail;
      assert ([v % 128 + 128] + tail)[1..] == tail;
      SignedLebReads(v / 128, rest);
    }
  }

  /** The examples of the standard's section 7.6. */
  lemma SignedExamples()
    ensures SignedLeb(2) == [2] && SignedLeb(-2) == [0x7e] && SignedLeb(127) == [0xff, 0] && SignedLeb(-127) == [0x81, 0x7f]
    ensures SignedLeb(128) == [0x80, 1] && SignedLeb(-128) == [0x80, 0x7f] && SignedLeb(129) == [0x81, 1] && SignedLeb(-129) == [0xff, 0x7e]
  {
  }

  // ----- the machine -----

  /** The registers a line program of this kind uses, and a row of the table it makes. */
  datatype Registers = Registers(address: nat, file: nat, line: nat)
  datatype Row = Row(address: nat, file: nat, line: nat, endSequence: bool)

  const INITIAL := Registers(0, 1, 1)

  datatype Instruction =
    | Copy
    | AdvanceLine(delta: int)
    | SetFile(file: nat)
    | EndSequence
    | SetAddress(address: nat)

  function RowOf(r: Registers, end: bool): Row { Row(r.address, r.file, r.line, end) }

  /** The rows and the registers after one instruction. */
  function Step(i: Instruction, r: Registers): (seq<Row>, Registers) {
    match i
    case Copy => ([RowOf(r, false)], r)
    case AdvanceLine(v) => ([], r.(line := (r.line + v) % UINT32))
    case SetFile(n) => ([], r.(file := n))
    case EndSequence => ([RowOf(r, true)], INITIAL)
    case SetAddress(a) => ([], r.(address := a))
  }

  /** Decodes the first instruction. */
  function Fetch(prog: Bytes): Option<(Instruction, Bytes)>
    requires prog != []
  {
    var rest := prog[1..];
    if prog[0] == 1 then Some((Copy, rest))
    else if prog[0] == 3 then
      var v := SignedLebFrom(rest);
      if v.None? then None else Some((AdvanceLine(v.value.value), v.value.rest))
    else if prog[0] == 4 then
      var n := VarUIntFrom(rest, 0);
      if n.None? then None else Some((SetFile(n.value.value), n.value.rest))
    else if prog[0] == 0 then FetchExtended(rest)
    else None
  }

  /** An extended instruction is its length, then its bytes. */
  function FetchExtended(rest: Bytes): Option<(Instruction, Bytes)> {
    var n := VarUIntFrom(rest, 0);
    if n.None? || n.value.value == 0 || n.value.value > |n.value.rest| then None
    else
      var body, after := n.value.rest[..n.value.value], n.value.rest[n.value.value..];
      if body == [1] then Some((EndSequence, after))
      else if body[0] == 2 && |body| == 9 then Some((SetAddress(FromLittle(body[1..])), after))
      else None
  }

  lemma {:induction false} ReadsOn(data: Bytes, k: nat)
    ensures var r := VarUIntFrom(data, k); r.Some? ==> |r.value.rest| < |data|
    decreases |data|
  {
    if k != 5 && data != [] && data[0] >= 128 { ReadsOn(data[1..], k + 1); }
  }

  lemma {:induction false} SignedReadsOn(data: Bytes)
    ensures var r := SignedLebFrom(data); r.Some? ==> |r.value.rest| < |data|
    decreases |data|
  {
    if data != [] && data[0] >= 128 { SignedReadsOn(data[1..]); }
  }

  lemma FetchConsumes(prog: Bytes)
    requires prog != []
    ensures Fetch(prog).Some? ==> |Fetch(prog).value.1| < |prog|
  {
    ReadsOn(prog[1..], 0);
    SignedReadsOn(prog[1..]);
  }

  /** Runs a program: the rows it makes, or None if it cannot be decoded. */
  function Run(prog: Bytes, r: Registers): Option<seq<Row>>
    decreases |prog|
  {
    if prog == [] then Some([])
    else
      FetchConsumes(prog);
      var f := Fetch(prog);
      if f.None? then None
      else
        var (rows, r') := Step(f.value.0, r);
        var more := Run(f.value.1, r');
        if more.None? then None else Some(rows + more.value)
  }

  // ----- what the standard says of the machine -----

  /** The registers at the start and after the end of a sequence: address 0, file 1, line 1
      (section 6.2.2). */
  lemma StartsAtLineOne(r: Registers)
    ensures Run([1], INITIAL) == Some([Row(0, 1, 1, false)])
    ensures Run([0, 1, 1, 1], r) == Some([Row(r.address, r.file, r.line, true), Row(0, 1, 1, false)])
  {
    CopyFetched([]);
    EndFetched([1]);
    hide Run, Fetch;
    assert [1] + [] == [1] && [0, 1, 1] + [1] == [0, 1, 1, 1];
    OneRun([1], Copy, [], INITIAL);
    OneRun([0, 1, 1, 1], EndSequence, [1], r);
    RunNothing(INITIAL);
    var x, y := Row(r.address, r.file, r.line, true), Row(0, 1, 1, false);
    assert [x] + [y] == [x, y];
  }

  /** The standard opcodes 1, 3 and 4 and the extended ones 1 and 2 (sections 6.2.5.2 and 6.2.5.3):
      setting an address and a file and advancing the line, for deltas of one byte. */
  lemma StandardOpcodes(a: nat, f: byte, d: int, r: Registers)
    requires a < Pow256(8) && f < 128 && -64 <= d < 64
    ensures Run([0, 9, 2] + LittleEndian(a, 8) + [4, f, 3, if d < 0 then d + 128 else d, 1], r) == Some([Row(a, f, (r.line + d) % UINT32, false)])
  {
    hide Run, Fetch, Pow256, LittleEndian;
    var b: byte := if d < 0 then d + 128 else d;
    var r1 := Registers(a, r.file, r.line);
    AddressFetched(a, [4, f, 3, b, 1]);
    OneRun([0, 9, 2] + LittleEndian(a, 8) + [4, f, 3, b, 1], SetAddress(a), [4, f, 3, b, 1], r);
    LineAndFile(f, d, b, r1);
  }

  lemma LineAndFile(f: byte, d: int, b: byte, r: Registers)
    requires f < 128 && -64 <= d < 64 && b == if d < 0 then d + 128 else d
    ensures Run([4, f, 3, b, 1], r) == Some([Row(r.address, f, (r.line + d) % UINT32, false)])
  {
    hide Run, Fetch;
    FileFetched(f, [3, b, 1]);
    LineFetched(d, b, [1]);
    CopyFetched([]);
    assert [4, f] + [3, b, 1] == [4, f, 3, b, 1] && [3, b] + [1] == [3, b, 1] && [1] + [] == [1];
    var r2, r3 := Registers(r.address, f, r.line), Registers(r.address, f, (r.line + d) % UINT32);
    OneRun([4, f, 3, b, 1], SetFile(f), [3, b, 1], r);
    OneRun([3, b, 1], AdvanceLine(d), [1], r2);
    OneRun([1], Copy, [], r3);
    RunNothing(r3);
  }

  lemma RunNothing(r: Registers)
    ensures Run([], r) == Some([])
  {
  }

  lemma OneRun(prog: Bytes, i: Instruction, rest: Bytes, r: Registers)
    requires prog != [] && Fetch(prog) == Some((i, rest))
    ensures var (rows, r') := Step(i, r);
            var more := Run(rest, r');
            && Run(prog, r) == (if more.None? then None else Some(rows + more.value))
            && (rows == [] ==> Run(prog, r) == more) && (more == Some([]) ==> Run(prog, r) == Some(rows))
  {
    var m := Run(rest, Step(i, r).1);
    if m.Some? { assert [] + m.value == m.value && Step(i, r).0 + [] == Step(i, r).0; }
  }

  lemma CopyFetched(rest: Bytes)
    ensures Fetch([1] + rest) == Some((Copy, rest))
  {
    assert ([1] + rest)[1..] == rest;
  }

  lemma EndFetched(rest: Bytes)
    ensures Fetch([0, 1, 1] + rest) == Some((EndSequence, rest))
  {
    var prog := [0, 1, 1] + rest;
    assert prog[1..][1..] == [1] + rest && ([1] + rest)[..1] == [1] && ([1] + rest)[1..] == rest;
    OneByteNumber(prog[1..]);
  }

  lemma AddressFetched(a: nat, rest: Bytes)
    requires a < Pow256(8)
    ensures Fetch([0, 9, 2] + LittleEndian(a, 8) + rest) == Some((SetAddress(a), rest))
  {
    var body: Bytes := [2] + LittleEndian(a, 8);
    var prog := [0, 9, 2] + LittleEndian(a, 8) + rest;
    assert prog[1..][1..] == body + rest && (body + rest)[..9] == body && (body + rest)[9..] == rest;
    OneByteNumber(prog[1..]);
    LittleReadsBack(a, 8);
    assert body[1..] == LittleEndian(a, 8);
  }

  lemma FileFetched(f: byte, rest: Bytes)
    requires f < 128
    ensures Fetch([4, f] + rest) == Some((SetFile(f), rest))
  {
    assert ([4, f] + rest)[1..][1..] == rest;
    OneByteNumber(([4, f] + rest)[1..]);
  }

  lemma LineFetched(d: int, b: byte, rest: Bytes)
    requires -64 <= d < 64 && b == if d < 0 then d + 128 else d
    ensures Fetch([3, b] + rest) == Some((AdvanceLine(d), rest))
  {
    assert ([3, b] + rest)[1..][1..] == rest;
  }

  lemma OneByteNumber(data: Bytes)
    requires data != [] && data[0] < 128
    ensures VarUIntFrom(data, 0) == Some(Read(data[0], data[1..]))
  {
    assert Pow128(0) == 1;
  }

  // ----- instructions as bytes -----

  function Extended(body: Bytes): Bytes { [0] + VarUInt(|body|) + body }

  function Encoded(i: Instruction): Bytes {
    match i
    case Copy => [1]
    case AdvanceLine(v) => [3] + SignedLeb(v)
    case SetFile(n) => [4] + VarUInt(n)
    case EndSequence => Extended([1])
    case SetAddress(a) => Extended([2] + LittleEndian(a, 8))
  }

  predicate Encodable(i: Instruction) {
    (i.SetFile? ==> i.file < UINT32) && (i.SetAddress? ==> i.address < Pow256(8))
  }

  /** Decoding finds the instruction that was written. */
  lemma FetchesEncoded(i: Instruction, rest: Bytes)
    requires Encodable(i)
    ensures Encoded(i) != [] && Fetch(Encoded(i) + rest) == Some((i, rest))
  {
    hide Fetch, SignedLeb, VarUInt, LittleEndian, Pow256;
    match i
    case Copy => CopyFetched(rest);
    case AdvanceLine(v) => FetchesLine(v, rest);
    case SetFile(n) => FetchesFile(n, rest);
    case EndSequence => FetchesEnd(rest);
    case SetAddress(a) => FetchesAddress(a, rest);
  }

  lemma FetchesLine(v: int, rest: Bytes)
    ensures Fetch([3] + SignedLeb(v) + rest) == Some((AdvanceLine(v), rest))
  {
    hide SignedLeb, SignedLebFrom;
    SignedLebReads(v, rest);
    assert ([3] + SignedLeb(v) + rest)[1..] == SignedLeb(v) + rest;
  }

  lemma FetchesFile(n: nat, rest: Bytes)
    requires n < UINT32
    ensures Fetch([4] + VarUInt(n) + rest) == Some((SetFile(n), rest))
  {
    hide VarUInt, VarUIntFrom;
    ReadBack(n, rest);
    assert ([4] + VarUInt(n) + rest)[1..] == VarUInt(n) + rest;
  }

  lemma FetchesEnd(rest: Bytes)
    ensures Extended([1]) != [] && Fetch(Extended([1]) + rest) == Some((EndSequence, rest))
  {
    hide VarUInt, VarUIntFrom, Extended;
    FetchesExtended([1], rest);
  }

  lemma FetchesAddress(a: nat, rest: Bytes)
    requires a < Pow256(8)
    ensures Extended([2] + LittleEndian(a, 8)) != []
    ensures Fetch(Extended([2] + LittleEndian(a, 8)) + rest) == Some((SetAddress(a), rest))
  {
    hide VarUInt, VarUIntFrom, Extended, LittleEndian, FromLittle, Pow256;
    var body := [2] + LittleEndian(a, 8);
    LittleReadsBack(a, 8);
    assert body[1..] == LittleEndian(a, 8);
    FetchesExtended(body, rest);
  }

  lemma FetchesExtended(body: Bytes, rest: Bytes)
    requires 0 < |body| < 128
    ensures var prog := Extended(body) + rest;
            && Extended(body) != [] && prog[0] == 0 && VarUIntFrom(prog[1..], 0) == Some(Read(|body|, body + rest))
            && (body + rest)[..|body|] == body && (body + rest)[|body|..] == rest
  {
    hide VarUInt, VarUIntFrom;
    var prog := Extended(body) + rest;
    assert prog[1..] == VarUInt(|body|) + (body + rest);
    ReadBack(|body|, body + rest);
  }

  // ----- programs as instructions -----

  /** The rows instructions make, and the registers they leave. */
  function Exec(code: seq<Instruction>, r: Registers): (seq<Row>, Registers) {
    if code == [] then ([], r)
    else
      var (rows, r') := Step(code[0], r);
      var (more, r'') := Exec(code[1..], r');
      (rows + more, r'')
  }

  function AllEncoded(code: seq<Instruction>): Bytes {
    if code == [] then [] else Encoded(code[0]) + AllEncoded(code[1..])
  }

  predicate AllEncodable(code: seq<Instruction>) {
    forall k :: 0 <= k < |code| ==> Encodable(code[k])
  }

  /** Running the bytes is executing the instructions. */
  lemma {:induction false} RunIsExec(code: seq<Instruction>, r: Registers)
    requires AllEncodable(code)
    ensures Run(AllEncoded(code), r) == Some(Exec(code, r).0)
  {
    if code != [] {
      hide Fetch, Encoded;
      FetchesEncoded(code[0], AllEncoded(code[1..]));
      RunIsExec(code[1..], Step(code[0], r).1);
    }
  }

  lemma {:induction false} ExecConcat(a: seq<Instruction>, b: seq<Instruction>, r: Registers)
    ensures Exec(a + b, r) == (Exec(a, r).0 + Exec(b, Exec(a, r).1).0, Exec(b, Exec(a, r).1).1)
  {
    if a == [] {
      assert a + b == b;
      assert [] + Exec(b, r).0 == Exec(b, r).0;
    } else {
      assert (a + b)[1..] == a[1..] + b && (a + b)[0] == a[0];
      var (rows, r') := Step(a[0], r);
      ExecConcat(a[1..], b, r');
      var x, y := Exec(a[1..], r'), Exec(b, Exec(a[1..], r').1);
      assert rows + (x.0 + y.0) == rows + x.0 + y.0;
    }
  }

  lemma {:induction false} EncodedConcat(a: seq<Instruction>, b: seq<Instruction>)
    ensures AllEncoded(a + b) == AllEncoded(a) + AllEncoded(b)
  {
    if a == [] {
      assert a + b == b;
    } else {
      assert (a + b)[1..] == a[1..] + b && (a + b)[0] == a[0];
      EncodedConcat(a[1..], b);
    }
  }

  // ----- what is to be written -----

  /** A source line and the wasm code it covers; an instruction and its machine code. */

  datatype Location = Location(beginAddress: uint32, endAddress: uint32, fileIndex: uint32, line: uint32)
  datatype Instr = Instr(codeOffset: uint32, wasmAddr: uint32)

  /** A location that has machine code. */
  datatype Mapped = Mapped(first: nat, second: nat, file: nat, line: nat)

  function WasmAddrs(instrs: seq<Instr>): (r: seq<nat>)
    ensures |r| == |instrs| && forall i :: 0 <= i < |instrs| ==> r[i] == instrs[i].wasmAddr
  {
    seq(|instrs|, i requires 0 <= i < |instrs| => instrs[i].wasmAddr)
  }

  /** get_addr_range: from the first instruction at or after `begin` up to the first one at
      or after `end`; None if there is nothing between or nothing after. */
  function AddrRange(instrs: seq<Instr>, wasmCodeOffset: nat, codeStart: nat, begin: nat, end: nat): Option<(nat, nat)> {
    var i := LowerBound(WasmAddrs(instrs), (wasmCodeOffset + begin) % UINT32);
    var j := LowerBound(WasmAddrs(instrs), (wasmCodeOffset + end) % UINT32);
    if i < j && j != |instrs| then Some((codeStart + instrs[i].codeOffset, codeStart + instrs[j].codeOffset)) else None
  }

  /** The locations that have machine code, in order. */
  function AllMapped(locs: seq<Location>, instrs: seq<Instr>, wasmCodeOffset: nat, codeStart: nat): seq<Mapped> {
    if locs == [] then []
    else
      var l := locs[|locs| - 1];
      var before := AllMapped(locs[..|locs| - 1], instrs, wasmCodeOffset, codeStart);
      var range := AddrRange(instrs, wasmCodeOffset, codeStart, l.beginAddress, l.endAddress);
      if range.None? then before
      else before + [Mapped(range.value.0, range.value.1, (l.fileIndex + 1) % UINT32, l.line)]
  }

  /** The rows to make: one for each mapped location; a sequence ends where the next
      location starts lower, and at the end. */
  function Wanted(ms: seq<Mapped>, r: Registers): (seq<Row>, Registers) {
    if ms == [] then ([], r)
    else
      var m := ms[|ms| - 1];
      var (rows, b) := Wanted(ms[..|ms| - 1], r);
      (rows + (if m.first < b.address then [RowOf(b, true)] else []) + [Row(m.first, m.file, m.line, false)],
       Registers(m.second, m.file, m.line))
  }

  // ----- the writer -----

  /** The low 32 bits as a signed number. */
  function Int32(x: int): int {
    var d := x % UINT32;
    if d >= UINT32 / 2 then d - UINT32 else d
  }

  lemma AdvanceReaches(line: nat, to: nat)
    requires line < UINT32 && to < UINT32
    ensures (line + Int32(to - line)) % UINT32 == to
  {
  }

  /** sleb64_to_bin. */
  method WriteSignedLeb(val: int, data: Bytes) returns (r: Bytes)
    ensures r == data + SignedLeb(val)
  {
    r := data;
    var v, done := val, false;
    while !done
      invariant (if done then r else r + SignedLeb(v)) == data + SignedLeb(val)
      decreases !done, if v < 0 then -v else v
    {
      var b := v % 128;
      done := v / 64 == v / 128;
      LastIsSmall(v);
      v := v / 128;
      r := r + [if done then b else b + 128];
    }
  }

  /** The shifted value is all sign bits exactly when seven bits hold it. */
  lemma LastIsSmall(v: int)
    ensures v / 64 == v / 128 <==> -64 <= v < 64
  {
  }

  method WriteExtended(s: Bytes, body: Bytes) returns (r: Bytes)
    requires |body| < 128
    ensures r == s + Extended(body)
  {
    var ok;
    ok, r := WriteVarUInt32(|body|, s + [0]);
    r := r + body;
    assert s + [0] + VarUInt(|body|) + body == s + ([0] + VarUInt(|body|) + body);
  }

  /** Writing one more instruction. */
  lemma OneMore(code: seq<Instruction>, i: Instruction, s: Bytes, r: Registers)
    requires s == AllEncoded(code) && AllEncodable(code) && Encodable(i)
    ensures AllEncodable(code + [i]) && AllEncoded(code + [i]) == s + Encoded(i)
    ensures var (rows, b) := Exec(code, r); Exec(code + [i], r) == (rows + Step(i, b).0, Step(i, b).1)
  {
    hide Encoded;
    EncodedConcat(code, [i]);
    ExecConcat(code, [i], r);
    assert AllEncoded([i]) == Encoded(i) + [] by { assert [i][1..] == []; }
    assert [i][1..] == [];
    var b := Exec(code, r).1;
    assert Exec([i], b) == (Step(i, b).0 + [], Step(i, b).1);
    assert Step(i, b).0 + [] == Step(i, b).0;
  }

  /** The program so far, as a writer's state. */
  ghost predicate Writing(s: Bytes, code: seq<Instruction>, rows: seq<Row>, r: Registers) {
    AllEncodable(code) && s == AllEncoded(code) && Exec(code, INITIAL) == (rows, r)
  }

  lemma Emitted(s: Bytes, code: seq<Instruction>, rows: seq<Row>, r: Registers, i: Instruction)
    requires Writing(s, code, rows, r) && Encodable(i)
    ensures Writing(s + Encoded(i), code + [i], rows + Step(i, r).0, Step(i, r).1)
  {
    OneMore(code, i, s, INITIAL);
  }

  class LineWriter {
    var s: Bytes
    var address: nat
    var file: nat
    var line: nat
    /** The program as instructions, and the rows it makes. */
    ghost var code: seq<Instruction>
    ghost var rows: seq<Row>

    constructor ()
      ensures Valid() && Now() == INITIAL && rows == []
    {
      s, address, file, line, code, rows := [], 0, 1, 1, [], [];
    }

    ghost function Now(): Registers
      reads this
    {
      Registers(address, file, line)
    }

    ghost predicate Valid()
      reads this
    {
      Writing(s, code, rows, Now()) && line < UINT32
    }

    method WriteEndSequence()
      requires Valid()
      modifies this
      ensures Valid() && Now() == INITIAL && rows == old(rows) + [RowOf(old(Now()), true)]
    {
      Emitted(s, code, rows, Now(), EndSequence);
      s := WriteExtended(s, [1]);
      code, rows := code + [EndSequence], rows + [RowOf(Now(), true)];
      address, file, line := 0, 1, 1;
    }

    method WriteSetAddress(a: nat)
      requires Valid() && a < Pow256(8)
      modifies this
      ensures Valid() && Now() == old(Now()).(address := a) && rows == old(rows)
    {
      hide Writing, Pow256;
      Emitted(s, code, rows, Now(), SetAddress(a));
      s := WriteExtended(s, [2] + LittleEndian(a, 8));
      assert rows + [] == rows;
      code := code + [SetAddress(a)];
      address := a;
    }

    method WriteSetFile(n: nat)
      requires Valid() && n < UINT32
      modifies this
      ensures Valid() && Now() == old(Now()).(file := n) && rows == old(rows)
    {
      hide Writing;
      Emitted(s, code, rows, Now(), SetFile(n));
      assert s + [4] + VarUInt(n) == s + ([4] + VarUInt(n));
      var ok;
      ok, s := WriteVarUInt32(n, s + [4]);
      assert rows + [] == rows;
      code := code + [SetFile(n)];
      file := n;
    }

    method WriteAdvanceLine(to: nat)
      requires Valid() && to < UINT32
      modifies this
      ensures Valid() && Now() == old(Now()).(line := to) && rows == old(rows)
    {
      hide Writing;
      var delta := Int32(to - line);
      Emitted(s, code, rows, Now(), AdvanceLine(delta));
      AdvanceReaches(line, to);
      assert s + [3] + SignedLeb(delta) == s + ([3] + SignedLeb(delta));
      s := WriteSignedLeb(delta, s + [3]);
      assert rows + [] == rows;
      code := code + [AdvanceLine(delta)];
      line := to;
    }

    method WriteCopy()
      requires Valid()
      modifies this
      ensures Valid() && Now() == old(Now()) && rows == old(rows) + [RowOf(Now(), false)]
    {
      hide Writing;
      Emitted(s, code, rows, Now(), Copy);
      s := s + [1];
      code, rows := code + [Copy], rows + [RowOf(Now(), false)];
    }

    /** One mapped location: ends the sequence if it starts lower, sets what differs, makes
        its row, and moves to its end. */
    method WriteLocation(m: Mapped)
      requires Valid() && m.file < UINT32 && m.line < UINT32 && m.first < Pow256(8) && m.second < Pow256(8)
      modifies this
      ensures Valid() && Now() == Registers(m.second, m.file, m.line)
      ensures rows == old(rows) + (if m.first < old(address) then [RowOf(old(Now()), true)] else []) + [Row(m.first, m.file, m.line, false)]
    {
      hide Valid, Pow256;
      if m.first != address {
        if m.first < address {
          WriteEndSequence();
        }
        WriteSetAddress(m.first);
      }
      if file != m.file {
        WriteSetFile(m.file);
      }
      if line != m.line {
        WriteAdvanceLine(m.line);
      }
      WriteCopy();
      if address != m.second {
        WriteSetAddress(m.second);
      }
    }
  }

  /** The program makes one row for each mapped location, in order, and ends its sequences. */
  method WriteLineProgram(locs: seq<Location>, instrs: seq<Instr>, wasmCodeOffset: uint32, codeStart: nat) returns (s: Bytes)
    requires codeStart + UINT32 <= Pow256(8)
    ensures var (rows, r) := Wanted(AllMapped(locs, instrs, wasmCodeOffset, codeStart), INITIAL);
            Run(s, INITIAL) == Some(rows + [RowOf(r, true)])
    ensures Run(s, INITIAL).Some? && RowPerLocation(AllMapped(locs, instrs, wasmCodeOffset, codeStart), Run(s, INITIAL).value)
    ensures CodeInOrder(instrs) ==> Climbs(Run(s, INITIAL).value)
    ensures Table(AllMapped(locs, instrs, wasmCodeOffset, codeStart), Run(s, INITIAL).value)
  {
    TableIs(AllMapped(locs, instrs, wasmCodeOffset, codeStart));
    hide Run, AddrRange, Pow256, Writing, Climbs, Table, RowPerLocation, CodeInOrder, AllMapped, Wanted;
    NothingMapped(instrs, wasmCodeOffset, codeStart);
    var w := new LineWriter();
    assert locs[..0] == [];
    for k := 0 to |locs|
      invariant w.Valid() && Wanted(AllMapped(locs[..k], instrs, wasmCodeOffset, codeStart), INITIAL) == (w.rows, w.Now())
    {
      var l := locs[k];
      MappedNext(locs, instrs, wasmCodeOffset, codeStart, k);
      var range := AddrRange(instrs, wasmCodeOffset, codeStart, l.beginAddress, l.endAddress);
      if range.Some? {
        RangeInCode(instrs, wasmCodeOffset, codeStart, l.beginAddress, l.endAddress);
        var m := Mapped(range.value.0, range.value.1, (l.fileIndex + 1) % UINT32, l.line);
        WantedNext(AllMapped(locs[..k], instrs, wasmCodeOffset, codeStart), m);
        w.WriteLocation(m);
      }
    }
    assert locs[..|locs|] == locs;
    w.WriteEndSequence();
    RunsAs(w.s, w.code, w.rows, w.Now());
    s := w.s;
    ProgramRight(locs, instrs, wasmCodeOffset, codeStart);
  }

  lemma ProgramRight(locs: seq<Location>, instrs: seq<Instr>, wasmCodeOffset: uint32, codeStart: nat)
    ensures var ms := AllMapped(locs, instrs, wasmCodeOffset, codeStart);
            var (rows, r) := Wanted(ms, INITIAL);
            RowPerLocation(ms, rows + [RowOf(r, true)]) && (CodeInOrder(instrs) ==> Climbs(rows + [RowOf(r, true)]))
  {
    hide AllMapped, Wanted, RowPerLocation, Climbs, CodeInOrder;
    RowsRight(AllMapped(locs, instrs, wasmCodeOffset, codeStart));
    if CodeInOrder(instrs) {
      MappedAscend(locs, instrs, wasmCodeOffset, codeStart);
      RowsClimb(AllMapped(locs, instrs, wasmCodeOffset, codeStart));
    }
  }

  lemma MappedNext(locs: seq<Location>, instrs: seq<Instr>, wasmCodeOffset: nat, codeStart: nat, k: nat)
    requires k < |locs|
    ensures var l := locs[k];
            var range := AddrRange(instrs, wasmCodeOffset, codeStart, l.beginAddress, l.endAddress);
            var before := AllMapped(locs[..k], instrs, wasmCodeOffset, codeStart);
            AllMapped(locs[..k + 1], instrs, wasmCodeOffset, codeStart) ==
              if range.None? then before else before + [Mapped(range.value.0, range.value.1, (l.fileIndex + 1) % UINT32, l.line)]
  {
    hide AddrRange;
    assert locs[..k + 1][..k] == locs[..k];
  }

  /** The mapped location `m` is `l`, with files counted from 1. */
  ghost predicate MapsTo(l: Location, range: Option<(nat, nat)>, m: Mapped) {
    range == Some((m.first, m.second)) && m.file == (l.fileIndex + 1) % 0x1_0000_0000 && m.line == l.line
  }

  /** The mapped locations are those that have a range, in their order; `at` says where each is. */
  ghost predicate Picked(locs: seq<Location>, instrs: seq<Instr>, wasmCodeOffset: nat, codeStart: nat, ms: seq<Mapped>, at: seq<nat>) {
    && |at| == |ms| && (forall i, j :: 0 <= i < j < |at| ==> at[i] < at[j])
    && (forall i :: 0 <= i < |at| ==> at[i] < |locs|)
    && (forall k :: 0 <= k < |locs| && AddrRange(instrs, wasmCodeOffset, codeStart, locs[k].beginAddress, locs[k].endAddress).Some? ==> k in at)
    && (forall i :: 0 <= i < |at| ==>
         MapsTo(locs[at[i]], AddrRange(instrs, wasmCodeOffset, codeStart, locs[at[i]].beginAddress, locs[at[i]].endAddress), ms[i]))
  }

  lemma {:induction false} MappedAre(locs: seq<Location>, instrs: seq<Instr>, wasmCodeOffset: nat, codeStart: nat)
      returns (at: seq<nat>)
    ensures Picked(locs, instrs, wasmCodeOffset, codeStart, AllMapped(locs, instrs, wasmCodeOffset, codeStart), at)
    decreases |locs|
  {
    hide AddrRange, AllMapped, Picked, MapsTo;
    if locs == [] {
      NothingMapped(instrs, wasmCodeOffset, codeStart);
      at := NothingPicked(instrs, wasmCodeOffset, codeStart);
      return;
    }
    var n := |locs| - 1;
    var l := locs[n];
    at := MappedAre(locs[..n], instrs, wasmCodeOffset, codeStart);
    MappedNext(locs, instrs, wasmCodeOffset, codeStart, n);
    assert locs[..n + 1] == locs;
    var before := AllMapped(locs[..n], instrs, wasmCodeOffset, codeStart);
    var range := AddrRange(instrs, wasmCodeOffset, codeStart, l.beginAddress, l.endAddress);
    if range.Some? {
      var m := Mapped(range.value.0, range.value.1, (l.fileIndex + 1) % UINT32, l.line);
      Maps(l, range.value);
      PickedMore(locs, instrs, wasmCodeOffset, codeStart, before, at, m);
      at := at + [n];
    } else {
      PickedNoMore(locs, instrs, wasmCodeOffset, codeStart, before, at);
    }
  }

  lemma Maps(l: Location, range: (nat, nat))
    ensures MapsTo(l, Some(range), Mapped(range.0, range.1, (l.fileIndex + 1) % UINT32, l.line))
  {
  }

  lemma NothingPicked(instrs: seq<Instr>, wasmCodeOffset: nat, codeStart: nat) returns (at: seq<nat>)
    ensures Picked([], instrs, wasmCodeOffset, codeStart, [], at)
  {
    at := [];
  }

  lemma PickedNoMore(locs: seq<Location>, instrs: seq<Instr>, wasmCodeOffset: nat, codeStart: nat, ms: seq<Mapped>, at: seq<nat>)
    requires var n := |locs| - 1;
             && n >= 0 && Picked(locs[..n], instrs, wasmCodeOffset, codeStart, ms, at)
             && AddrRange(instrs, wasmCodeOffset, codeStart, locs[n].beginAddress, locs[n].endAddress).None?
    ensures Picked(locs, instrs, wasmCodeOffset, codeStart, ms, at)
  {
    hide AddrRange, MapsTo;
    var n := |locs| - 1;
    assert forall k :: 0 <= k < n ==> locs[..n][k] == locs[k];
  }

  lemma PickedMore(locs: seq<Location>, instrs: seq<Instr>, wasmCodeOffset: nat, codeStart: nat, ms: seq<Mapped>, at: seq<nat>, m: Mapped)
    requires var n := |locs| - 1;
             && n >= 0 && Picked(locs[..n], instrs, wasmCodeOffset, codeStart, ms, at)
             && MapsTo(locs[n], AddrRange(instrs, wasmCodeOffset, codeStart, locs[n].beginAddress, locs[n].endAddress), m)
    ensures Picked(locs, instrs, wasmCodeOffset, codeStart, ms + [m], at + [|locs| - 1])
  {
    hide AddrRange, MapsTo;
    var n, at' := |locs| - 1, at + [|locs| - 1];
    forall k | 0 <= k < |locs| && AddrRange(instrs, wasmCodeOffset, codeStart, locs[k].beginAddress, locs[k].endAddress).Some?
      ensures k in at'
    {
      if k < n { assert locs[..n][k] == locs[k] && k in at; }
    }
    forall i | 0 <= i < |at|
      ensures MapsTo(locs[at[i]], AddrRange(instrs, wasmCodeOffset, codeStart, locs[at[i]].beginAddress, locs[at[i]].endAddress), ms[i])
    {
      assert locs[..n][at[i]] == locs[at[i]];
    }
  }

  lemma NothingMapped(instrs: seq<Instr>, wasmCodeOffset: nat, codeStart: nat)
    ensures AllMapped([], instrs, wasmCodeOffset, codeStart) == [] && Wanted([], INITIAL) == ([], INITIAL)
  {
  }

  lemma RunsAs(s: Bytes, code: seq<Instruction>, rows: seq<Row>, r: Registers)
    requires Writing(s, code, rows, r)
    ensures Run(s, INITIAL) == Some(rows)
  {
    RunIsExec(code, INITIAL);
  }

  lemma WantedNext(ms: seq<Mapped>, m: Mapped)
    ensures var (rows, b) := Wanted(ms, INITIAL);
            Wanted(ms + [m], INITIAL) ==
              (rows + (if m.first < b.address then [RowOf(b, true)] else []) + [Row(m.first, m.file, m.line, false)], Registers(m.second, m.file, m.line))
  {
    assert (ms + [m])[..|ms|] == ms;
  }

  lemma RangeInCode(instrs: seq<Instr>, wasmCodeOffset: nat, codeStart: nat, begin: nat, end: nat)
    requires codeStart + UINT32 <= Pow256(8)
    ensures var r := AddrRange(instrs, wasmCodeOffset, codeStart, begin, end);
            r.Some? ==> r.value.0 < Pow256(8) && r.value.1 < Pow256(8)
  {
  }

  // ----- what the rows are -----

  function PlainRows(rows: seq<Row>): seq<Row> {
    if rows == [] then []
    else PlainRows(rows[..|rows| - 1]) + if rows[|rows| - 1].endSequence then [] else [rows[|rows| - 1]]
  }

  /** Apart from the ends of sequences there is exactly one row for each mapped location. */
  lemma {:induction false} OneRowEach(ms: seq<Mapped>)
    ensures var rows := PlainRows(Wanted(ms, INITIAL).0);
            |rows| == |ms| && forall i :: 0 <= i < |ms| ==> rows[i] == Row(ms[i].first, ms[i].file, ms[i].line, false)
  {
    hide PlainRows;
    NoRows();
    if ms != [] {
      var n := |ms| - 1;
      OneRowEach(ms[..n]);
      var (rows, b) := Wanted(ms[..n], INITIAL);
      var row := Row(ms[n].first, ms[n].file, ms[n].line, false);
      if ms[n].first < b.address {
        PlainAppend(rows, RowOf(b, true));
        PlainAppend(rows + [RowOf(b, true)], row);
      } else {
        assert rows + [] == rows;
        PlainAppend(rows, row);
      }
    }
  }

  lemma NoRows()
    ensures PlainRows([]) == []
  {
  }

  lemma PlainAppend(rows: seq<Row>, row: Row)
    ensures PlainRows(rows + [row]) == PlainRows(rows) + if row.endSequence then [] else [row]
  {
    assert (rows + [row])[..|rows|] == rows;
  }

  /** How many locations start lower than the one before them ends. */
  function Drops(ms: seq<Mapped>): nat {
    var n := |ms| - 1;
    if |ms| < 2 then 0 else Drops(ms[..n]) + if ms[n].first < ms[n - 1].second then 1 else 0
  }

  /** Whether a sequence ends with location `i`: the next one starts lower, or there is none and
      `last` says so. */
  predicate Ends(ms: seq<Mapped>, i: nat, last: bool)
    requires i < |ms|
  {
    if i + 1 == |ms| then last else ms[i + 1].first < ms[i].second
  }

  /** The row of location `i`, and after it the end of its sequence if it ends there. */
  ghost predicate PlacedAt(ms: seq<Mapped>, rows: seq<Row>, i: nat, last: bool)
    requires i < |ms|
  {
    var m, p := ms[i], i + Drops(ms[..i + 1]);
    RowsAt(m, rows, p, Ends(ms, i, last))
  }

  ghost predicate RowsAt(m: Mapped, rows: seq<Row>, p: nat, ends: bool) {
    && p < |rows| && rows[p] == Row(m.first, m.file, m.line, false)
    && (ends ==> p + 1 < |rows| && rows[p + 1] == Row(m.second, m.file, m.line, true))
  }

  lemma RowsKept(m: Mapped, rows: seq<Row>, rows': seq<Row>, p: nat, before: bool, ends: bool)
    requires RowsAt(m, rows, p, before) && |rows| < |rows'| && rows'[..|rows|] == rows
    requires ends ==> before || (p + 1 == |rows| && rows'[|rows|] == Row(m.second, m.file, m.line, true))
    ensures RowsAt(m, rows', p, ends)
  {
    assert rows'[p] == rows'[..|rows|][p];
    if before { assert rows'[p + 1] == rows'[..|rows|][p + 1]; }
  }

  /** The whole table: the rows of the locations in order, a sequence ending where a location ends
      exactly when the next one starts lower or there is none. */
  ghost predicate Table(ms: seq<Mapped>, rows: seq<Row>) {
    && |rows| == |ms| + Drops(ms) + 1 && (ms == [] ==> rows == [Row(0, 1, 1, true)])
    && forall i :: 0 <= i < |ms| ==> PlacedAt(ms, rows, i, true)
  }

  ghost predicate TableSoFar(ms: seq<Mapped>, rows: seq<Row>, b: Registers) {
    && |rows| == |ms| + Drops(ms)
    && (b == if ms == [] then Registers(0, 1, 1) else Registers(ms[|ms| - 1].second, ms[|ms| - 1].file, ms[|ms| - 1].line))
    && forall i :: 0 <= i < |ms| ==> PlacedAt(ms, rows, i, false)
  }

  lemma {:induction false} TableGrows(ms: seq<Mapped>)
    ensures TableSoFar(ms, Wanted(ms, INITIAL).0, Wanted(ms, INITIAL).1)
    decreases |ms|
  {
    if ms != [] {
      var n := |ms| - 1;
      TableGrows(ms[..n]);
      assert ms == ms[..n] + [ms[n]];
      WantedNext(ms[..n], ms[n]);
      hide Wanted;
      var (rows, b) := Wanted(ms[..n], INITIAL);
      TableNext(ms[..n], ms[n], rows, b);
    }
  }

  lemma TableNext(ms: seq<Mapped>, m: Mapped, rows: seq<Row>, b: Registers)
    requires TableSoFar(ms, rows, b)
    ensures TableSoFar(ms + [m], rows + (if m.first < b.address then [RowOf(b, true)] else []) + [Row(m.first, m.file, m.line, false)],
                       Registers(m.second, m.file, m.line))
  {
    NextDrops(ms, m);
    hide PlacedAt, Drops;
    var all, rows' := ms + [m], rows + (if m.first < b.address then [RowOf(b, true)] else []) + [Row(m.first, m.file, m.line, false)];
    assert rows'[..|rows|] == rows;
    forall i | 0 <= i < |all|
      ensures PlacedAt(all, rows', i, false)
    {
      if i < |ms| {
        PlacedKept(ms, m, rows, rows', i);
      } else {
        NewPlaced(ms, m, rows');
      }
    }
  }

  lemma NextDrops(ms: seq<Mapped>, m: Mapped)
    ensures Drops(ms + [m]) == Drops(ms) + if ms != [] && m.first < ms[|ms| - 1].second then 1 else 0
  {
    assert (ms + [m])[..|ms|] == ms;
  }

  lemma PlacedKept(ms: seq<Mapped>, m: Mapped, rows: seq<Row>, rows': seq<Row>, i: nat)
    requires i < |ms| && PlacedAt(ms, rows, i, false) && |rows| == |ms| + Drops(ms) < |rows'| && rows'[..|rows|] == rows
    requires var l := ms[|ms| - 1]; m.first < l.second ==> rows'[|rows|] == Row(l.second, l.file, l.line, true)
    ensures PlacedAt(ms + [m], rows', i, false)
  {
    hide Drops, RowsAt;
    var all, p := ms + [m], i + Drops(ms[..i + 1]);
    assert all[..i + 1] == ms[..i + 1] && all[i] == ms[i];
    if i + 1 == |ms| {
      assert ms[..i + 1] == ms && all[i + 1] == m;
    } else {
      assert all[i + 1] == ms[i + 1];
    }
    RowsKept(ms[i], rows, rows', p, Ends(ms, i, false), Ends(all, i, false));
  }

  lemma NewPlaced(ms: seq<Mapped>, m: Mapped, rows': seq<Row>)
    requires |rows'| == |ms| + 1 + Drops(ms + [m]) && rows'[|rows'| - 1] == Row(m.first, m.file, m.line, false)
    ensures PlacedAt(ms + [m], rows', |ms|, false)
  {
    hide Drops;
    var all := ms + [m];
    assert all[..|ms| + 1] == all;
  }

  lemma TableIs(ms: seq<Mapped>)
    ensures var (rows, r) := Wanted(ms, INITIAL); Table(ms, rows + [RowOf(r, true)])
  {
    TableGrows(ms);
    assert Drops([]) == 0;
    hide Wanted, Drops;
    var (rows, r) := Wanted(ms, INITIAL);
    if ms == [] { assert rows + [RowOf(r, true)] == [RowOf(r, true)]; }
    forall i | 0 <= i < |ms|
      ensures PlacedAt(ms, rows + [RowOf(r, true)], i, true)
    {
      assert PlacedAt(ms, rows, i, false);
      if i + 1 == |ms| { assert ms[..i + 1] == ms; }
    }
  }

  /** Inside a sequence addresses do not go down. */
  ghost predicate Climbs(rows: seq<Row>) {
    forall i :: 0 < i < |rows| ==> rows[i - 1].endSequence || rows[i - 1].address <= rows[i].address
  }

  /** If no location ends before it starts in the machine code, addresses do not go down
      inside a sequence, and the program ends its last sequence. */
  lemma {:induction false} RowsClimb(ms: seq<Mapped>)
    requires forall i :: 0 <= i < |ms| ==> ms[i].first <= ms[i].second
    ensures var (rows, r) := Wanted(ms, INITIAL);
            Climbs(rows + [RowOf(r, true)]) && (rows != [] ==> !rows[|rows| - 1].endSequence && rows[|rows| - 1].address <= r.address)
  {
    if ms != [] {
      var n := |ms| - 1;
      RowsClimb(ms[..n]);
      var (rows, b) := Wanted(ms[..n], INITIAL);
      var (all, r) := Wanted(ms, INITIAL);
      var whole := all + [RowOf(r, true)];
      forall i | 0 < i < |whole| ensures whole[i - 1].endSequence || whole[i - 1].address <= whole[i].address {
        if i < |rows| {
          assert (rows + [RowOf(b, true)])[i] == whole[i] && (rows + [RowOf(b, true)])[i - 1] == whole[i - 1];
        }
      }
    }
  }

  /** The machine code is in the order of the wasm code. */
  ghost predicate CodeInOrder(instrs: seq<Instr>) {
    forall i, j :: 0 <= i < j < |instrs| ==> instrs[i].codeOffset <= instrs[j].codeOffset
  }

  /** The rows are those of the locations, in order, and ends of sequences, the last one an end. */
  ghost predicate RowPerLocation(ms: seq<Mapped>, rows: seq<Row>) {
    && |PlainRows(rows)| == |ms| && rows != [] && rows[|rows| - 1].endSequence
    && forall i :: 0 <= i < |ms| ==> PlainRows(rows)[i] == Row(ms[i].first, ms[i].file, ms[i].line, false)
  }

  lemma RowsRight(ms: seq<Mapped>)
    ensures var (rows, r) := Wanted(ms, INITIAL); RowPerLocation(ms, rows + [RowOf(r, true)])
  {
    hide PlainRows, Wanted;
    OneRowEach(ms);
    var (rows, r) := Wanted(ms, INITIAL);
    PlainAppend(rows, RowOf(r, true));
  }

  /** With the machine code in order no location that is mapped ends before it starts. */
  lemma {:induction false} MappedAscend(locs: seq<Location>, instrs: seq<Instr>, wasmCodeOffset: uint32, codeStart: nat)
    requires CodeInOrder(instrs)
    ensures var ms := AllMapped(locs, instrs, wasmCodeOffset, codeStart); forall i :: 0 <= i < |ms| ==> ms[i].first <= ms[i].second
  {
    hide AddrRange, AllMapped, CodeInOrder;
    NothingMapped(instrs, wasmCodeOffset, codeStart);
    if locs != [] {
      var n := |locs| - 1;
      MappedNext(locs, instrs, wasmCodeOffset, codeStart, n);
      assert locs[..n + 1] == locs;
      MappedAscend(locs[..n], instrs, wasmCodeOffset, codeStart);
      RangesAscend(instrs, wasmCodeOffset, codeStart, locs[n].beginAddress, locs[n].endAddress);
      var before, all := AllMapped(locs[..n], instrs, wasmCodeOffset, codeStart), AllMapped(locs, instrs, wasmCodeOffset, codeStart);
      forall i | 0 <= i < |all| ensures all[i].first <= all[i].second {
        if i < |before| { assert all[i] == before[i]; }
      }
    }
  }

  /** So no location's range ends before it starts. */
  lemma RangesAscend(instrs: seq<Instr>, wasmCodeOffset: nat, codeStart: nat, begin: nat, end: nat)
    requires CodeInOrder(instrs)
    ensures var r := AddrRange(instrs, wasmCodeOffset, codeStart, begin, end); r.Some? ==> r.value.0 <= r.value.1
  {
  }

  /** The range runs from the first instruction of the location to the first one after it,
      and there is one exactly when the location has instructions and is not the last. */
  lemma RangeCovers(instrs: seq<Instr>, wasmCodeOffset: nat, codeStart: nat, begin: nat, end: nat) returns (i: nat, j: nat)
    requires Ascending(WasmAddrs(instrs))
    ensures i <= |instrs| && j <= |instrs|
    ensures var lo, hi := (wasmCodeOffset + begin) % UINT32, (wasmCodeOffset + end) % UINT32;
            var r := AddrRange(instrs, wasmCodeOffset, codeStart, begin, end);
            && (forall k :: 0 <= k < |instrs| ==> (lo <= instrs[k].wasmAddr < hi <==> i <= k < j))
            && (r.Some? <==> i < j < |instrs|)
            && (r.Some? ==> r.value == (codeStart + instrs[i].codeOffset, codeStart + instrs[j].codeOffset))
  {
    var keys := WasmAddrs(instrs);
    var lo, hi := (wasmCodeOffset + begin) % UINT32, (wasmCodeOffset + end) % UINT32;
    LowerBoundSplits(keys, lo);
    LowerBoundSplits(keys, hi);
    hide LowerBound;
    i, j := LowerBound(keys, lo), LowerBound(keys, hi);
    forall k | 0 <= k < |instrs| ensures lo <= instrs[k].wasmAddr < hi <==> i <= k < j {
      assert keys[k] == instrs[k].wasmAddr;
    }
  }
}
