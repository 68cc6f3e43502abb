/** Cursors: the hex digits of the bytes of a key. */
module Cursors {
  import opened Options
  import opened ByteStrings

  function HexDigit(n: nat): char
    requires n < 16
  {
    if n <= 9 then ('0' as int + n) as char else ('A' as int + n - 10) as char
  }

  function Nibble(c: char): Option<nat> {
    if '0' <= c <= '9' then Some(c as int - '0' as int)
    else if 'a' <= c <= 'f' then Some(c as int - 'a' as int + 10)
    else if 'A' <= c <= 'F' then Some(c as int - 'A' as int + 10)
    else None
  }

  function Hex(b: Bytes): (s: string)
    ensures |s| == 2 * |b|
  {
    if b == [] then "" else [HexDigit(b[0] / 16), HexDigit(b[0] % 16)] + Hex(b[1..])
  }

  /** None for anything but pairs of hex digits. */
  function Unhex(s: string): Option<Bytes> {
    if s == "" then Some([])
    else if |s| == 1 || Nibble(s[0]).None? || Nibble(s[1]).None? then None
    else
      var r := Unhex(s[2..]);
      if r.None? then None else Some([(Nibble(s[0]).value * 16 + Nibble(s[1]).value) % 256] + r.value)
  }

  lemma {:induction false} UnhexReads(b: Bytes)
    ensures Unhex(Hex(b)) == Some(b)
  {
    if b != [] {
      assert Hex(b)[2..] == Hex(b[1..]);
      UnhexReads(b[1..]);
      assert b == [b[0]] + b[1..];
    }
  }

  /** What reading a cursor gives: nothing for an empty or ill-formed one; one with too
      few bytes aborts. */
  datatype CursorRead = NoCursor | CursorKey(k: nat) | CursorAborts

  function WriteCursor(k: nat, width: nat): string { Hex(LittleEndian(k, width)) }

  function ReadCursor(s: Option<string>, width: nat): CursorRead {
    if s.None? || s.value == "" then NoCursor
    else
      var b := Unhex(s.value);
      if b.None? then NoCursor
      else if |b.value| < width then CursorAborts
      else CursorKey(FromLittle(b.value[..width]))
  }

  /** A cursor that was written reads back as its key. */
  lemma CursorReadsBack(k: nat, width: nat)
    requires 0 < width && k < Pow256(width)
    ensures ReadCursor(Some(WriteCursor(k, width)), width) == CursorKey(k)
  {
    var b := LittleEndian(k, width);
    UnhexReads(b);
    LittleReadsBack(k, width);
    assert b[..width] == b;
  }

  /** The bytes of a key from the lowest, each as two capital hex digits, the high one first. */
  lemma {:induction false} CursorChars(k: nat, width: nat, i: nat)
    requires i < width
    ensures WriteCursor(k, width)[2 * i] == HexDigit(k / Pow256(i) % 256 / 16)
    ensures WriteCursor(k, width)[2 * i + 1] == HexDigit(k / Pow256(i) % 256 % 16)
  {
    HexAt(LittleEndian(k, width), i);
    LittleMeans(k, width, i);
  }

  lemma {:induction false} HexAt(b: Bytes, i: nat)
    requires i < |b|
    ensures Hex(b)[2 * i] == HexDigit(b[i] / 16) && Hex(b)[2 * i + 1] == HexDigit(b[i] % 16)
  {
    if i > 0 {
      HexAt(b[1..], i - 1);
      assert Hex(b)[2..] == Hex(b[1..]);
    }
  }

  /** One of them in full; small letters are read too, and bytes past the key are not looked at. */
  lemma CursorExample()
    ensures WriteCursor(0x01ab23cd, 4) == "CD23AB01"
    ensures ReadCursor(Some("cd23AB01ff"), 4) == CursorKey(0x01ab23cd)
  {
    var b: Bytes := [0xcd, 0x23, 0xab, 0x01];
    FourBytes(b);
    hide Hex, Unhex, LittleEndian, FromLittle;
    HexOfFour(b);
    UnhexOfFive();
    var c: Bytes := [0xcd, 0x23, 0xab, 0x01, 0xff];
    assert c[..4] == b;
  }

  ghost predicate AllHex(s: string) {
    forall i :: 0 <= i < |s| ==> '0' <= s[i] <= '9' || 'a' <= s[i] <= 'f' || 'A' <= s[i] <= 'F'
  }

  /** Bytes are read from pairs of hex digits, whatever their case, and from nothing else. */
  lemma {:induction false} UnhexTakes(s: string)
    ensures Unhex(s).Some? <==> |s| % 2 == 0 && AllHex(s)
    ensures Unhex(s).Some? ==> |Unhex(s).value| == |s| / 2
    decreases |s|
  {
    if |s| >= 2 {
      var rest := s[2..];
      UnhexTakes(rest);
      assert |rest| == |s| - 2;
      assert forall i :: 2 <= i < |s| ==> s[i] == rest[i - 2];
      assert AllHex(s) ==> AllHex(rest);
    }
  }

  /** A cursor that is not of this form is ignored, and one with too few bytes aborts. */
  lemma CursorTakes(s: string, width: nat)
    ensures ReadCursor(None, width) == NoCursor
    ensures ReadCursor(Some(s), width).NoCursor? <==> s == "" || |s| % 2 == 1 || !AllHex(s)
    ensures ReadCursor(Some(s), width).CursorAborts? <==> s != "" && |s| % 2 == 0 && AllHex(s) && |s| / 2 < width
  {
    UnhexTakes(s);
    hide Unhex, AllHex;
  }

  lemma FourBytes(b: Bytes)
    requires b == [0xcd, 0x23, 0xab, 0x01]
    ensures LittleEndian(0x01ab23cd, 4) == b && FromLittle(b) == 0x01ab23cd
  {
    assert FromLittle(b[3..]) == 1 && FromLittle(b[2..]) == 0x01ab && FromLittle(b[1..]) == 0x01ab23;
  }

  lemma HexOfFour(b: Bytes)
    requires b == [0xcd, 0x23, 0xab, 0x01]
    ensures Hex(b) == "CD23AB01"
  {
    HexAt(b, 0);
    HexAt(b, 1);
    HexAt(b, 2);
    HexAt(b, 3);
    hide Hex;
  }

  lemma UnhexOfFive()
    ensures Unhex("cd23AB01ff") == Some([0xcd, 0x23, 0xab, 0x01, 0xff])
  {
    var s := "cd23AB01ff";
    UnhexStep("ff");
    UnhexStep("01ff");
    UnhexStep("AB01ff");
    UnhexStep("23AB01ff");
    UnhexStep(s);
    hide Unhex;
    assert "ff"[2..] == "" && "01ff"[2..] == "ff" && "AB01ff"[2..] == "01ff" && "23AB01ff"[2..] == "AB01ff" && s[2..] == "23AB01ff";
    var last: Bytes := [0xff];
    assert last + [] == last;
    assert Unhex("ff") == Some(last);
    var two: Bytes := [0x01] + last;
    assert Unhex("01ff") == Some(two);
    var three: Bytes := [0xab] + two;
    assert Unhex("AB01ff") == Some(three);
    var four: Bytes := [0x23] + three;
    assert Unhex("23AB01ff") == Some(four);
    assert [0xcd] + four == [0xcd, 0x23, 0xab, 0x01, 0xff];
  }

  lemma UnhexStep(s: string)
    requires |s| >= 2 && Nibble(s[0]).Some? && Nibble(s[1]).Some?
    ensures var r := Unhex(s[2..]);
            Unhex(s) == if r.None? then None else Some([(Nibble(s[0]).value * 16 + Nibble(s[1]).value) % 256] + r.value)
    ensures Unhex("") == Some([])
  {
  }
}
