/** Printing and reading of points in time. */
module TimeText {
  import opened Basics
  import opened Options
  import opened Calendar

  const DAY: int := 86_400_000_000

  // ----- printing -----

  function DigitChar(d: nat): char
    requires d < 10
  {
    ('0' as int + d) as char
  }

  /** The lowest `digits` decimal digits of a value, highest first. */
  function Padded(value: nat, digits: nat): (s: string)
    ensures |s| == digits
  {
    if digits == 0 then "" else Padded(value / 10, digits - 1) + [DigitChar(value % 10)]
  }

  /** Writes the digits lowest first into a buffer and reverses it. */
  method AppendUint(result: string, value: nat, digits: nat) returns (r: string)
    ensures r == result + Padded(value, digits)
  {
    var s: string := "";
    var v: nat, left: nat := value, digits;
    while left > 0
      invariant left <= digits && Padded(value, digits) == Padded(v, left) + Reversed(s)
    {
      ReversedFront(s, DigitChar(v % 10));
      s := s + [DigitChar(v % 10)];
      v := v / 10;
      left := left - 1;
    }
    r := result + Reversed(s);
  }

  lemma ReversedFront(s: string, c: char)
    ensures Reversed(s + [c]) == [c] + Reversed(s)
  {
  }

  /** The signed reading of 64 bits. */
  function Signed64(x: nat): int { if x < INT64 then x else x - 2 * INT64 }

  function MillisOfDay(us: int): nat { us % DAY / 1000 }

  /** Days and milliseconds are rounded down, also before 1970. */
  function TimeText(us: int): string {
    var date, ms := FromDays(us / DAY), MillisOfDay(us);
    Padded(date.year, 4) + "-" + Padded(Wrap(date.month), 2) + "-" + Padded(Wrap(date.day), 2) + "T"
    + Padded(ms / 3_600_000 % 60, 2) + ":" + Padded(ms / 60_000 % 60, 2) + ":" + Padded(ms / 1000 % 60, 2) + "."
    + Padded(ms % 1000, 3)
  }

  /** microseconds_to_str. */
  method MicrosecondsToStr(microseconds: nat) returns (result: string)
    requires microseconds < 2 * INT64
    ensures result == TimeText(Signed64(microseconds))
  {
    hide FromDays, Padded;
    var us := Signed64(microseconds);
    var sd := us / DAY;
    var ymd := FromDays(sd);
    var ms := us / 1000 - sd * 86_400_000;
    assert ms == MillisOfDay(us);
    result := AppendUint("", ymd.year, 4);
    result := result + "-";
    result := AppendUint(result, Wrap(ymd.month), 2);
    result := result + "-";
    result := AppendUint(result, Wrap(ymd.day), 2);
    result := result + "T";
    result := AppendUint(result, ms / 3_600_000 % 60, 2);
    result := result + ":";
    result := AppendUint(result, ms / 60_000 % 60, 2);
    result := result + ":";
    result := AppendUint(result, ms / 1000 % 60, 2);
    result := result + ".";
    result := AppendUint(result, ms % 1000, 3);
  }

  // ----- reading -----

  predicate IsDigit(s: string, pos: nat) { pos < |s| && '0' <= s[pos] <= '9' }

  predicate Mark(s: string, pos: nat, c: char) { pos < |s| && s[pos] == c }

  function DigitAt(s: string, pos: nat): nat
    requires IsDigit(s, pos)
  {
    s[pos] as int - '0' as int
  }

  /** The number in the `digits` digits at `pos`. */
  function UintAt(s: string, pos: nat, digits: nat): Option<nat> {
    if digits == 0 then Some(0)
    else
      var front := UintAt(s, pos, digits - 1);
      if front.None? || !IsDigit(s, pos + digits - 1) then None
      else Some(front.value * 10 + DigitAt(s, pos + digits - 1))
  }

  method ParseUint(s: string, pos: nat, digits: nat) returns (ok: bool, result: nat, next: nat)
    requires digits <= 4
    ensures ok == UintAt(s, pos, digits).Some?
    ensures ok ==> UintAt(s, pos, digits) == Some(result) && next == pos + digits
  {
    result, next := 0, pos;
    var left: nat := digits;
    while left > 0
      invariant left <= digits && next == pos + digits - left && UintAt(s, pos, digits - left) == Some(result)
    {
      left := left - 1;
      if IsDigit(s, next) {
        result := result * 10 + DigitAt(s, next);
        next := next + 1;
      } else {
        NoFurther(s, pos, digits - left, digits);
        return false, 0, next;
      }
    }
    ok := true;
  }

  lemma {:induction false} NoFurther(s: string, pos: nat, a: nat, b: nat)
    requires a <= b && UintAt(s, pos, a).None?
    ensures UintAt(s, pos, b).None?
    decreases b - a
  {
    if a < b { NoFurther(s, pos, a + 1, b); }
  }

  predicate Shaped(s: string) {
    && UintAt(s, 0, 4).Some? && Mark(s, 4, '-') && UintAt(s, 5, 2).Some? && Mark(s, 7, '-') && UintAt(s, 8, 2).Some?
    && Mark(s, 10, 'T') && UintAt(s, 11, 2).Some? && Mark(s, 13, ':') && UintAt(s, 14, 2).Some? && Mark(s, 16, ':')
    && UintAt(s, 17, 2).Some?
  }

  /** The second the text stands for, in 32 bits. */
  function SecondsOf(s: string): nat
    requires Shaped(s)
  {
    Wrap(ToDays(Date(UintAt(s, 0, 4).value, UintAt(s, 5, 2).value, UintAt(s, 8, 2).value)) * 86_400
         + UintAt(s, 11, 2).value * 3600 + UintAt(s, 14, 2).value * 60 + UintAt(s, 17, 2).value)
  }

  function AfterDigits(s: string, pos: nat): nat
    decreases |s| - pos
  {
    if IsDigit(s, pos) then AfterDigits(s, pos + 1) else pos
  }

  function AfterSeconds(s: string, eatFractional: bool): nat {
    if eatFractional && Mark(s, 19, '.') then AfterDigits(s, 20) else 19
  }

  /** string_to_utc_seconds. */
  method StringToUtcSeconds(s: string, eatFractional: bool, requireEnd: bool) returns (ok: bool, result: nat, pos: nat)
    ensures ok == (Shaped(s) && (AfterSeconds(s, eatFractional) == |s| || !requireEnd))
    ensures ok ==> result == SecondsOf(s) && pos == AfterSeconds(s, eatFractional)
  {
    hide UintAt, ToDays, Wrap, IsDigit;
    var y, m, d, h, min, sec;
    result := 0;
    ok, y, pos := ParseUint(s, 0, 4);
    if !ok { return; }
    if !Mark(s, pos, '-') { ok := false; return; }
    ok, m, pos := ParseUint(s, pos + 1, 2);
    if !ok { return; }
    if !Mark(s, pos, '-') { ok := false; return; }
    ok, d, pos := ParseUint(s, pos + 1, 2);
    if !ok { return; }
    if !Mark(s, pos, 'T') { ok := false; return; }
    ok, h, pos := ParseUint(s, pos + 1, 2);
    if !ok { return; }
    if !Mark(s, pos, ':') { ok := false; return; }
    ok, min, pos := ParseUint(s, pos + 1, 2);
    if !ok { return; }
    if !Mark(s, pos, ':') { ok := false; return; }
    ok, sec, pos := ParseUint(s, pos + 1, 2);
    if !ok { return; }
    result := Wrap(ToDays(Date(y, m, d)) * 86_400 + h * 3600 + min * 60 + sec);
    pos := EatFractional(s, eatFractional, pos);
    ok := pos == |s| || !requireEnd;
  }

  method EatFractional(s: string, eatFractional: bool, start: nat) returns (pos: nat)
    requires start == 19
    ensures pos == AfterSeconds(s, eatFractional)
  {
    pos := start;
    if eatFractional && Mark(s, pos, '.') {
      pos := pos + 1;
      while IsDigit(s, pos)
        invariant AfterDigits(s, pos) == AfterDigits(s, 20)
        decreases |s| - pos
      {
        pos := pos + 1;
      }
    }
  }

  /** The digits at `pos`, the first worth `scale`, and where they end; those past the unit
      are not taken. */
  function FractionAt(s: string, pos: nat, scale: nat): (nat, nat)
    decreases scale
  {
    if scale >= 1 && IsDigit(s, pos) then
      var rest := FractionAt(s, pos + 1, scale / 10);
      (DigitAt(s, pos) * scale + rest.0, rest.1)
    else (0, pos)
  }

  function MicrosOf(s: string): (nat, nat)
    requires Shaped(s)
  {
    if Mark(s, 19, '.') then
      var f := FractionAt(s, 20, 100_000);
      (SecondsOf(s) * 1_000_000 + f.0, f.1)
    else (SecondsOf(s) * 1_000_000, 19)
  }

  /** string_to_utc_microseconds. */
  method StringToUtcMicroseconds(s: string, requireEnd: bool) returns (ok: bool, result: nat, pos: nat)
    ensures ok == (Shaped(s) && (MicrosOf(s).1 == |s| || !requireEnd))
    ensures ok ==> (result, pos) == MicrosOf(s)
  {
    hide SecondsOf, Shaped, FractionAt;
    var sec;
    ok, sec, pos := StringToUtcSeconds(s, false, false);
    result := 0;
    if !ok { return; }
    result := sec * 1_000_000;
    if pos == |s| { return; }
    ShapedLength(s);
    if !Mark(s, pos, '.') {
      ok := !requireEnd;
      return;
    }
    var fraction;
    fraction, pos := ReadFraction(s, pos + 1, 100_000);
    result := result + fraction;
    ok := pos == |s| || !requireEnd;
  }

  method ReadFraction(s: string, start: nat, scale0: nat) returns (result: nat, pos: nat)
    ensures (result, pos) == FractionAt(s, start, scale0)
  {
    hide IsDigit, FractionAt;
    result, pos := 0, start;
    var scale: nat := scale0;
    while scale >= 1 && IsDigit(s, pos)
      invariant result + FractionAt(s, pos, scale).0 == FractionAt(s, start, scale0).0
      invariant FractionAt(s, pos, scale).1 == FractionAt(s, start, scale0).1
      decreases scale
    {
      FractionNext(s, pos, scale);
      result := result + DigitAt(s, pos) * scale;
      pos := pos + 1;
      scale := scale / 10;
    }
    FractionNext(s, pos, scale);
  }

  lemma ShapedLength(s: string)
    requires Shaped(s)
    ensures |s| >= 19
  {
  }

  /** The time point read from a text; None when the check fails. */
  function TimePointOf(s: string): Option<nat> {
    if Shaped(s) && (MicrosOf(s).1 == |s| || (MicrosOf(s).1 + 1 == |s| && Mark(s, MicrosOf(s).1, 'Z'))) then Some(MicrosOf(s).0) else None
  }

  /** from_string of a time point. */
  method TimePointFromString(s: string) returns (r: Option<nat>)
    ensures r == TimePointOf(s)
  {
    hide MicrosOf, Shaped;
    var ok, us, pos := StringToUtcMicroseconds(s, false);
    if !ok || !(pos == |s| || (pos + 1 == |s| && Mark(s, pos, 'Z'))) { return None; }
    r := Some(us);
  }

  /** The second count read from a text. */
  function SecondCountOf(s: string): Option<nat> {
    if Shaped(s) && AfterSeconds(s, true) == |s| then Some(SecondsOf(s)) else None
  }

  // ----- block slots -----

  const SLOT: int := 500
  const SLOTS_FROM: int := 946_684_800_000

  /** The time point of a slot. */
  function TimeOfSlot(slot: nat): nat { (slot * SLOT + SLOTS_FROM) * 1000 }

  /** The slot of a time point. */
  function SlotOfTime(us: int): nat { Wrap(Truncated(Truncated(us, 1000) - SLOTS_FROM, SLOT)) }

  // ----- reading what was printed -----

  predicate Fits(value: nat, digits: nat) {
    if digits == 0 then value == 0 else Fits(value / 10, digits - 1)
  }

  lemma {:induction false} SameDigits(s: string, pos: nat, t: string, at: nat, digits: nat)
    requires pos + digits <= |s| && at + digits <= |t| && s[pos..pos + digits] == t[at..at + digits]
    ensures UintAt(s, pos, digits) == UintAt(t, at, digits)
  {
    if digits > 0 {
      assert s[pos..pos + (digits - 1)] == s[pos..pos + digits][..digits - 1];
      assert t[at..at + (digits - 1)] == t[at..at + digits][..digits - 1];
      assert s[pos + (digits - 1)] == s[pos..pos + digits][digits - 1];
      assert t[at + (digits - 1)] == t[at..at + digits][digits - 1];
      SameDigits(s, pos, t, at, digits - 1);
    }
  }

  lemma {:induction false} PaddedReads(value: nat, digits: nat)
    requires Fits(value, digits)
    ensures UintAt(Padded(value, digits), 0, digits) == Some(value)
  {
    if digits > 0 {
      PaddedReads(value / 10, digits - 1);
      SameDigits(Padded(value, digits), 0, Padded(value / 10, digits - 1), 0, digits - 1);
    }
  }

  lemma ReadsAt(s: string, pos: nat, value: nat, digits: nat)
    requires pos + digits <= |s| && s[pos..pos + digits] == Padded(value, digits) && Fits(value, digits)
    ensures UintAt(s, pos, digits) == Some(value)
  {
    PaddedReads(value, digits);
    SameDigits(s, pos, Padded(value, digits), 0, digits);
  }

  lemma FitsSmall(value: nat)
    ensures value < 100 ==> Fits(value, 2)
    ensures value < 1000 ==> Fits(value, 3)
    ensures value < 10_000 ==> Fits(value, 4)
  {
  }

  function Layout(a: string, b: string, c: string, d: string, e: string, f: string, g: string): string {
    a + "-" + b + "-" + c + "T" + d + ":" + e + ":" + f + "." + g
  }

  lemma Laid(a: string, b: string, c: string, d: string, e: string, f: string, g: string, after: string)
    requires |a| == 4 && |b| == |c| == |d| == |e| == |f| == 2 && |g| == 3
    ensures var s := Layout(a, b, c, d, e, f, g) + after;
            && |s| == 23 + |after| && s[23..] == after
            && s[0..4] == a && Mark(s, 4, '-') && s[5..7] == b && Mark(s, 7, '-') && s[8..10] == c && Mark(s, 10, 'T')
            && s[11..13] == d && Mark(s, 13, ':') && s[14..16] == e && Mark(s, 16, ':') && s[17..19] == f
            && Mark(s, 19, '.') && s[20..23] == g
  {
    var s := Layout(a, b, c, d, e, f, g) + after;
    assert s[..10] == a + "-" + b + "-" + c;
    assert s[10..19] == "T" + d + ":" + e + ":" + f;
    assert s[19..23] == "." + g;
  }

  /** Reading the numbers of a layout whose numbers fit. */
  lemma LayoutReads(s: string, a: nat, b: nat, c: nat, d: nat, e: nat, f: nat, g: nat, after: string)
    requires a < 10_000 && b < 100 && c < 100 && d < 100 && e < 100 && f < 100 && g < 1000
    requires s == Layout(Padded(a, 4), Padded(b, 2), Padded(c, 2), Padded(d, 2), Padded(e, 2), Padded(f, 2), Padded(g, 3)) + after
    ensures |s| == 23 + |after| && s[23..] == after && Shaped(s) && Mark(s, 19, '.') && UintAt(s, 20, 3) == Some(g)
    ensures SecondsOf(s) == Wrap(ToDays(Date(a, b, c)) * 86_400 + d * 3600 + e * 60 + f)
  {
    hide Layout, Fits, UintAt, Padded, ToDays, Wrap, Mark, Shaped, SecondsOf;
    Laid(Padded(a, 4), Padded(b, 2), Padded(c, 2), Padded(d, 2), Padded(e, 2), Padded(f, 2), Padded(g, 3), after);
    FitsSmall(a);
    FitsSmall(g);
    ReadsAt(s, 0, a, 4);
    ReadsPair(s, 5, b);
    ReadsPair(s, 8, c);
    ReadsPair(s, 11, d);
    ReadsPair(s, 14, e);
    ReadsPair(s, 17, f);
    ReadsAt(s, 20, g, 3);
    SecondsFound(s, a, b, c, d, e, f);
  }

  lemma SecondsFound(s: string, a: nat, b: nat, c: nat, d: nat, e: nat, f: nat)
    requires UintAt(s, 0, 4) == Some(a) && UintAt(s, 5, 2) == Some(b) && UintAt(s, 8, 2) == Some(c)
    requires UintAt(s, 11, 2) == Some(d) && UintAt(s, 14, 2) == Some(e) && UintAt(s, 17, 2) == Some(f)
    requires Mark(s, 4, '-') && Mark(s, 7, '-') && Mark(s, 10, 'T') && Mark(s, 13, ':') && Mark(s, 16, ':')
    ensures Shaped(s) && SecondsOf(s) == Wrap(ToDays(Date(a, b, c)) * 86_400 + d * 3600 + e * 60 + f)
  {
    hide UintAt, ToDays, Wrap, Mark;
  }

  lemma ReadsPair(s: string, pos: nat, value: nat)
    requires pos + 2 <= |s| && s[pos..pos + 2] == Padded(value, 2) && value < 100
    ensures UintAt(s, pos, 2) == Some(value)
  {
    FitsSmall(value);
    ReadsAt(s, pos, value, 2);
  }

  /** Three digits of a fraction are thousandths. */
  lemma Thousandths(s: string, g: nat)
    requires UintAt(s, 20, 3) == Some(g) && !IsDigit(s, 23)
    ensures FractionAt(s, 20, 100_000) == (g * 1000, 23) && AfterDigits(s, 20) == 23
  {
    var front, middle := UintAt(s, 20, 1), UintAt(s, 20, 2);
    assert UintAt(s, 20, 0) == Some(0);
    assert IsDigit(s, 20) && IsDigit(s, 21) && IsDigit(s, 22);
    assert FractionAt(s, 23, 100) == (0, 23);
    assert FractionAt(s, 22, 1000) == (DigitAt(s, 22) * 1000, 23);
    assert FractionAt(s, 21, 10_000) == (DigitAt(s, 21) * 10_000 + DigitAt(s, 22) * 1000, 23);
    assert AfterDigits(s, 22) == 23;
  }

  /** The years that 32-bit second counts reach. */
  lemma FourDigitYear(days: nat)
    requires days < 100_000
    ensures FromDays(days).year < 10_000 && Valid(FromDays(days)) && ToDays(FromDays(days)) == days
  {
    hide FromDays, ToDays, Valid, YearStart, MonthStart, MonthLength, Leap;
    var k := DayInEra(days);
    MonthFits(k.yoe, k.mp, k.d);
    YearFits(k.yoe, MonthStart(k.mp) + k.d - 1);
    EraFound(k);
    DateFound(k);
    Wrapped(YearOf(k));
    DaysComeBack(days);
  }

  /** The parts of a day add up. */
  lemma ClockAddsUp(us: nat)
    ensures var ms := MillisOfDay(us);
            && ms < 86_400_000 && ms / 3_600_000 % 60 < 24 && ms / 60_000 % 60 < 60 && ms / 1000 % 60 < 60 && ms % 1000 < 1000
            && us / DAY * 86_400 + ms / 3_600_000 % 60 * 3600 + ms / 60_000 % 60 * 60 + ms / 1000 % 60 == us / 1_000_000
            && ms % 1000 * 1000 + us / 1_000_000 * 1_000_000 == us / 1000 * 1000
  {
    var ms := MillisOfDay(us);
    Clock(ms);
    DayAndMillis(us);
  }

  lemma Clock(ms: nat)
    requires ms < 86_400_000
    ensures ms / 3_600_000 % 60 < 24
    ensures ms / 3_600_000 % 60 * 3600 + ms / 60_000 % 60 * 60 + ms / 1000 % 60 == ms / 1000
  {
    var s := ms / 1000;
    assert ms / 60_000 == s / 60 && ms / 3_600_000 == s / 60 / 60;
  }

  lemma DayAndMillis(us: nat)
    ensures us % DAY / 1000 < 86_400_000 && us / 1000 == us / DAY * 86_400_000 + us % DAY / 1000
    ensures us / 1_000_000 == us / DAY * 86_400 + us % DAY / 1000 / 1000 && us / 1000 % 1000 == us % DAY / 1000 % 1000
  {
    var q, r := us / DAY, us % DAY;
    var t := r / 1000;
    Radix.Quotient(us, 1000, q * 86_400_000 + t, r % 1000);
    Radix.Quotient(us / 1000, 1000, q * 86_400 + t / 1000, t % 1000);
    Thousands(us);
  }

  lemma Thousands(us: nat)
    ensures us / 1000 / 1000 == us / 1_000_000
  {
  }

  /** What reading a printed text finds. */
  lemma TextReads(us: nat, after: string)
    requires us < UINT32 * 1_000_000 && (after == "" || after == "Z")
    ensures var s := TimeText(us) + after;
            && |s| == 23 + |after| && s[23..] == after && Shaped(s) && Mark(s, 19, '.')
            && SecondsOf(s) == us / 1_000_000 && FractionAt(s, 20, 100_000) == (us / 1000 * 1000 - us / 1_000_000 * 1_000_000, 23)
            && AfterDigits(s, 20) == 23
  {
    hide FromDays, ToDays, Padded, UintAt, Shaped, SecondsOf, FractionAt, Valid, Wrap;
    var days, ms := us / DAY, MillisOfDay(us);
    var date := FromDays(days);
    FourDigitYear(days);
    ClockAddsUp(us);
    ValidParts(date);
    LayoutReads(TimeText(us) + after, date.year, date.month, date.day, ms / 3_600_000 % 60, ms / 60_000 % 60, ms / 1000 % 60, ms % 1000, after);
    Wrapped(us / 1_000_000);
    Thousandths(TimeText(us) + after, ms % 1000);
  }

  lemma ValidParts(date: Date)
    requires Valid(date)
    ensures 1 <= date.month <= 12 && 1 <= date.day <= 31 && Wrap(date.month) == date.month && Wrap(date.day) == date.day
  {
    Wrapped(date.month);
    Wrapped(date.day);
  }

  /** A time point comes back from its text, to the millisecond, exactly when its seconds are
      not negative and fit in 32 bits. */
  lemma TimePointsComeBack(us: int, after: string)
    requires -INT64 <= us < INT64 && (after == "" || after == "Z")
    ensures var r := TimePointOf(TimeText(us) + after);
            r.Some? && r.value == us / 1000 * 1000 <==> 0 <= us < UINT32 * 1_000_000
  {
    hide TimeText, Shaped, SecondsOf, FractionAt;
    var s := TimeText(us) + after;
    if 0 <= us < UINT32 * 1_000_000 {
      TextReads(us, after);
    } else if TimePointOf(s).Some? {
      InRange(s);
    }
  }

  /** A time point that is read has its seconds in 32 bits. */
  lemma TimePointInRange(s: string)
    requires TimePointOf(s).Some?
    ensures TimePointOf(s).value < UINT32 * 1_000_000
  {
    hide Shaped, MicrosOf;
    InRange(s);
  }

  /** The product of the days and the seconds of a day fits the int it is computed in up to
      the 19th of January 2038; past that the code relies on its wrapping. */
  lemma ProductFitsUntil2038(days: int)
    ensures IsInt32(days * 86_400) <==> -24_855 <= days <= 24_855
    ensures ToDays(Date(2038, 1, 19)) == 24_855
  {
    assert Truncated(2037, 400) == 5;
  }

  lemma InRange(s: string)
    requires Shaped(s)
    ensures MicrosOf(s).0 < UINT32 * 1_000_000
  {
    hide ToDays, UintAt, Shaped;
    FractionBelow(s, 20, 100_000);
  }

  lemma FractionBelow(s: string, pos: nat, scale: nat)
    ensures scale == 100_000 ==> FractionAt(s, pos, scale).0 < 1_000_000
  {
    if scale == 100_000 {
      assert FractionAt(s, pos + 6, 0).0 == 0;
      assert FractionAt(s, pos + 5, 1).0 <= 9;
      assert FractionAt(s, pos + 4, 10).0 <= 99;
      assert FractionAt(s, pos + 3, 100).0 <= 999;
      assert FractionAt(s, pos + 2, 1000).0 <= 9999;
      assert FractionAt(s, pos + 1, 10_000).0 <= 99_999;
    }
  }

  /** Every 32-bit second count comes back from its text. */
  lemma SecondCountsComeBack(seconds: nat)
    requires seconds < UINT32
    ensures SecondCountOf(TimeText(seconds * 1_000_000)) == Some(seconds)
  {
    hide TimeText, Shaped, SecondsOf, FractionAt;
    assert TimeText(seconds * 1_000_000) + "" == TimeText(seconds * 1_000_000);
    TextReads(seconds * 1_000_000, "");
  }

  /** Every block slot comes back from its time point, and from the text of that. */
  lemma SlotsComeBack(slot: nat, after: string)
    requires slot < UINT32 && (after == "" || after == "Z")
    ensures SlotOfTime(TimeOfSlot(slot)) == slot
    ensures TimePointOf(TimeText(TimeOfSlot(slot)) + after) == Some(TimeOfSlot(slot))
  {
    hide TimeText, TimePointOf;
    TimePointsComeBack(TimeOfSlot(slot), after);
    Wrapped(slot);
  }

  /** A time point goes to the last slot that has begun. */
  lemma SlotBegun(us: nat)
    requires SLOTS_FROM * 1000 <= us < TimeOfSlot(UINT32)
    ensures TimeOfSlot(SlotOfTime(us)) <= us < TimeOfSlot(SlotOfTime(us) + 1)
  {
    Wrapped(Truncated(Truncated(us, 1000) - SLOTS_FROM, SLOT));
  }

  /** One microsecond after 1970 began. */
  const ONE_MICROSECOND: string := "1970-01-01T00:00:00.000001"

  lemma OneMicrosecondReads()
    ensures TimePointOf(ONE_MICROSECOND) == Some(1)
  {
    OneMicrosecondDate();
    OneMicrosecondTime();
    OneMicrosecondFraction();
    hide UintAt, FractionAt, ToDays;
    assert |ONE_MICROSECOND| == 26 && Shaped(ONE_MICROSECOND);
    assert SecondsOf(ONE_MICROSECOND) == 0;
  }

  lemma OneMicrosecondDate()
    ensures UintAt(ONE_MICROSECOND, 0, 4) == Some(1970)
    ensures UintAt(ONE_MICROSECOND, 5, 2) == Some(1) && UintAt(ONE_MICROSECOND, 8, 2) == Some(1)
    ensures ToDays(Date(1970, 1, 1)) == 0
  {
    hide UintAt, ToDays;
    Epoch();
    UintNext(ONE_MICROSECOND, 0, 1);
    UintNext(ONE_MICROSECOND, 0, 2);
    UintNext(ONE_MICROSECOND, 0, 3);
    UintNext(ONE_MICROSECOND, 5, 1);
    UintNext(ONE_MICROSECOND, 8, 1);
  }

  /** One more digit. */
  lemma UintNext(s: string, pos: nat, n: nat)
    requires 0 < n && IsDigit(s, pos + n)
    ensures UintAt(s, pos, n).Some? ==> UintAt(s, pos, n + 1) == Some(UintAt(s, pos, n).value * 10 + DigitAt(s, pos + n))
    ensures IsDigit(s, pos) ==> UintAt(s, pos, 1) == Some(DigitAt(s, pos))
  {
    assert UintAt(s, pos, 0) == Some(0);
  }

  lemma OneMicrosecondTime()
    ensures UintAt(ONE_MICROSECOND, 11, 2) == Some(0) && UintAt(ONE_MICROSECOND, 14, 2) == Some(0) && UintAt(ONE_MICROSECOND, 17, 2) == Some(0)
  {
  }

  lemma OneMicrosecondFraction()
    ensures FractionAt(ONE_MICROSECOND, 20, 100_000) == (1, 26)
  {
    hide FractionAt;
    FractionNext(ONE_MICROSECOND, 26, 0);
    FractionNext(ONE_MICROSECOND, 25, 1);
    FractionNext(ONE_MICROSECOND, 24, 10);
    FractionNext(ONE_MICROSECOND, 23, 100);
    FractionNext(ONE_MICROSECOND, 22, 1_000);
    FractionNext(ONE_MICROSECOND, 21, 10_000);
    FractionNext(ONE_MICROSECOND, 20, 100_000);
  }

  lemma FractionNext(s: string, pos: nat, scale: nat)
    ensures FractionAt(s, pos, scale) ==
              if scale >= 1 && IsDigit(s, pos) then
                var rest := FractionAt(s, pos + 1, scale / 10);
                (DigitAt(s, pos) * scale + rest.0, rest.1)
              else (0, pos)
  {
  }

  // ----- which texts are read, and as what -----

  function Ten(c: char): nat { if c < '0' then 0 else c as int - '0' as int }

  ghost predicate DigitsIn(s: string, from: nat, to: nat) {
    to <= |s| && forall i :: from <= i < to ==> '0' <= s[i] <= '9'
  }

  lemma TwoDigits(s: string, pos: nat)
    ensures UintAt(s, pos, 2).Some? <==> DigitsIn(s, pos, pos + 2)
    ensures UintAt(s, pos, 2).Some? ==> UintAt(s, pos, 2) == Some(Ten(s[pos]) * 10 + Ten(s[pos + 1]))
  {
    assert UintAt(s, pos, 1) == if IsDigit(s, pos) then Some(DigitAt(s, pos)) else None;
  }

  lemma FourDigits(s: string, pos: nat)
    ensures UintAt(s, pos, 4).Some? <==> DigitsIn(s, pos, pos + 4)
    ensures UintAt(s, pos, 4).Some? ==>
              UintAt(s, pos, 4) == Some(Ten(s[pos]) * 1000 + Ten(s[pos + 1]) * 100 + Ten(s[pos + 2]) * 10 + Ten(s[pos + 3]))
  {
    TwoDigits(s, pos);
    var front := UintAt(s, pos, 3);
    assert front == if UintAt(s, pos, 2).Some? && IsDigit(s, pos + 2) then Some(UintAt(s, pos, 2).value * 10 + DigitAt(s, pos + 2)) else None;
  }

  /** The shape is 19 characters, digits but for the marks between the fields. */
  lemma ShapedExactly(s: string)
    ensures Shaped(s) <==>
              && |s| >= 19 && DigitsIn(s, 0, 4) && s[4] == '-' && DigitsIn(s, 5, 7) && s[7] == '-' && DigitsIn(s, 8, 10) && s[10] == 'T'
              && DigitsIn(s, 11, 13) && s[13] == ':' && DigitsIn(s, 14, 16) && s[16] == ':' && DigitsIn(s, 17, 19)
  {
    FourDigits(s, 0);
    TwoDigits(s, 5);
    TwoDigits(s, 8);
    TwoDigits(s, 11);
    TwoDigits(s, 14);
    TwoDigits(s, 17);
    hide UintAt;
  }

  /** The fields count days, hours, minutes and seconds, none of them checked for its range. */
  lemma SecondsMean(s: string, y: nat, mo: nat, d: nat, h: nat, mi: nat, sec: nat)
    requires Shaped(s) && |s| >= 19 && y == Ten(s[0]) * 1000 + Ten(s[1]) * 100 + Ten(s[2]) * 10 + Ten(s[3])
    requires mo == Ten(s[5]) * 10 + Ten(s[6]) && d == Ten(s[8]) * 10 + Ten(s[9]) && h == Ten(s[11]) * 10 + Ten(s[12])
    requires mi == Ten(s[14]) * 10 + Ten(s[15]) && sec == Ten(s[17]) * 10 + Ten(s[18])
    ensures SecondsOf(s) == (ToDays(Date(y, mo, d)) * 86_400 + h * 3600 + mi * 60 + sec) % 0x1_0000_0000
  {
    FieldsFound(s);
    hide ToDays, UintAt, DigitsIn, Ten, Mark, Wrap, Shaped, SecondsOf;
    FourDigits(s, 0);
    TwoDigits(s, 5);
    TwoDigits(s, 8);
    TwoDigits(s, 11);
    TwoDigits(s, 14);
    TwoDigits(s, 17);
    SecondsFound(s, y, mo, d, h, mi, sec);
    Wraps32(ToDays(Date(y, mo, d)) * 86_400 + h * 3600 + mi * 60 + sec);
  }

  lemma FieldsFound(s: string)
    requires Shaped(s)
    ensures Mark(s, 4, '-') && Mark(s, 7, '-') && Mark(s, 10, 'T') && Mark(s, 13, ':') && Mark(s, 16, ':')
    ensures UintAt(s, 0, 4).Some? && UintAt(s, 5, 2).Some? && UintAt(s, 8, 2).Some?
    ensures UintAt(s, 11, 2).Some? && UintAt(s, 14, 2).Some? && UintAt(s, 17, 2).Some?
  {
    hide UintAt, Mark;
  }

  lemma Wraps32(x: int)
    ensures Wrap(x) == x % 0x1_0000_0000
  {
  }

  /** Taking the first digit off. */
  lemma {:induction false} UintFront(s: string, pos: nat, n: nat)
    requires IsDigit(s, pos) && UintAt(s, pos + 1, n).Some?
    ensures UintAt(s, pos, n + 1) == Some(DigitAt(s, pos) * Power(10, n) + UintAt(s, pos + 1, n).value)
  {
    if n == 0 {
      assert UintAt(s, pos, 0) == Some(0);
    } else {
      UintFront(s, pos, n - 1);
      Radix.OnceMore(DigitAt(s, pos), Power(10, n - 1), 10);
    }
  }

  lemma NextScale(k: nat)
    requires k > 0
    ensures Power(10, k - 1) >= 1 && Power(10, k - 1) / 10 == if k == 1 then 0 else Power(10, k - 2)
  {
  }

  lemma {:induction false} PowerOfSum(a: nat, b: nat)
    ensures Power(10, a + b) == Power(10, a) * Power(10, b)
  {
    if a > 0 {
      PowerOfSum(a - 1, b);
      Regroup(10, Power(10, a - 1), Power(10, b));
    }
  }

  lemma Worth(d: nat, p: nat, q: nat, v: nat)
    ensures (d * p + v) * q == d * (p * q) + v * q
  {
  }

  lemma FrontWorth(s: string, pos: nat, n: nat, k: nat)
    requires IsDigit(s, pos) && 1 <= n <= k && UintAt(s, pos + 1, n - 1).Some?
    ensures UintAt(s, pos, n).Some?
    ensures UintAt(s, pos, n).value * Power(10, k - n) ==
              DigitAt(s, pos) * Power(10, k - 1) + UintAt(s, pos + 1, n - 1).value * Power(10, k - n)
  {
    hide UintAt, Power;
    UintFront(s, pos, n - 1);
    Worth(DigitAt(s, pos), Power(10, n - 1), Power(10, k - n), UintAt(s, pos + 1, n - 1).value);
    PowerOfSum(n - 1, k - n);
  }

  /** Digits after the point are a number of units, as many times ten as digits are missing;
      `k` digits are taken at most. */
  lemma {:induction false} FractionMeans(s: string, pos: nat, k: nat)
    ensures var (value, end) := FractionAt(s, pos, if k == 0 then 0 else Power(10, k - 1));
            && pos <= end <= pos + k && UintAt(s, pos, end - pos).Some? && (end < pos + k ==> !IsDigit(s, end))
            && (forall i :: pos <= i < end ==> IsDigit(s, i))
            && value == UintAt(s, pos, end - pos).value * Power(10, k - (end - pos))
    decreases k
  {
    assert UintAt(s, pos, 0) == Some(0);
    hide UintAt, FractionAt, Power;
    if k > 0 && IsDigit(s, pos) {
      FractionMeans(s, pos + 1, k - 1);
      NextScale(k);
      FractionNext(s, pos, Power(10, k - 1));
      var n := FractionAt(s, pos, Power(10, k - 1)).1 - pos;
      FrontWorth(s, pos, n, k);
    } else {
      FractionNext(s, pos, if k == 0 then 0 else Power(10, k - 1));
    }
  }

  /** How far the digits go. */
  lemma {:induction false} AfterMeans(s: string, pos: nat)
    ensures AfterDigits(s, pos) >= pos && !IsDigit(s, AfterDigits(s, pos)) && forall i :: pos <= i < AfterDigits(s, pos) ==> IsDigit(s, i)
    decreases |s| - pos
  {
    if IsDigit(s, pos) { AfterMeans(s, pos + 1); }
  }

  /** A second count may have a point and any number of digits after it. */
  lemma SecondCountAccepts(s: string)
    ensures SecondCountOf(s).Some? <==> Shaped(s) && (|s| == 19 || (s[19] == '.' && DigitsIn(s, 20, |s|)))
  {
    hide Shaped, SecondsOf;
    if Shaped(s) {
      ShapedLength(s);
      AfterMeans(s, 20);
      var e := AfterDigits(s, 20);
      if |s| >= 20 { AllOfThem(s, e); }
      if e < |s| && DigitsIn(s, 20, |s|) { DigitIn(s, 20, |s|, e); }
    }
  }

  /** A time point may have a point and up to six digits after it, and a Z at the end. */
  lemma TimePointAccepts(s: string)
    ensures TimePointOf(s).Some? <==>
              && Shaped(s)
              && var n := if s[|s| - 1] == 'Z' then |s| - 1 else |s|;
                 n == 19 || (20 <= n <= 26 && s[19] == '.' && DigitsIn(s, 20, n))
  {
    hide Shaped, SecondsOf, UintAt, FractionAt;
    if Shaped(s) {
      ShapedLength(s);
      LastIsDigit(s);
      FractionMeans(s, 20, 6);
      assert Power(10, 5) == 100_000;
      EndIsThere(s, FractionAt(s, 20, 100_000).1, if s[|s| - 1] == 'Z' then |s| - 1 else |s|);
    }
  }

  lemma EndIsThere(s: string, e: nat, n: nat)
    requires |s| >= 19 && IsDigit(s, 18) && n == if s[|s| - 1] == 'Z' then |s| - 1 else |s|
    requires 20 <= e <= 26 && (e < 26 ==> !IsDigit(s, e)) && forall i :: 20 <= i < e ==> IsDigit(s, i)
    ensures Mark(s, 19, '.') ==>
              ((e == |s| || (e + 1 == |s| && s[e] == 'Z')) <==> (20 <= n <= 26 && DigitsIn(s, 20, n)))
  {
    if Mark(s, 19, '.') {
      assert n < e ==> IsDigit(s, n);
      if e < n && n <= 26 && DigitsIn(s, 20, n) { DigitIn(s, 20, n, e); }
      if e > 20 { assert IsDigit(s, e - 1); }
      AllOfThem(s, e);
    }
  }

  lemma DigitIn(s: string, from: nat, to: nat, i: nat)
    requires DigitsIn(s, from, to) && from <= i < to
    ensures IsDigit(s, i)
  {
  }

  lemma AllOfThem(s: string, e: nat)
    requires |s| >= 20 && e >= 20 && forall i :: 20 <= i < e ==> IsDigit(s, i)
    ensures e <= |s| && DigitsIn(s, 20, e)
  {
    assert !IsDigit(s, |s|);
    forall i | 20 <= i < e ensures '0' <= s[i] <= '9' { assert IsDigit(s, i); }
  }

  lemma LastIsDigit(s: string)
    requires Shaped(s)
    ensures |s| >= 19 && IsDigit(s, 18)
  {
  }

  /** And the digits after the point are worth what their place says. */
  lemma MicrosMean(s: string, n: nat)
    requires Shaped(s) && 20 <= n <= 26 && Mark(s, 19, '.') && DigitsIn(s, 20, n) && (n == 26 || !IsDigit(s, n))
    ensures UintAt(s, 20, n - 20).Some?
    ensures MicrosOf(s) == (SecondsOf(s) * 1_000_000 + UintAt(s, 20, n - 20).value * Power(10, 26 - n), n)
  {
    hide Shaped, SecondsOf, UintAt, FractionAt;
    FractionMeans(s, 20, 6);
    assert Power(10, 5) == 100_000;
    assert FractionAt(s, 20, 100_000).1 == n;
  }

  /** Slots count half seconds from the start of the year 2000. */
  lemma SlotsStart(slot: nat)
    ensures TimeText(TimeOfSlot(0)) == "2000-01-01T00:00:00.000"
    ensures TimeOfSlot(slot + 1) == TimeOfSlot(slot) + 500_000
  {
    hide TimeText, ToDays, Padded;
    KnownDays();
    DigitsAre(TimeOfSlot(0), Date(2000, 1, 1), 10957, 0, 0, 0, 0, "2000-01-01T00:00:00.000");
  }

  /** The fields of a text are the year, the month, the day, the hour, the minute, the second and the
      thousandth. */
  lemma LastOfFebruary()
    ensures TimeText(1_583_020_799_987_654) == "2020-02-29T23:59:59.987"
  {
    hide TimeText, ToDays, Padded;
    KnownDays();
    DigitsAre(1_583_020_799_987_654, Date(2020, 2, 29), 18321, 23, 59, 59, 987, "2020-02-29T23:59:59.987");
  }

  /** A text whose digits are those of the fields of a point in time is its text. */
  lemma DigitsAre(us: int, date: Date, days: int, h: nat, mi: nat, sec: nat, th: nat, s: string)
    requires Valid(date) && 0 <= date.year < 10_000 && IsInt32(ToDays(date) + 719468) && ToDays(date) == days
    requires h < 24 && mi < 60 && sec < 60 && th < 1000
    requires us / 1000 == days * 86_400_000 + h * 3_600_000 + mi * 60_000 + sec * 1000 + th
    requires |s| == 23 && s[4] == s[7] == '-' && s[10] == 'T' && s[13] == s[16] == ':' && s[19] == '.'
    requires 1 <= date.month <= 12 && 1 <= date.day <= 31
    requires s[0] == DigitChar(date.year / 1000) && s[1] == DigitChar(date.year / 100 % 10)
    requires s[2] == DigitChar(date.year / 10 % 10) && s[3] == DigitChar(date.year % 10)
    requires s[5] == DigitChar(date.month / 10) && s[6] == DigitChar(date.month % 10)
    requires s[8] == DigitChar(date.day / 10) && s[9] == DigitChar(date.day % 10)
    requires s[11] == DigitChar(h / 10) && s[12] == DigitChar(h % 10) && s[14] == DigitChar(mi / 10) && s[15] == DigitChar(mi % 10)
    requires s[17] == DigitChar(sec / 10) && s[18] == DigitChar(sec % 10)
    requires s[20] == DigitChar(th / 100) && s[21] == DigitChar(th / 10 % 10) && s[22] == DigitChar(th % 10)
    ensures TimeText(us) == s
  {
    hide Valid, TimeText, ToDays, Padded, DigitChar;
    FourAt(s, 0, date.year);
    TwoAt(s, 5, date.month);
    TwoAt(s, 8, date.day);
    TwoAt(s, 11, h);
    TwoAt(s, 14, mi);
    TwoAt(s, 17, sec);
    ThreeAt(s, 20, th);
    assert s[0..4] == s[..4] && s[20..23] == s[20..];
    var ms := h * 3_600_000 + mi * 60_000 + sec * 1000 + th;
    ClockParts(us, days, h, mi, sec, th, ms);
    TextIs(us, date, days, ms, s);
  }

  lemma ClockParts(us: int, days: int, h: nat, mi: nat, sec: nat, th: nat, ms: nat)
    requires h < 24 && mi < 60 && sec < 60 && th < 1000 && ms == h * 3_600_000 + mi * 60_000 + sec * 1000 + th
    requires us / 1000 == days * 86_400_000 + ms
    ensures us / DAY == days && us % DAY / 1000 == ms
    ensures ms / 3_600_000 % 60 == h && ms / 60_000 % 60 == mi && ms / 1000 % 60 == sec && ms % 1000 == th
  {
    var r := ms * 1000 + us % 1000;
    assert us == days * DAY + r;
    Radix.Quotient(us, DAY, days, r);
    Radix.Quotient(r, 1000, ms, us % 1000);
    Radix.Quotient(ms, 1000, h * 3600 + mi * 60 + sec, th);
    Radix.Quotient(ms, 60_000, h * 60 + mi, sec * 1000 + th);
    Radix.Quotient(ms, 3_600_000, h, mi * 60_000 + sec * 1000 + th);
  }

  /** A text with the fields of a point in time is its text. */
  lemma TextIs(us: int, date: Date, days: int, ms: nat, s: string)
    requires Valid(date) && 0 <= date.month < UINT32 && 0 <= date.day < UINT32 && IsInt32(ToDays(date) + 719468)
    requires ToDays(date) == days == us / DAY && us % DAY / 1000 == ms && |s| == 23
    requires s[..4] == Padded(date.year, 4) && s[4] == s[7] == '-' && s[5..7] == Padded(date.month, 2) && s[8..10] == Padded(date.day, 2)
    requires s[10] == 'T' && s[11..13] == Padded(ms / 3_600_000 % 60, 2) && s[13] == s[16] == ':'
    requires s[14..16] == Padded(ms / 60_000 % 60, 2) && s[17..19] == Padded(ms / 1000 % 60, 2) && s[19] == '.' && s[20..] == Padded(ms % 1000, 3)
    ensures TimeText(us) == s
  {
    hide FromDays, ToDays, Padded;
    DatesComeBack(date);
    Wrapped(date.month);
    Wrapped(date.day);
    FieldsOf(s[..4], s[5..7], s[8..10], s[11..13], s[14..16], s[17..19], s[20..], s);
  }

  lemma FieldsOf(y: string, mo: string, d: string, h: string, mi: string, sec: string, ms: string, s: string)
    requires |y| == 4 && |mo| == |d| == |h| == |mi| == |sec| == 2 && |ms| == 3 && |s| == 23
    requires s[..4] == y && s[4] == s[7] == '-' && s[5..7] == mo && s[8..10] == d && s[10] == 'T' && s[11..13] == h && s[13] == ':'
    requires s[14..16] == mi && s[16] == ':' && s[17..19] == sec && s[19] == '.' && s[20..] == ms
    ensures y + "-" + mo + "-" + d + "T" + h + ":" + mi + ":" + sec + "." + ms == s
  {
    assert s[..5] == y + "-";
    assert s[..7] == y + "-" + mo;
    assert s[..8] == y + "-" + mo + "-";
    assert s[..10] == y + "-" + mo + "-" + d;
    assert s[..11] == y + "-" + mo + "-" + d + "T";
    assert s[..13] == y + "-" + mo + "-" + d + "T" + h;
    assert s[..14] == y + "-" + mo + "-" + d + "T" + h + ":";
    assert s[..16] == y + "-" + mo + "-" + d + "T" + h + ":" + mi;
    assert s[..17] == y + "-" + mo + "-" + d + "T" + h + ":" + mi + ":";
    assert s[..19] == y + "-" + mo + "-" + d + "T" + h + ":" + mi + ":" + sec;
    assert s[..20] == y + "-" + mo + "-" + d + "T" + h + ":" + mi + ":" + sec + ".";
  }

  lemma TwoAt(s: string, i: nat, n: nat)
    requires i + 2 <= |s| && n < 100 && s[i] == DigitChar(n / 10) && s[i + 1] == DigitChar(n % 10)
    ensures s[i..i + 2] == Padded(n, 2)
  {
    assert Padded(n / 10, 1) == Padded(n / 100, 0) + [DigitChar(n / 10 % 10)];
  }

  lemma ThreeAt(s: string, i: nat, n: nat)
    requires i + 3 <= |s| && n < 1000 && s[i] == DigitChar(n / 100) && s[i + 1] == DigitChar(n / 10 % 10) && s[i + 2] == DigitChar(n % 10)
    ensures s[i..i + 3] == Padded(n, 3)
  {
    TwoAt(s, i, n / 10);
    assert Padded(n, 3) == Padded(n / 10, 2) + [DigitChar(n % 10)];
    hide Padded;
  }

  lemma FourAt(s: string, i: nat, n: nat)
    requires i + 4 <= |s| && n < 10_000 && s[i] == DigitChar(n / 1000) && s[i + 1] == DigitChar(n / 100 % 10)
    requires s[i + 2] == DigitChar(n / 10 % 10) && s[i + 3] == DigitChar(n % 10)
    ensures s[i..i + 4] == Padded(n, 4)
  {
    ThreeAt(s, i, n / 10);
    assert Padded(n, 4) == Padded(n / 10, 3) + [DigitChar(n % 10)];
    hide Padded;
  }
}
