/** Cursor pagination over a container sorted by key. */
module Pagination {
  import opened Basics
  import opened Options
  import opened ByteStrings
  import opened Cursors
  import opened SortedSearch


  datatype Bounds = Bounds(gt: Option<nat>, ge: Option<nat>, lt: Option<nat>, le: Option<nat>)

  datatype Connection = Connection(edges: seq<nat>, hasPrevious: bool, hasNext: bool, startCursor: string, endCursor: string)

  // ----- what a query asks for -----

  predicate InRange(b: Bounds, k: nat) {
    && (b.gt.Some? ==> k > b.gt.value) && (b.ge.Some? ==> k >= b.ge.value)
    && (b.lt.Some? ==> k < b.lt.value) && (b.le.Some? ==> k <= b.le.value)
  }

  predicate Between(after: Option<nat>, before: Option<nat>, k: nat) {
    (after.Some? ==> k > after.value) && (before.Some? ==> k < before.value)
  }

  function Filter(keys: seq<nat>, p: nat -> bool): seq<nat> {
    if keys == [] then []
    else if p(keys[0]) then [keys[0]] + Filter(keys[1..], p)
    else Filter(keys[1..], p)
  }

  function Range(keys: seq<nat>, b: Bounds): seq<nat> { Filter(keys, (k: nat) => InRange(b, k)) }

  function Window(range: seq<nat>, after: Option<nat>, before: Option<nat>): seq<nat> {
    Filter(range, (k: nat) => Between(after, before, k))
  }

  function Take(s: seq<nat>, n: Option<uint32>): seq<nat> {
    if n.Some? && n.value < |s| then s[..n.value] else s
  }

  function TakeLast(s: seq<nat>, n: Option<uint32>): seq<nat> {
    if n.Some? && n.value < |s| then s[|s| - n.value..] else s
  }

  /** The edges to return: those of the range between the cursors, of these the first
      ones, and of these the last ones. */
  function Edges(keys: seq<nat>, b: Bounds, first: Option<uint32>, last: Option<uint32>, before: Option<nat>, after: Option<nat>): seq<nat> {
    TakeLast(Take(Window(Range(keys, b), after, before), first), last)
  }

  /** Cursors need keys without duplicates. */
  ghost predicate Sorted(keys: seq<nat>)
    ensures Sorted(keys) ==> Ascending(keys)
  {
    forall i, j :: 0 <= i < j < |keys| ==> keys[i] < keys[j]
  }

  /** What is kept of an increasing list is increasing and holds exactly the keys asked for. */
  lemma {:induction false} FilterMeans(keys: seq<nat>, p: nat -> bool)
    requires Sorted(keys)
    ensures Sorted(Filter(keys, p)) && forall k :: k in Filter(keys, p) <==> k in keys && p(k)
  {
    if keys != [] {
      FilterMeans(keys[1..], p);
      assert keys == [keys[0]] + keys[1..];
      assert forall k :: k in keys[1..] ==> k > keys[0];
      var rest, all := Filter(keys[1..], p), Filter(keys, p);
      if p(keys[0]) {
        assert forall i :: 0 < i < |all| ==> all[i] == rest[i - 1] && all[i] in rest;
      }
    }
  }

  /** The keys in range are those beyond the low bounds and below the high ones, `gt` and
      `lt` without the bound itself; a cursor stands for a key that was seen. */
  lemma {:induction false} RangeMeans(keys: seq<nat>, b: Bounds, after: Option<nat>, before: Option<nat>)
    requires forall i, j :: 0 <= i < j < |keys| ==> keys[i] < keys[j]
    ensures var range := Range(keys, b);
            && (forall i, j :: 0 <= i < j < |range| ==> range[i] < range[j])
            && (forall k :: k in range <==>
                 && k in keys
                 && !(b.gt.Some? && k <= b.gt.value) && !(b.ge.Some? && k < b.ge.value)
                 && !(b.lt.Some? && k >= b.lt.value) && !(b.le.Some? && k > b.le.value))
    ensures var range, window := Range(keys, b), Window(Range(keys, b), after, before);
            && (forall i, j :: 0 <= i < j < |window| ==> window[i] < window[j])
            && (forall k :: k in window <==>
                 k in range && !(after.Some? && k <= after.value) && !(before.Some? && k >= before.value))
  {
    FilterMeans(keys, (k: nat) => InRange(b, k));
    FilterMeans(Range(keys, b), (k: nat) => Between(after, before, k));
  }

  /** Of the keys between the cursors the first ones, and of these the last ones: `skipped`
      of them are left out before the page. */
  lemma EdgesMean(keys: seq<nat>, b: Bounds, first: Option<uint32>, last: Option<uint32>, before: Option<nat>, after: Option<nat>)
      returns (skipped: nat)
    ensures var window, e := Window(Range(keys, b), after, before), Edges(keys, b, first, last, before, after);
            && skipped + |e| <= |window| && window[skipped..skipped + |e|] == e
            && skipped + |e| == (if first.Some? && first.value < |window| then first.value else |window|)
            && (last.Some? ==> |e| <= last.value)
            && (skipped > 0 ==> last.Some? && |e| == last.value)
  {
    var w := Window(Range(keys, b), after, before);
    var t := Take(w, first);
    skipped := if last.Some? && last.value < |t| then |t| - last.value else 0;
  }

  // ----- positions -----

  /** The order of two iterators, by the keys they point at; the end is after all. */
  predicate CompareIt(keys: seq<nat>, a: nat, b: nat)
    requires a <= |keys| && b <= |keys|
  {
    a != |keys| && (b == |keys| || keys[a] < keys[b])
  }

  function MaxIt(keys: seq<nat>, a: nat, b: nat): (r: nat)
    requires a <= |keys| && b <= |keys|
    ensures r <= |keys| && (Sorted(keys) ==> r == if a < b then b else a)
  {
    if CompareIt(keys, a, b) then b else a
  }

  function MinIt(keys: seq<nat>, a: nat, b: nat): (r: nat)
    requires a <= |keys| && b <= |keys|
    ensures r <= |keys| && (Sorted(keys) ==> r == if b < a then b else a)
  {
    if CompareIt(keys, b, a) then b else a
  }

  function ClampIt(keys: seq<nat>, v: nat, lo: nat, hi: nat): (r: nat)
    requires v <= |keys| && lo <= |keys| && hi <= |keys|
    ensures r <= |keys| && (Sorted(keys) ==> r == if v < lo then lo else if hi < v then hi else v)
  {
    if CompareIt(keys, v, lo) then lo else if CompareIt(keys, hi, v) then hi else v
  }

  /** What is kept of a sorted list, if what is below and what is above is left out. */
  lemma {:induction false} FilterIsSlice(keys: seq<nat>, p: nat -> bool, lo: nat, hi: nat)
    requires lo <= hi <= |keys|
    requires forall i :: 0 <= i < |keys| ==> (p(keys[i]) <==> lo <= i < hi)
    ensures Filter(keys, p) == keys[lo..hi]
  {
    if keys != [] {
      var rest, lo', hi' := keys[1..], if lo > 0 then lo - 1 else 0, if hi > 0 then hi - 1 else 0;
      forall i | 0 <= i < |rest| ensures p(rest[i]) <==> lo' <= i < hi' {
        assert rest[i] == keys[i + 1];
      }
      FilterIsSlice(rest, p, lo', hi');
      assert p(keys[0]) <==> lo <= 0 < hi;
      assert keys == [keys[0]] + rest;
      if lo == 0 && hi > 0 {
        assert Filter(keys, p) == [keys[0]] + rest[0..hi'];
        assert keys[lo..hi] == [keys[0]] + rest[0..hi'];
      } else {
        assert Filter(keys, p) == rest[lo'..hi'];
        assert keys[lo..hi] == rest[lo'..hi'];
      }
    }
  }

  // ----- one call -----

  predicate AboveLow(b: Bounds, k: nat) {
    (b.gt.Some? ==> k > b.gt.value) && (b.ge.Some? ==> k >= b.ge.value)
  }

  predicate BelowHigh(b: Bounds, k: nat) {
    (b.lt.Some? ==> k < b.lt.value) && (b.le.Some? ==> k <= b.le.value)
  }

  method RangeBegin(keys: seq<nat>, b: Bounds) returns (rangeBegin: nat)
    requires Sorted(keys)
    ensures rangeBegin <= |keys| && forall i :: 0 <= i < |keys| ==> (AboveLow(b, keys[i]) <==> rangeBegin <= i)
  {
    hide LowerBound, UpperBound;
    rangeBegin := 0;
    if b.ge.Some? {
      LowerBoundSplits(keys, b.ge.value);
      rangeBegin := MaxIt(keys, rangeBegin, LowerBound(keys, b.ge.value));
    }
    if b.gt.Some? {
      UpperBoundSplits(keys, b.gt.value);
      rangeBegin := MaxIt(keys, rangeBegin, UpperBound(keys, b.gt.value));
    }
  }

  method RangeEnd(keys: seq<nat>, b: Bounds) returns (rangeEnd: nat)
    requires Sorted(keys)
    ensures rangeEnd <= |keys| && forall i :: 0 <= i < |keys| ==> (BelowHigh(b, keys[i]) <==> i < rangeEnd)
  {
    hide LowerBound, UpperBound;
    rangeEnd := |keys|;
    if b.le.Some? {
      UpperBoundSplits(keys, b.le.value);
      rangeEnd := MinIt(keys, rangeEnd, UpperBound(keys, b.le.value));
    }
    if b.lt.Some? {
      LowerBoundSplits(keys, b.lt.value);
      rangeEnd := MinIt(keys, rangeEnd, LowerBound(keys, b.lt.value));
    }
  }

  /** The positions of the keys in range. */
  method RangePositions(keys: seq<nat>, b: Bounds) returns (rangeBegin: nat, rangeEnd: nat)
    requires Sorted(keys)
    ensures rangeBegin <= rangeEnd <= |keys| && Range(keys, b) == keys[rangeBegin..rangeEnd]
  {
    rangeBegin := RangeBegin(keys, b);
    rangeEnd := RangeEnd(keys, b);
    rangeEnd := MaxIt(keys, rangeBegin, rangeEnd);
    hide Sorted;
    FilterIsSlice(keys, (k: nat) => InRange(b, k), rangeBegin, rangeEnd);
  }

  lemma SliceOfSlice(keys: seq<nat>, lo: nat, hi: nat, i: nat, j: nat)
    requires lo <= i <= j <= hi <= |keys|
    ensures keys[lo..hi][i - lo..j - lo] == keys[i..j]
  {
    var s, t := keys[lo..hi][i - lo..j - lo], keys[i..j];
    assert |s| == |t|;
    forall k | 0 <= k < |s| ensures s[k] == t[k] {
      assert s[k] == keys[lo..hi][i - lo + k];
    }
  }

  /** How many keys of a sorted list a cursor leaves behind. */
  function Passed(range: seq<nat>, after: Option<nat>): (i: nat)
    ensures i <= |range|
  {
    if after.Some? then UpperBound(range, after.value) else 0
  }

  function Reached(range: seq<nat>, before: Option<nat>): (i: nat)
    ensures i <= |range|
  {
    if before.Some? then LowerBound(range, before.value) else |range|
  }

  lemma SliceSorted(keys: seq<nat>, lo: nat, hi: nat)
    requires Sorted(keys) && lo <= hi <= |keys|
    ensures Sorted(keys[lo..hi])
  {
  }

  /** Clamping a position found in the whole list finds it in the range. */
  lemma ClampedUpper(keys: seq<nat>, lo: nat, hi: nat, k: nat)
    requires Sorted(keys) && lo <= hi <= |keys|
    ensures ClampIt(keys, UpperBound(keys, k), lo, hi) == lo + UpperBound(keys[lo..hi], k)
  {
    SliceSorted(keys, lo, hi);
    UpperBoundSplits(keys, k);
    UpperBoundSplits(keys[lo..hi], k);
    var i, j := UpperBound(keys, k), UpperBound(keys[lo..hi], k);
    if lo + j < hi { assert keys[lo..hi][j] == keys[lo + j]; }
    if j > 0 { assert keys[lo..hi][j - 1] == keys[lo + j - 1]; }
  }

  lemma ClampedLower(keys: seq<nat>, lo: nat, hi: nat, k: nat)
    requires Sorted(keys) && lo <= hi <= |keys|
    ensures ClampIt(keys, LowerBound(keys, k), lo, hi) == lo + LowerBound(keys[lo..hi], k)
  {
    SliceSorted(keys, lo, hi);
    LowerBoundSplits(keys, k);
    LowerBoundSplits(keys[lo..hi], k);
    var i, j := LowerBound(keys, k), LowerBound(keys[lo..hi], k);
    if lo + j < hi { assert keys[lo..hi][j] == keys[lo + j]; }
    if j > 0 { assert keys[lo..hi][j - 1] == keys[lo + j - 1]; }
  }

  /** The keys between the cursors are a slice of the range. */
  lemma BetweenIsSlice(range: seq<nat>, before: Option<nat>, after: Option<nat>)
    requires Sorted(range)
    ensures var i, j := Passed(range, after), Reached(range, before);
            Window(range, after, before) == range[i..if i < j then j else i]
  {
    var i, j := Passed(range, after), Reached(range, before);
    if after.Some? { UpperBoundSplits(range, after.value); }
    if before.Some? { LowerBoundSplits(range, before.value); }
    FilterIsSlice(range, (k: nat) => Between(after, before, k), i, if i < j then j else i);
  }

  /** The flags of a page that starts at position `at` of the range. */
  ghost predicate FlagsOk(range: seq<nat>, c: Connection, at: nat) {
    && at + |c.edges| <= |range| && range[at..at + |c.edges|] == c.edges
    && c.hasPrevious == (at > 0) && c.hasNext == (at + |c.edges| < |range|)
  }

  ghost predicate CursorsOk(c: Connection, width: nat) {
    if c.edges == [] then c.startCursor == c.endCursor == ""
    else c.startCursor == WriteCursor(c.edges[0], width) && c.endCursor == WriteCursor(c.edges[|c.edges| - 1], width)
  }

  /** make_connection; `ok` is false when a cursor aborts. */
  method MakeConnection(keys: seq<nat>, b: Bounds, first: Option<uint32>, last: Option<uint32>, before: Option<string>, after: Option<string>, width: nat)
      returns (ok: bool, c: Connection, ghost at: nat)
    requires Sorted(keys)
    ensures ok <==> !ReadCursor(after, width).CursorAborts? && !ReadCursor(before, width).CursorAborts?
    ensures ok ==> c.edges == Edges(keys, b, first, last, KeyOfCursor(before, width), KeyOfCursor(after, width))
    ensures ok ==> FlagsOk(Range(keys, b), c, at) && CursorsOk(c, width)
    ensures ok ==> at + |c.edges| == PageEnd(Range(keys, b), first, KeyOfCursor(before, width), KeyOfCursor(after, width))
    ensures ok && c.edges != [] ==> Outside(Range(keys, b), c)
    ensures ok && last.None? ==> at == Passed(Range(keys, b), KeyOfCursor(after, width))
    ensures ok && first.None? && last.Some? && KeyOfCursor(after, width).None? ==>
              at + |c.edges| == Reached(Range(keys, b), KeyOfCursor(before, width))
  {
    hide Window, Range, UpperBound, LowerBound, Passed, Reached, Sorted, ReadCursor, WriteCursor, Take, TakeLast, Reversed, FlagsOk, Outside;
    ok, c, at := false, Connection([], false, false, "", ""), 0;
    var rangeBegin, rangeEnd := RangePositions(keys, b);
    var it, end;
    ok, it, end := CursorPositions(keys, rangeBegin, rangeEnd, before, after, width);
    if !ok {
      return;
    }
    if last.Some? && first.None? {
      c, at := LastPage(keys, rangeBegin, rangeEnd, it, end, last.value);
    } else {
      c, at := FirstPage(keys, rangeBegin, rangeEnd, it, end, first, last);
    }
    FlagsMean(keys, rangeBegin, rangeEnd, c, at);
    ghost var page := c;
    if c.edges != [] {
      c := c.(startCursor := WriteCursor(c.edges[0], width), endCursor := WriteCursor(c.edges[|c.edges| - 1], width));
    }
    OtherCursors(Range(keys, b), page, c, at);
  }

  /** Where in the range a page ends. */
  function PageEnd(range: seq<nat>, first: Option<uint32>, before: Option<nat>, after: Option<nat>): nat {
    Passed(range, after) + |Take(Window(range, after, before), first)|
  }

  /** There is a page before exactly if the range has a smaller key than the first edge,
      and one after exactly if it has a larger one than the last. */
  ghost predicate Outside(range: seq<nat>, c: Connection)
    requires c.edges != []
  {
    && (c.hasPrevious <==> exists k :: k in range && k < c.edges[0])
    && (c.hasNext <==> exists k :: k in range && k > c.edges[|c.edges| - 1])
  }

  lemma {:induction false} FlagsMean(keys: seq<nat>, rangeBegin: nat, rangeEnd: nat, c: Connection, at: nat)
    requires Sorted(keys) && rangeBegin <= rangeEnd <= |keys| && FlagsOk(keys[rangeBegin..rangeEnd], c, at)
    ensures c.edges != [] ==> Outside(keys[rangeBegin..rangeEnd], c)
  {
    SliceSorted(keys, rangeBegin, rangeEnd);
    var range, n := keys[rangeBegin..rangeEnd], |c.edges|;
    if n > 0 {
      assert c.edges[0] == range[at] && c.edges[n - 1] == range[at + n - 1];
      if c.hasPrevious { assert range[0] in range && range[0] < range[at]; }
      if c.hasNext { assert range[at + n] in range && range[at + n - 1] < range[at + n]; }
    }
  }

  lemma OtherCursors(range: seq<nat>, c: Connection, d: Connection, at: nat)
    requires FlagsOk(range, c, at) && d.edges == c.edges && d.hasPrevious == c.hasPrevious && d.hasNext == c.hasNext
    requires c.edges != [] ==> Outside(range, c)
    ensures FlagsOk(range, d, at) && (d.edges != [] ==> Outside(range, d))
  {
  }

  /** Where the cursors cut the range. */
  method CursorPositions(keys: seq<nat>, rangeBegin: nat, rangeEnd: nat, before: Option<string>, after: Option<string>, width: nat)
      returns (ok: bool, it: nat, end: nat)
    requires Sorted(keys) && rangeBegin <= rangeEnd <= |keys|
    ensures ok <==> !ReadCursor(after, width).CursorAborts? && !ReadCursor(before, width).CursorAborts?
    ensures var range := keys[rangeBegin..rangeEnd];
            ok ==>
              && rangeBegin <= it <= end <= rangeEnd && keys[it..end] == Window(range, KeyOfCursor(after, width), KeyOfCursor(before, width))
              && it == rangeBegin + Passed(range, KeyOfCursor(after, width))
              && (KeyOfCursor(after, width).None? ==> end == rangeBegin + Reached(range, KeyOfCursor(before, width)))
  {
    hide Window, ReadCursor, UpperBound, LowerBound;
    ghost var range := keys[rangeBegin..rangeEnd];
    SliceSorted(keys, rangeBegin, rangeEnd);
    ok, it, end := false, rangeBegin, rangeEnd;
    var key := ReadCursor(after, width);
    if key.CursorAborts? {
      return;
    }
    if key.CursorKey? {
      ClampedUpper(keys, rangeBegin, rangeEnd, key.k);
      it := ClampIt(keys, UpperBound(keys, key.k), rangeBegin, rangeEnd);
    }
    key := ReadCursor(before, width);
    if key.CursorAborts? {
      return;
    }
    if key.CursorKey? {
      ClampedLower(keys, rangeBegin, rangeEnd, key.k);
      end := ClampIt(keys, LowerBound(keys, key.k), rangeBegin, rangeEnd);
    }
    end := MaxIt(keys, it, end);
    ok := true;
    BetweenIsSlice(range, KeyOfCursor(before, width), KeyOfCursor(after, width));
    SliceOfSlice(keys, rangeBegin, rangeEnd, it, end);
  }

  /** The last edges, collected from the end backwards. */
  method LastPage(keys: seq<nat>, rangeBegin: nat, rangeEnd: nat, it: nat, end0: nat, last: uint32) returns (c: Connection, ghost at: nat)
    requires rangeBegin <= it <= end0 <= rangeEnd <= |keys|
    ensures c.edges == TakeLast(Take(keys[it..end0], None), Some(last)) && c.startCursor == c.endCursor == ""
    ensures |Take(keys[it..end0], None)| == end0 - it
    ensures FlagsOk(keys[rangeBegin..rangeEnd], c, at) && rangeBegin + at + |c.edges| == end0
  {
    hide Reversed, TakeLast, Take, FlagsOk;
    var edges, left, end := [], last, end0;
    BackwardsNone(keys, end);
    c := Connection([], false, end != rangeEnd, "", "");
    while it != end
      invariant it <= end <= end0 && edges == Reversed(keys[end..end0])
      invariant left == last - (end0 - end) >= 0
      decreases end
    {
      if left == 0 {
        break;
      }
      left := left - 1;
      BackwardsMore(keys, end, end0);
      edges := edges + [keys[end - 1]];
      end := end - 1;
    }
    at := end - rangeBegin;
    BackwardsTwice(keys[end..end0]);
    LastOf(keys, it, end, end0, last, left);
    c := c.(hasPrevious := end != rangeBegin, edges := Reversed(edges));
    FlagsAre(keys, rangeBegin, rangeEnd, end, end0, c);
  }

  /** The first edges, and of these the last if both are asked for. */
  method FirstPage(keys: seq<nat>, rangeBegin: nat, rangeEnd: nat, it0: nat, end: nat, first: Option<uint32>, last: Option<uint32>)
      returns (c: Connection, ghost at: nat)
    requires rangeBegin <= it0 <= end <= rangeEnd <= |keys|
    ensures c.edges == TakeLast(Take(keys[it0..end], first), last) && c.startCursor == c.endCursor == ""
    ensures FlagsOk(keys[rangeBegin..rangeEnd], c, at) && (last.None? ==> at == it0 - rangeBegin)
    ensures rangeBegin + at + |c.edges| == it0 + |Take(keys[it0..end], first)|
  {
    hide TakeLast, Take, FlagsOk;
    var edges, left, it := [], first, it0;
    c := Connection([], it != rangeBegin, false, "", "");
    while it != end
      invariant it0 <= it <= end && edges == keys[it0..it]
      invariant left.Some? == first.Some? && (first.Some? ==> left.value == first.value - (it - it0) >= 0)
      decreases end - it
    {
      if left.Some? && left.value == 0 {
        break;
      }
      left := if left.Some? then Some(left.value - 1) else left;
      edges := edges + [keys[it]];
      it := it + 1;
    }
    FirstOf(keys, it0, it, end, first);
    c := c.(hasNext := it != rangeEnd, edges := edges);
    c, at := KeepLast(keys, rangeBegin, rangeEnd, it0, it, c, last);
  }

  /** Of the edges collected the last ones are kept, if that many are asked for. */
  method KeepLast(keys: seq<nat>, rangeBegin: nat, rangeEnd: nat, it0: nat, it: nat, c0: Connection, last: Option<uint32>)
      returns (c: Connection, ghost at: nat)
    requires rangeBegin <= it0 <= it <= rangeEnd <= |keys|
    requires c0 == Connection(keys[it0..it], it0 != rangeBegin, it != rangeEnd, "", "")
    ensures c.edges == TakeLast(keys[it0..it], last) && c.startCursor == c.endCursor == ""
    ensures FlagsOk(keys[rangeBegin..rangeEnd], c, at) && (last.None? ==> at == it0 - rangeBegin)
    ensures rangeBegin + at + |c.edges| == it
  {
    hide TakeLast, FlagsOk;
    TakeLastIs(keys[it0..it], last);
    c := c0;
    ghost var from := it0;
    if last.Some? && last.value < |c.edges| {
      from := it - last.value;
      SliceOfSlice(keys, it0, it, from, it);
      assert c.edges[|c.edges| - last.value..] == keys[it0..it][from - it0..it - it0];
      c := c.(hasPrevious := true, edges := c.edges[|c.edges| - last.value..]);
    }
    at := from - rangeBegin;
    FlagsAre(keys, rangeBegin, rangeEnd, from, it, c);
  }

  lemma FlagsAre(keys: seq<nat>, rangeBegin: nat, rangeEnd: nat, from: nat, to: nat, c: Connection)
    requires rangeBegin <= from <= to <= rangeEnd <= |keys| && c.edges == keys[from..to]
    requires c.hasPrevious == (from != rangeBegin) && c.hasNext == (to != rangeEnd)
    ensures FlagsOk(keys[rangeBegin..rangeEnd], c, from - rangeBegin)
  {
    SliceOfSlice(keys, rangeBegin, rangeEnd, from, to);
  }

  function KeyOfCursor(s: Option<string>, width: nat): Option<nat> {
    var r := ReadCursor(s, width);
    if r.CursorKey? then Some(r.k) else None
  }

  lemma BackwardsMore(keys: seq<nat>, end: nat, end0: nat)
    requires 0 < end <= end0 <= |keys|
    ensures Reversed(keys[end - 1..end0]) == Reversed(keys[end..end0]) + [keys[end - 1]]
  {
    assert keys[end - 1..end0] == [keys[end - 1]] + keys[end..end0];
  }

  lemma BackwardsNone(keys: seq<nat>, end: nat)
    requires end <= |keys|
    ensures Reversed(keys[end..end]) == []
  {
  }

  lemma BackwardsTwice(s: seq<nat>)
    ensures Reversed(Reversed(s)) == s
  {
  }

  lemma LastOf(keys: seq<nat>, it: nat, end: nat, end0: nat, last: uint32, left: int)
    requires it <= end <= end0 <= |keys| && left == last - (end0 - end) >= 0 && (end == it || left == 0)
    ensures TakeLast(Take(keys[it..end0], None), Some(last)) == keys[end..end0] && |Take(keys[it..end0], None)| == end0 - it
  {
  }

  lemma TakeLastIs(s: seq<nat>, n: Option<uint32>)
    ensures TakeLast(s, n) == if n.Some? && n.value < |s| then s[|s| - n.value..] else s
  {
  }

  lemma FirstOf(keys: seq<nat>, it0: nat, it: nat, end: nat, first: Option<uint32>)
    requires it0 <= it <= end <= |keys| && (first.None? ==> it == end)
    requires first.Some? ==> it - it0 <= first.value && (it == end || it - it0 == first.value)
    ensures Take(keys[it0..end], first) == keys[it0..it]
  {
  }

  // ----- following the cursors -----

  ghost predicate Fit(keys: seq<nat>, width: nat) {
    width > 0 && forall i :: 0 <= i < |keys| ==> keys[i] < Pow256(width)
  }

  lemma RangeFits(keys: seq<nat>, b: Bounds, width: nat)
    requires Fit(keys, width)
    ensures Fit(Range(keys, b), width)
  {
    FilterKeeps(keys, (k: nat) => InRange(b, k));
    forall i | 0 <= i < |Range(keys, b)| ensures Range(keys, b)[i] < Pow256(width) { assert Range(keys, b)[i] in keys; }
  }

  lemma {:induction false} FilterKeeps(keys: seq<nat>, p: nat -> bool)
    ensures forall k :: k in Filter(keys, p) ==> k in keys
  {
    if keys != [] { FilterKeeps(keys[1..], p); }
  }

  lemma RangeSorted(keys: seq<nat>, b: Bounds) returns (lo: nat, hi: nat)
    requires Sorted(keys)
    ensures lo <= hi <= |keys| && Range(keys, b) == keys[lo..hi] && Sorted(Range(keys, b))
  {
    lo, hi := RangeLimits(keys, b);
    SliceSorted(keys, lo, hi);
  }

  lemma {:induction false} RangeLimits(keys: seq<nat>, b: Bounds) returns (lo: nat, hi: nat)
    requires Sorted(keys)
    ensures lo <= hi <= |keys| && Range(keys, b) == keys[lo..hi]
  {
    lo, hi := 0, |keys|;
    while lo < |keys| && !AboveLow(b, keys[lo])
      invariant lo <= |keys| && forall i :: 0 <= i < lo ==> !AboveLow(b, keys[i])
    {
      lo := lo + 1;
    }
    while hi > lo && !BelowHigh(b, keys[hi - 1])
      invariant lo <= hi <= |keys| && forall i :: hi <= i < |keys| ==> !BelowHigh(b, keys[i])
      decreases hi
    {
      hi := hi - 1;
    }
    forall i | 0 <= i < |keys| ensures InRange(b, keys[i]) <==> lo <= i < hi {
      if lo <= i < hi { assert keys[lo] <= keys[i] <= keys[hi - 1]; }
    }
    FilterIsSlice(keys, (k: nat) => InRange(b, k), lo, hi);
  }

  lemma {:induction false} PassedAt(range: seq<nat>, j: nat)
    requires Sorted(range) && j < |range|
    ensures Passed(range, Some(range[j])) == j + 1 && Reached(range, Some(range[j])) == j
  {
    UpperBoundSplits(range, range[j]);
    LowerBoundSplits(range, range[j]);
    hide UpperBound, LowerBound;
    assert j + 1 < |range| ==> range[j] < range[j + 1];
    assert j > 0 ==> range[j - 1] < range[j];
  }

  /** Going on from the last cursor of every page, as long as there is a next page, visits
      the whole range in order, each key once. */
  method WalkForward(keys: seq<nat>, b: Bounds, n: uint32, width: nat) returns (visited: seq<nat>)
    requires Sorted(keys) && Fit(keys, width) && n > 0
    ensures visited == Range(keys, b)
  {
    hide Range, Sorted, Edges, ReadCursor, WriteCursor, Fit, FlagsOk, CursorsOk, Passed, Reached, KeyOfCursor;
    ghost var range := Range(keys, b);
    ghost var lo, hi := RangeSorted(keys, b);
    RangeFits(keys, b, width);
    visited := [];
    var after: Option<string>, more := None, true;
    NoCursorAtFirst(range, width);
    while more
      invariant |visited| <= |range| && visited == range[..|visited|] && (!more ==> |visited| == |range|)
      invariant !ReadCursor(after, width).CursorAborts? && (more ==> Passed(range, KeyOfCursor(after, width)) == |visited|)
      decreases more, |range| - |visited|
    {
      var ok, c, at := MakeConnection(keys, b, Some(n), None, None, after, width);
      PageGoesOn(range, c, at, n, KeyOfCursor(after, width), width, keys, b);
      Onward(range, visited, c, at, width);
      visited := visited + c.edges;
      more := c.hasNext;
      if more {
        after := Some(c.endCursor);
      }
    }
  }

  lemma NoCursorAtFirst(range: seq<nat>, width: nat)
    ensures !ReadCursor(None, width).CursorAborts? && KeyOfCursor(None, width) == None && Passed(range, None) == 0 && Reached(range, None) == |range|
  {
  }

  /** A cursor that was handed out stands for its key. */
  lemma CursorAtEnd(range: seq<nat>, j: nat, width: nat)
    requires Sorted(range) && Fit(range, width) && j < |range|
    ensures var s := Some(WriteCursor(range[j], width));
            && !ReadCursor(s, width).CursorAborts? && KeyOfCursor(s, width) == Some(range[j])
            && Passed(range, Some(range[j])) == j + 1 && Reached(range, Some(range[j])) == j
  {
    CursorReadsBack(range[j], width);
    PassedAt(range, j);
  }

  /** While there is a next page, a page is not empty. */
  lemma PageGoesOn(range: seq<nat>, c: Connection, at: nat, n: uint32, after: Option<nat>, width: nat, keys: seq<nat>, b: Bounds)
    requires n > 0 && range == Range(keys, b) && Sorted(range)
    requires c.edges == Edges(keys, b, Some(n), None, None, after) && FlagsOk(range, c, at) && at == Passed(range, after)
    ensures c.hasNext ==> c.edges != []
  {
    BetweenIsSlice(range, None, after);
  }

  lemma SplitAt(s: seq<nat>, i: nat, j: nat)
    requires i <= j <= |s|
    ensures s[..j] == s[..i] + s[i..j] && s[i..] == s[i..j] + s[j..]
  {
  }

  /** A page goes on where the visited keys end, and its end cursor where it ends. */
  lemma Onward(range: seq<nat>, visited: seq<nat>, c: Connection, at: nat, width: nat)
    requires Sorted(range) && Fit(range, width) && |visited| <= |range| && visited == range[..|visited|]
    requires FlagsOk(range, c, at) && CursorsOk(c, width) && at == |visited| && (c.hasNext ==> c.edges != [])
    ensures var seen := |visited| + |c.edges|;
            && seen <= |range| && visited + c.edges == range[..seen]
            && (if c.hasNext then
                  c.edges != [] && !ReadCursor(Some(c.endCursor), width).CursorAborts?
                  && Passed(range, KeyOfCursor(Some(c.endCursor), width)) == seen
                else seen == |range|)
  {
    hide Sorted, Fit, ReadCursor, WriteCursor, Passed, Reached, KeyOfCursor;
    var seen := |visited| + |c.edges|;
    SplitAt(range, at, seen);
    if c.hasNext {
      assert c.edges[|c.edges| - 1] == range[seen - 1];
      CursorAtEnd(range, seen - 1, width);
    }
  }

  lemma Backward(range: seq<nat>, visited: seq<nat>, c: Connection, at: nat, width: nat)
    requires Sorted(range) && Fit(range, width) && |visited| <= |range| && visited == range[|range| - |visited|..]
    requires FlagsOk(range, c, at) && CursorsOk(c, width) && at + |c.edges| == |range| - |visited| && (c.hasPrevious ==> c.edges != [])
    ensures var seen := |visited| + |c.edges|;
            && seen <= |range| && c.edges + visited == range[|range| - seen..]
            && (if c.hasPrevious then
                  c.edges != [] && !ReadCursor(Some(c.startCursor), width).CursorAborts?
                  && Reached(range, KeyOfCursor(Some(c.startCursor), width)) == |range| - seen
                else seen == |range|)
  {
    hide Sorted, Fit, ReadCursor, WriteCursor, Passed, Reached, KeyOfCursor;
    SplitAt(range, at, at + |c.edges|);
    if c.hasPrevious {
      assert c.edges[0] == range[at];
      CursorAtEnd(range, at, width);
    }
  }

  /** The same from the end, going back from the first cursor of every page. */
  method WalkBackward(keys: seq<nat>, b: Bounds, n: uint32, width: nat) returns (visited: seq<nat>)
    requires Sorted(keys) && Fit(keys, width) && n > 0
    ensures visited == Range(keys, b)
  {
    hide Range, Sorted, Edges, ReadCursor, WriteCursor, Fit, FlagsOk, CursorsOk, Passed, Reached, KeyOfCursor;
    ghost var range := Range(keys, b);
    ghost var lo, hi := RangeSorted(keys, b);
    RangeFits(keys, b, width);
    visited := [];
    var before: Option<string>, more := None, true;
    NoCursorAtFirst(range, width);
    while more
      invariant |visited| <= |range| && visited == range[|range| - |visited|..] && (!more ==> |visited| == |range|)
      invariant !ReadCursor(before, width).CursorAborts? && (more ==> Reached(range, KeyOfCursor(before, width)) == |range| - |visited|)
      decreases more, |range| - |visited|
    {
      var ok, c, at := MakeConnection(keys, b, None, Some(n), before, None, width);
      PageGoesBack(range, c, at, n, KeyOfCursor(before, width), width, keys, b);
      Backward(range, visited, c, at, width);
      visited := c.edges + visited;
      more := c.hasPrevious;
      if more {
        before := Some(c.startCursor);
      }
    }
  }

  lemma PageGoesBack(range: seq<nat>, c: Connection, at: nat, n: uint32, before: Option<nat>, width: nat, keys: seq<nat>, b: Bounds)
    requires n > 0 && range == Range(keys, b) && Sorted(range)
    requires c.edges == Edges(keys, b, None, Some(n), before, None) && FlagsOk(range, c, at) && at + |c.edges| == Reached(range, before)
    ensures c.hasPrevious ==> c.edges != []
  {
    BetweenIsSlice(range, before, None);
  }
}
