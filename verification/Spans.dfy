/** Match spans over the line table: limiting to line blocks, and grouping and merging by line. */
module Spans {
  import opened Bytes
  import opened Lines

  /** A half-open range of offsets. */
  datatype Span = Span(start: nat, end: nat)

  /** In the buffer and forwards, or clipped to the end of the text of a line whose terminator it starts in. */
  ghost predicate GoodSpan(starts: seq<nat>, content: seq<scalar>, s: Span) {
    && s.start <= |content| && s.end <= |content|
    && (s.start <= s.end || s.end == LineEnd(starts, content, First(starts, s)))
  }

  ghost predicate InRange(starts: seq<nat>, content: seq<scalar>, spans: seq<Span>) {
    forall k :: 0 <= k < |spans| ==> GoodSpan(starts, content, spans[k])
  }

  function First(starts: seq<nat>, s: Span): nat { LineOf(starts, s.start) }

  /** The line of the last byte, or of the start when there is none. */
  function Last(starts: seq<nat>, s: Span): nat {
    if s.end > s.start then LineOf(starts, s.end - 1) else First(starts, s)
  }

  // ---- --max-count over line blocks ----

  ghost predicate SortedByStart(spans: seq<Span>) {
    forall i, j :: 0 <= i < j < |spans| ==> spans[i].start <= spans[j].start
  }

  /** Span `k` shares no line with an earlier one: it opens a new block of lines. */
  ghost predicate OpensBlock(starts: seq<nat>, spans: seq<Span>, k: nat)
    requires k < |spans|
  {
    forall j :: 0 <= j < k ==> Last(starts, spans[j]) < First(starts, spans[k])
  }

  /** Number of line blocks the spans form. */
  ghost function Blocks(starts: seq<nat>, spans: seq<Span>): nat {
    if spans == [] then 0
    else Blocks(starts, spans[..|spans| - 1]) + if OpensBlock(starts, spans, |spans| - 1) then 1 else 0
  }

  /** No line is touched by both. */
  ghost predicate Apart(starts: seq<nat>, a: Span, b: Span) {
    Last(starts, a) < First(starts, b) || Last(starts, b) < First(starts, a)
  }

  /** `end` is the last line any span before `k` touches. */
  ghost predicate EndsAt(starts: seq<nat>, spans: seq<Span>, k: nat, end: Option<nat>)
    requires k <= |spans|
  {
    if k == 0 then end.None?
    else
      && end.Some?
      && (forall j :: 0 <= j < k ==> Last(starts, spans[j]) <= end.value)
      && (exists j :: 0 <= j < k && Last(starts, spans[j]) == end.value)
  }

  lemma BlockTest(starts: seq<nat>, spans: seq<Span>, k: nat, end: Option<nat>)
    requires k < |spans| && EndsAt(starts, spans, k, end)
    ensures OpensBlock(starts, spans, k) <==> end.None? || First(starts, spans[k]) > end.value
    ensures EndsAt(starts, spans, k + 1,
                   Some(if end.None? then Last(starts, spans[k]) else Max(end.value, Last(starts, spans[k]))))
  {
    hide First, Last;
    if end.Some? {
      var j :| 0 <= j < k && Last(starts, spans[j]) == end.value;
      var m := Max(end.value, Last(starts, spans[k]));
      assert Last(starts, spans[if Last(starts, spans[k]) > end.value then k else j]) == m;
    } else {
      assert Last(starts, spans[0]) == Last(starts, spans[k]);
    }
  }

  lemma BlocksStep(starts: seq<nat>, spans: seq<Span>, k: nat)
    requires k < |spans|
    ensures Blocks(starts, spans[..k + 1]) == Blocks(starts, spans[..k]) + if OpensBlock(starts, spans, k) then 1 else 0
  {
    hide First, Last;
    assert spans[..k + 1][..k] == spans[..k];
    assert forall j :: 0 <= j <= k ==> spans[..k + 1][j] == spans[j];
  }

  lemma LastAfterFirst(starts: seq<nat>, content: seq<scalar>, s: Span)
    requires starts == LineStarts(content)
    ensures First(starts, s) <= Last(starts, s)
  {
    if s.end > s.start {
      LineOfMonotone(content, s.start, s.end - 1);
    }
  }

  /** Every later span stays away from everything before the block that `n` opens. */
  lemma BlockSeparates(starts: seq<nat>, content: seq<scalar>, spans: seq<Span>, n: nat)
    requires starts == LineStarts(content) && SortedByStart(spans) && n < |spans| && OpensBlock(starts, spans, n)
    ensures forall i, j :: 0 <= i < n <= j < |spans| ==> Apart(starts, spans[i], spans[j])
  {
    forall i, j | 0 <= i < n <= j < |spans|
      ensures Apart(starts, spans[i], spans[j])
    {
      LineOfMonotone(content, spans[n].start, spans[j].start);
    }
  }

  method LimitToLineBlocks(starts: seq<nat>, content: seq<scalar>, spans: seq<Span>, max: Option<nat>)
    returns (kept: seq<Span>)
    requires starts == LineStarts(content) && SortedByStart(spans)
    ensures kept <= spans
    ensures max.None? ==> kept == spans
    ensures max.Some? ==>
              && Blocks(starts, kept) <= max.value
              && (|kept| < |spans| ==> Blocks(starts, spans[..|kept| + 1]) > max.value)
              && (forall i, j :: 0 <= i < |kept| <= j < |spans| ==> Apart(starts, spans[i], spans[j]))
  {
    hide LineStarts, First, Last, Blocks, OpensBlock, EndsAt, Apart;
    if max.None? {
      return spans;
    }
    kept := [];
    var blocks := 0;
    var blockEnd: Option<nat> := None;
    NoSpans(starts, spans);
    for k := 0 to |spans|
      invariant kept == spans[..k]
      invariant blocks == Blocks(starts, kept) <= max.value
      invariant EndsAt(starts, spans, k, blockEnd)
    {
      BlockTest(starts, spans, k, blockEnd);
      BlocksStep(starts, spans, k);
      var first, last := First(starts, spans[k]), Last(starts, spans[k]);
      if blockEnd.Some? && first <= blockEnd.value {
        blockEnd := Some(Max(blockEnd.value, last));
      } else {
        if blocks == max.value {
          BlockSeparates(starts, content, spans, k);
          return;
        }
        blocks := blocks + 1;
        LastAfterFirst(starts, content, spans[k]);
        EndsAtOpens(starts, spans, k, blockEnd);
        blockEnd := Some(last);
      }
      kept := kept + [spans[k]];
    }
  }

  lemma NoSpans(starts: seq<nat>, spans: seq<Span>)
    ensures Blocks(starts, []) == 0 && EndsAt(starts, spans, 0, None) && spans[..0] == []
  {
  }

  /** A span that opens a block reaches past everything before it. */
  lemma EndsAtOpens(starts: seq<nat>, spans: seq<Span>, k: nat, end: Option<nat>)
    requires k < |spans| && EndsAt(starts, spans, k, end) && OpensBlock(starts, spans, k)
    requires First(starts, spans[k]) <= Last(starts, spans[k])
    ensures EndsAt(starts, spans, k + 1, Some(Last(starts, spans[k])))
  {
    hide First, Last;
  }

  // ---- which lines a span is on ----

  /** A place of the span is on line `li`; an empty span is on the line of its offset. */
  ghost predicate IsOn(starts: seq<nat>, s: Span, li: nat) {
    if s.start < s.end then exists at: nat :: s.start <= at < s.end && LineOf(starts, at) == li
    else LineOf(starts, s.start) == li
  }

  /** A span is on the lines from its first to its last, on all of them. */
  lemma FirstToLast(starts: seq<nat>, content: seq<scalar>, s: Span, li: nat)
    requires starts == LineStarts(content) && s.start <= s.end <= |content|
    ensures IsOn(starts, s, li) <==> First(starts, s) <= li <= Last(starts, s)
  {
    hide LineOf, LineStarts;
    if s.start < s.end {
      LineStartsIsTable(content);
      if First(starts, s) < li <= Last(starts, s) {
        var at := starts[li];
        LineOfFacts(starts, content, at, at);
        LineStartsOwn(starts, content, li);
        TableAscends(starts, content, li, Last(starts, s));
      }
      forall at: nat | s.start <= at < s.end
        ensures First(starts, s) <= LineOf(starts, at) <= Last(starts, s)
      {
        LineOfFacts(starts, content, s.start, at);
        LineOfFacts(starts, content, at, s.end - 1);
      }
    }
  }

  lemma LineStartsOwn(starts: seq<nat>, content: seq<scalar>, li: nat)
    requires Table(starts, content) && li < |starts|
    ensures LineOf(starts, starts[li]) == li
  {
    hide LineOf;
    LineBounds(starts, content, li);
    LineOfFacts(starts, content, starts[li], starts[li]);
  }

  /** Touching a line is being on it. */
  lemma TouchesIsOn(starts: seq<nat>, content: seq<scalar>, s: Span, li: nat)
    requires starts == LineStarts(content) && s.start <= s.end <= |content|
    ensures Touches(starts, s, li) <==> IsOn(starts, s, li)
  {
    hide LineOf, LineStarts;
    FirstToLast(starts, content, s, li);
    LastIsLine(content, s);
  }

  lemma LastIsLine(content: seq<scalar>, s: Span)
    ensures Last(LineStarts(content), s) <= Max(|LineStarts(content)| - 1, 0)
  {
    hide StartsUpTo;
    if content != [] {
      LineStartsIsTable(content);
    }
  }

  /** A span opens a block of lines exactly when it is on no line that an earlier one is on. */
  lemma OpensIsApart(starts: seq<nat>, content: seq<scalar>, spans: seq<Span>, k: nat)
    requires starts == LineStarts(content) && SortedByStart(spans) && k < |spans|
    requires forall j :: 0 <= j <= k ==> spans[j].start <= spans[j].end <= |content|
    ensures OpensBlock(starts, spans, k)
       <==> forall j, li: nat :: 0 <= j < k ==> !(IsOn(starts, spans[j], li) && IsOn(starts, spans[k], li))
  {
    hide LineOf, LineStarts, IsOn;
    forall j, li: nat | 0 <= j <= k
      ensures IsOn(starts, spans[j], li) <==> First(starts, spans[j]) <= li <= Last(starts, spans[j])
    {
      FirstToLast(starts, content, spans[j], li);
    }
    LastAfterFirst(starts, content, spans[k]);
    forall j | 0 <= j < k
      ensures First(starts, spans[j]) <= First(starts, spans[k])
      ensures Last(starts, spans[j]) >= First(starts, spans[k]) ==>
                IsOn(starts, spans[j], First(starts, spans[k])) && IsOn(starts, spans[k], First(starts, spans[k]))
    {
      LineOfMonotone(content, spans[j].start, spans[k].start);
    }
  }

  // ---- grouping by line ----

  /** One output line: its 0-based index and the match ranges in its text. */
  datatype LineHit = LineHit(idx: nat, spans: seq<Span>)

  function Clamp(x: nat, lo: nat, hi: nat): nat { if x < lo then lo else if x > hi then hi else x }

  /** The part of a span on line `li`, relative to the line's start. */
  function Clip(starts: seq<nat>, content: seq<scalar>, s: Span, li: nat): Span {
    var ls, le := LineStart(starts, content, li), LineEnd(starts, content, li);
    if ls <= le then Span(Clamp(s.start, ls, le) - ls, Clamp(s.end, ls, le) - ls) else Span(0, 0)
  }

  /** Last line a span is reported on. */
  function LastReported(starts: seq<nat>, s: Span): nat {
    Min(Last(starts, s), Max(|starts| - 1, 0))
  }

  predicate Touches(starts: seq<nat>, s: Span, li: nat) {
    First(starts, s) <= li <= LastReported(starts, s)
  }

  ghost predicate Touched(starts: seq<nat>, spans: seq<Span>, li: nat) {
    exists k :: 0 <= k < |spans| && Touches(starts, spans[k], li)
  }

  /** The clipped spans of the spans that touch line `li`, in input order. */
  function Clips(starts: seq<nat>, content: seq<scalar>, spans: seq<Span>, li: nat): seq<Span> {
    if spans == [] then []
    else
      var last := spans[|spans| - 1];
      Clips(starts, content, spans[..|spans| - 1], li)
      + if Touches(starts, last, li) then [Clip(starts, content, last, li)] else []
  }

  ghost predicate Covered(spans: seq<Span>, x: nat) {
    exists k :: 0 <= k < |spans| && spans[k].start <= x < spans[k].end
  }

  /** Some range holds offset `x` or ends there; empty ranges count. */
  ghost predicate Meets(spans: seq<Span>, x: nat) {
    exists k :: 0 <= k < |spans| && spans[k].start <= x <= spans[k].end
  }

  ghost predicate SameCover(a: seq<Span>, b: seq<Span>) {
    forall x: nat :: Covered(a, x) <==> Covered(b, x)
  }

  ghost predicate Ordered(spans: seq<Span>) {
    forall i, j :: 0 <= i < j < |spans| ==> spans[i].start <= spans[j].start
  }

  ghost predicate WellShaped(spans: seq<Span>) {
    forall k :: 0 <= k < |spans| ==> spans[k].start <= spans[k].end
  }

  /** Sorted, and neither overlapping nor touching. */
  ghost predicate Separated(spans: seq<Span>) {
    forall i, j :: 0 <= i < j < |spans| ==> spans[i].end < spans[j].start
  }

  predicate Precedes(a: Span, b: Span) {
    a.start < b.start || (a.start == b.start && a.end <= b.end)
  }

  function InsertSpan(s: Span, spans: seq<Span>): seq<Span> {
    if spans == [] || Precedes(s, spans[0]) then [s] + spans else [spans[0]] + InsertSpan(s, spans[1..])
  }

  function SortSpans(spans: seq<Span>): seq<Span> {
    if spans == [] then [] else InsertSpan(spans[0], SortSpans(spans[1..]))
  }

  lemma {:induction false} InsertSpanOrders(s: Span, spans: seq<Span>)
    requires Ordered(spans)
    ensures Ordered(InsertSpan(s, spans))
    ensures forall t :: t in InsertSpan(s, spans) <==> t == s || t in spans
  {
    if spans == [] {
    } else if Precedes(s, spans[0]) {
      assert Ordered([s] + spans);
    } else {
      InsertSpanOrders(s, spans[1..]);
      var rest := InsertSpan(s, spans[1..]);
      assert spans == [spans[0]] + spans[1..];
      forall i | 0 <= i < |rest|
        ensures spans[0].start <= rest[i].start
      {
        assert rest[i] in rest;
      }
    }
  }

  lemma {:induction false} SortSpansOrders(spans: seq<Span>)
    ensures Ordered(SortSpans(spans))
    ensures forall t :: t in SortSpans(spans) <==> t in spans
  {
    if spans != [] {
      SortSpansOrders(spans[1..]);
      InsertSpanOrders(spans[0], SortSpans(spans[1..]));
      assert spans == [spans[0]] + spans[1..];
    }
  }

  lemma SameCoverage(a: seq<Span>, b: seq<Span>)
    requires forall t :: t in a <==> t in b
    ensures SameCover(a, b)
  {
    forall x: nat
      ensures Covered(a, x) <==> Covered(b, x)
    {
      if Covered(a, x) {
        var k :| 0 <= k < |a| && a[k].start <= x < a[k].end;
        assert a[k] in b;
      }
      if Covered(b, x) {
        var k :| 0 <= k < |b| && b[k].start <= x < b[k].end;
        assert b[k] in a;
      }
    }
  }

  /** Merge the ranges of one line so that no two overlap or touch, covering the same bytes. */
  method MergeSpans(spans: seq<Span>) returns (merged: seq<Span>)
    requires WellShaped(spans)
    ensures Separated(merged) && WellShaped(merged)
    ensures SameCover(merged, spans)
    ensures forall x: nat :: Meets(merged, x) <==> Meets(spans, x)
    ensures spans != [] ==> merged != []
  {
    var sorted := SortSpans(spans);
    SortSpansOrders(spans);
    SameCoverage(sorted, spans);
    WellShapedSame(sorted, spans);
    assert spans != [] ==> spans[0] in sorted;
    merged := [];
    NoneCovered();
    hide SortSpans, Covered, SameCover, Closed;
    ClosedNothing();
    for k := 0 to |sorted|
      invariant Separated(merged) && WellShaped(merged)
      invariant k > 0 <==> merged != []
      invariant k < |sorted| && merged != [] ==> merged[|merged| - 1].start <= sorted[k].start
      invariant SameCover(merged, sorted[..k])
      invariant SameCover(Closed(merged), Closed(sorted[..k]))
    {
      var span := sorted[k];
      ClosedStep(merged, sorted, k);
      if merged != [] && span.start <= merged[|merged| - 1].end {
        var last := merged[|merged| - 1];
        CoverWiden(merged, sorted, k);
        merged := merged[|merged| - 1 := Span(last.start, Max(last.end, span.end))];
      } else {
        CoverGrow(merged, sorted, k);
        AppendSeparated(merged, span);
        merged := merged + [span];
      }
    }
    assert sorted[..|sorted|] == sorted;
    SameCoverJoins(merged, sorted, spans);
    ClosedMembers(sorted, spans);
    SameCoverJoins(Closed(merged), Closed(sorted), Closed(spans));
    ClosedMeets(merged);
    ClosedMeets(spans);
    SameCoverAt(Closed(merged), Closed(spans));
  }

  lemma SameCoverAt(a: seq<Span>, b: seq<Span>)
    requires SameCover(a, b)
    ensures forall x: nat :: Covered(a, x) <==> Covered(b, x)
  {
  }

  /** The ranges with their ends taken in. */
  function Closed(spans: seq<Span>): (closed: seq<Span>)
    ensures |closed| == |spans|
  {
    seq(|spans|, k requires 0 <= k < |spans| => Span(spans[k].start, spans[k].end + 1))
  }

  lemma ClosedMeets(spans: seq<Span>)
    ensures forall x: nat :: Covered(Closed(spans), x) <==> Meets(spans, x)
  {
    forall x: nat
      ensures Covered(Closed(spans), x) <==> Meets(spans, x)
    {
      if Meets(spans, x) {
        var k :| 0 <= k < |spans| && spans[k].start <= x <= spans[k].end;
        assert Closed(spans)[k].start <= x < Closed(spans)[k].end;
      }
    }
  }

  lemma ClosedNothing()
    ensures Closed([]) == []
  {
  }

  lemma ClosedMembers(a: seq<Span>, b: seq<Span>)
    requires forall t :: t in a <==> t in b
    ensures SameCover(Closed(a), Closed(b))
  {
    ClosedHas(a);
    ClosedHas(b);
    SameCoverage(Closed(a), Closed(b));
  }

  lemma ClosedHas(spans: seq<Span>)
    ensures forall t: Span :: t in Closed(spans) <==> t.end > 0 && Span(t.start, t.end - 1) in spans
  {
    forall t: Span | t.end > 0 && Span(t.start, t.end - 1) in spans
      ensures t in Closed(spans)
    {
      var k :| 0 <= k < |spans| && spans[k] == Span(t.start, t.end - 1);
      assert Closed(spans)[k] == t;
    }
  }

  /** Merging the next range in keeps what the ranges meet, whichever way it is merged. */
  lemma ClosedStep(merged: seq<Span>, spans: seq<Span>, k: nat)
    requires k < |spans| && WellShaped(merged) && spans[k].start <= spans[k].end
    requires SameCover(Closed(merged), Closed(spans[..k]))
    ensures SameCover(Closed(merged + [spans[k]]), Closed(spans[..k + 1]))
    ensures merged != [] && merged[|merged| - 1].start <= spans[k].start <= merged[|merged| - 1].end ==>
              var n := |merged| - 1;
              SameCover(Closed(merged[n := Span(merged[n].start, Max(merged[n].end, spans[k].end))]), Closed(spans[..k + 1]))
  {
    hide SameCover;
    var all := Closed(spans);
    assert all[..k] == Closed(spans[..k]) && all[..k + 1] == Closed(spans[..k + 1]);
    CoverGrow(Closed(merged), all, k);
    assert Closed(merged) + [all[k]] == Closed(merged + [spans[k]]);
    if merged != [] && merged[|merged| - 1].start <= spans[k].start <= merged[|merged| - 1].end {
      var n := |merged| - 1;
      CoverWiden(Closed(merged), all, k);
      var wide := Span(merged[n].start, Max(merged[n].end, spans[k].end));
      assert Closed(merged[n := wide]) == Closed(merged)[n := Span(wide.start, wide.end + 1)];
    }
  }

  lemma SameCoverJoins(a: seq<Span>, b: seq<Span>, c: seq<Span>)
    requires SameCover(a, b) && SameCover(b, c)
    ensures SameCover(a, c)
  {
  }

  lemma NoneCovered()
    ensures forall x: nat :: !Covered([], x)
    ensures SameCover([], [])
  {
  }

  lemma WellShapedSame(a: seq<Span>, b: seq<Span>)
    requires WellShaped(b) && forall t :: t in a <==> t in b
    ensures WellShaped(a)
  {
    assert forall k :: 0 <= k < |a| ==> a[k] in b;
  }

  lemma CoverAppend(spans: seq<Span>, s: Span)
    ensures forall x: nat :: Covered(spans + [s], x) <==> Covered(spans, x) || s.start <= x < s.end
  {
    var more := spans + [s];
    forall x: nat
      ensures Covered(more, x) <==> Covered(spans, x) || s.start <= x < s.end
    {
      if Covered(spans, x) {
        var k :| 0 <= k < |spans| && spans[k].start <= x < spans[k].end;
        assert more[k] == spans[k];
      }
      assert more[|spans|] == s;
    }
  }

  lemma CoverOneMore(spans: seq<Span>, k: nat)
    requires k < |spans|
    ensures forall x: nat ::
              Covered(spans[..k + 1], x) <==> Covered(spans[..k], x) || spans[k].start <= x < spans[k].end
  {
    assert spans[..k + 1] == spans[..k] + [spans[k]];
    CoverAppend(spans[..k], spans[k]);
  }

  lemma CoverGrow(merged: seq<Span>, spans: seq<Span>, k: nat)
    requires k < |spans| && SameCover(merged, spans[..k])
    ensures SameCover(merged + [spans[k]], spans[..k + 1])
  {
    hide Covered;
    CoverOneMore(spans, k);
    CoverAppend(merged, spans[k]);
    forall x: nat
      ensures Covered(merged + [spans[k]], x) <==> Covered(spans[..k + 1], x)
    {
      assert Covered(merged, x) <==> Covered(spans[..k], x);
    }
  }

  /** Widening the last range by one that starts within or right at its end covers just both. */
  lemma CoverWiden(merged: seq<Span>, spans: seq<Span>, k: nat)
    requires k < |spans| && SameCover(merged, spans[..k])
    requires merged != [] && WellShaped(merged) && spans[k].start <= spans[k].end
    requires merged[|merged| - 1].start <= spans[k].start <= merged[|merged| - 1].end
    ensures var n := |merged| - 1;
            SameCover(merged[n := Span(merged[n].start, Max(merged[n].end, spans[k].end))], spans[..k + 1])
  {
    hide Covered;
    var n := |merged| - 1;
    var init, last, s := merged[..n], merged[n], spans[k];
    var wide := Span(last.start, Max(last.end, s.end));
    var widened := merged[n := wide];
    assert merged == init + [last] && widened == init + [wide];
    CoverOneMore(spans, k);
    CoverAppend(init, last);
    CoverAppend(init, wide);
    forall x: nat
      ensures Covered(widened, x) <==> Covered(spans[..k + 1], x)
    {
      assert Covered(merged, x) <==> Covered(spans[..k], x);
    }
  }

  lemma AppendSeparated(merged: seq<Span>, s: Span)
    requires Separated(merged) && WellShaped(merged)
    requires merged != [] ==> merged[|merged| - 1].end < s.start
    ensures Separated(merged + [s])
  {
    var n := |merged| - 1;
    forall i | 0 <= i < |merged|
      ensures merged[i].end < s.start
    {
      assert i < n ==> merged[i].end < merged[n].start;
      assert merged[n].start <= merged[n].end;
    }
  }

  // ---- what clipping keeps ----

  /** On a line's text a clipped span covers just what the span covers. */
  lemma ClipCovers(starts: seq<nat>, content: seq<scalar>, s: Span, li: nat, x: nat)
    requires Table(starts, content) && li < |starts| && GoodSpan(starts, content, s)
    requires x < LineEnd(starts, content, li) - LineStart(starts, content, li)
    ensures var at := LineStart(starts, content, li) + x;
            && (Touches(starts, s, li) ==>
                  (Clip(starts, content, s, li).start <= x < Clip(starts, content, s, li).end <==> s.start <= at < s.end))
            && (!Touches(starts, s, li) ==> !(s.start <= at < s.end))
  {
    hide LineOf, LineEnd;
    var at := LineStart(starts, content, li) + x;
    LineBounds(starts, content, li);
    if s.start <= at < s.end {
      LineOfFacts(starts, content, at, at);
      LineOfFacts(starts, content, s.start, at);
      LineOfFacts(starts, content, at, s.end - 1);
    }
  }

  lemma {:induction false} ClipsCover(starts: seq<nat>, content: seq<scalar>, spans: seq<Span>, li: nat, x: nat)
    requires Table(starts, content) && li < |starts| && InRange(starts, content, spans)
    requires x < LineEnd(starts, content, li) - LineStart(starts, content, li)
    ensures Covered(Clips(starts, content, spans, li), x) <==> Covered(spans, LineStart(starts, content, li) + x)
  {
    hide LineEnd, Touches, Clip, Covered;
    var at := LineStart(starts, content, li) + x;
    if spans == [] {
      NoneCovered();
    } else {
      var n := |spans| - 1;
      ClipsCover(starts, content, spans[..n], li, x);
      ClipCovers(starts, content, spans[n], li, x);
      CoverAppend(spans[..n], spans[n]);
      assert spans == spans[..n] + [spans[n]];
      var before := Clips(starts, content, spans[..n], li);
      CoverAppend(before, Clip(starts, content, spans[n], li));
      assert before + [] == before;
    }
  }

  lemma {:induction false} ClipsShape(starts: seq<nat>, content: seq<scalar>, spans: seq<Span>, li: nat)
    requires InRange(starts, content, spans)
    ensures WellShaped(Clips(starts, content, spans, li))
    ensures Clips(starts, content, spans, li) != [] <==> Touched(starts, spans, li)
  {
    hide Touches, Clip, Touched, Clips, WellShaped;
    ClipsUnfold(starts, content, spans, li);
    TouchedStep(starts, spans, li);
    if spans == [] {
      NoShapes();
    } else {
      var n := |spans| - 1;
      ClipsShape(starts, content, spans[..n], li);
      if Touches(starts, spans[n], li) {
        ClipShape(starts, content, spans[n], li);
        ShapedOneMore(Clips(starts, content, spans[..n], li), Clip(starts, content, spans[n], li));
      }
    }
  }

  lemma ClipsUnfold(starts: seq<nat>, content: seq<scalar>, spans: seq<Span>, li: nat)
    ensures Clips(starts, content, spans, li)
         == if spans == [] then []
            else
              var n := |spans| - 1;
              var init := Clips(starts, content, spans[..n], li);
              if Touches(starts, spans[n], li) then init + [Clip(starts, content, spans[n], li)] else init
  {
    hide Touches, Clip;
  }

  lemma TouchedStep(starts: seq<nat>, spans: seq<Span>, li: nat)
    ensures Touched(starts, spans, li)
       <==> spans != [] && (Touched(starts, spans[..|spans| - 1], li) || Touches(starts, spans[|spans| - 1], li))
  {
    hide Touches;
    if spans != [] {
      assert spans == spans[..|spans| - 1] + [spans[|spans| - 1]];
    }
  }

  lemma ClipShape(starts: seq<nat>, content: seq<scalar>, s: Span, li: nat)
    requires GoodSpan(starts, content, s) && Touches(starts, s, li)
    ensures Clip(starts, content, s, li).start <= Clip(starts, content, s, li).end
  {
    hide LineStart, LineEnd;
  }

  lemma ShapedOneMore(spans: seq<Span>, s: Span)
    requires WellShaped(spans) && s.start <= s.end
    ensures WellShaped(spans + [s])
  {
  }

  lemma NoShapes()
    ensures WellShaped([])
  {
  }

  // ---- the method ----

  /** What is collected per line once the spans before `k`, and span `k` on lines below `upTo`, are in. */
  ghost predicate Collected(byLine: map<nat, seq<Span>>, starts: seq<nat>, content: seq<scalar>, spans: seq<Span>,
                            k: nat, upTo: nat)
    requires k <= |spans|
  {
    forall li: nat ::
      var clips := if k < |spans| && li < upTo then Clips(starts, content, spans[..k + 1], li)
                   else Clips(starts, content, spans[..k], li);
      (li in byLine <==> clips != []) && (li in byLine ==> byLine[li] == clips)
  }

  lemma CollectedStart(starts: seq<nat>, content: seq<scalar>, spans: seq<Span>)
    ensures Collected(map[], starts, content, spans, 0, 0)
  {
  }

  /** Pushing span `k` onto line `li` moves on to the next line. */
  lemma CollectOne(byLine: map<nat, seq<Span>>, starts: seq<nat>, content: seq<scalar>, spans: seq<Span>,
                   k: nat, li: nat)
    requires k < |spans| && Collected(byLine, starts, content, spans, k, li) && Touches(starts, spans[k], li)
    ensures Collected(byLine[li := (if li in byLine then byLine[li] else []) + [Clip(starts, content, spans[k], li)]],
                      starts, content, spans, k, li + 1)
  {
    hide Touches, Clip, Clips;
    ClipsStep(starts, content, spans, k, li);
    var clips := Clips(starts, content, spans[..k], li);
    assert (li in byLine <==> clips != []) && (li in byLine ==> byLine[li] == clips);
    var more := byLine[li := (if li in byLine then byLine[li] else []) + [Clip(starts, content, spans[k], li)]];
    forall l: nat | l != li
      ensures l in more <==> l in byLine
      ensures l in more ==> more[l] == byLine[l]
    {
    }
  }

  lemma ClipsStep(starts: seq<nat>, content: seq<scalar>, spans: seq<Span>, k: nat, li: nat)
    requires k < |spans|
    ensures Clips(starts, content, spans[..k + 1], li)
         == if Touches(starts, spans[k], li) then Clips(starts, content, spans[..k], li) + [Clip(starts, content, spans[k], li)]
            else Clips(starts, content, spans[..k], li)
  {
    hide Touches, Clip;
    assert spans[..k + 1][..k] == spans[..k];
    assert Clips(starts, content, spans[..k], li) + [] == Clips(starts, content, spans[..k], li);
  }

  /** A span changes nothing below its first line or above its last. */
  lemma CollectEdges(byLine: map<nat, seq<Span>>, starts: seq<nat>, content: seq<scalar>, spans: seq<Span>, k: nat)
    requires k < |spans|
    ensures Collected(byLine, starts, content, spans, k, 0) ==>
              Collected(byLine, starts, content, spans, k, First(starts, spans[k]))
    ensures forall upTo: nat :: upTo > LastReported(starts, spans[k]) && Collected(byLine, starts, content, spans, k, upTo) ==>
              Collected(byLine, starts, content, spans, k + 1, 0)
  {
    hide First, LastReported, Clip;
    forall li: nat
      ensures !Touches(starts, spans[k], li) ==>
                Clips(starts, content, spans[..k + 1], li) == Clips(starts, content, spans[..k], li)
    {
      ClipsStep(starts, content, spans, k, li);
    }
    hide Clips;
  }

  lemma BetweenTouches(starts: seq<nat>, s: Span, li: nat)
    requires First(starts, s) <= li <= LastReported(starts, s)
    ensures Touches(starts, s, li)
  {
  }

  /** Everything is collected: a line has an entry exactly when it is touched. */
  lemma CollectedAll(byLine: map<nat, seq<Span>>, starts: seq<nat>, content: seq<scalar>, spans: seq<Span>)
    requires InRange(starts, content, spans) && Collected(byLine, starts, content, spans, |spans|, 0)
    ensures forall li: nat :: li in byLine <==> Touched(starts, spans, li)
    ensures forall li: nat :: li in byLine ==> byLine[li] == Clips(starts, content, spans, li)
    ensures forall li: nat :: li in byLine ==> li < Max(|starts|, 1)
  {
    hide Clips, Clip;
    assert spans[..|spans|] == spans;
    forall li: nat
      ensures Clips(starts, content, spans, li) != [] <==> Touched(starts, spans, li)
    {
      hide Touches;
      ClipsShape(starts, content, spans, li);
    }
  }

  /** Offset `at` of line `li`'s text lies within the span or at an end; what starts in the terminator is at the end. */
  predicate MeetsText(starts: seq<nat>, content: seq<scalar>, s: Span, li: nat, at: nat) {
    Touches(starts, s, li) && (s.start <= at <= s.end || (at == LineEnd(starts, content, li) && s.start > at))
  }

  ghost predicate SomeMeetsText(starts: seq<nat>, content: seq<scalar>, spans: seq<Span>, li: nat, at: nat) {
    exists k :: 0 <= k < |spans| && MeetsText(starts, content, spans[k], li, at)
  }

  lemma ClipMeets(starts: seq<nat>, content: seq<scalar>, s: Span, li: nat, x: nat)
    requires Table(starts, content) && li < |starts| && GoodSpan(starts, content, s) && Touches(starts, s, li)
    requires x <= LineEnd(starts, content, li) - LineStart(starts, content, li)
    ensures var clip := Clip(starts, content, s, li);
            clip.start <= x <= clip.end <==> MeetsText(starts, content, s, li, LineStart(starts, content, li) + x)
  {
    hide LineOf, LineEnd;
    LineBounds(starts, content, li);
    TouchIsNotBefore(starts, content, s, li);
  }

  /** A line that a span touches does not start behind it. */
  lemma TouchIsNotBefore(starts: seq<nat>, content: seq<scalar>, s: Span, li: nat)
    requires Table(starts, content) && li < |starts| && Touches(starts, s, li)
    ensures LineStart(starts, content, li) <= Max(s.start, s.end - 1)
  {
    hide LineOf;
    assert starts[LineOf(starts, s.start)] <= s.start;
    if s.end > s.start {
      assert starts[LineOf(starts, s.end - 1)] <= s.end - 1;
      TableAscends(starts, content, li, LineOf(starts, s.end - 1));
    } else {
      TableAscends(starts, content, li, LineOf(starts, s.start));
    }
  }

  lemma TableAscends(starts: seq<nat>, content: seq<scalar>, i: nat, j: nat)
    requires Table(starts, content) && i <= j < |starts|
    ensures starts[i] <= starts[j]
  {
  }

  lemma {:induction false} ClipsMeet(starts: seq<nat>, content: seq<scalar>, spans: seq<Span>, li: nat, x: nat)
    requires Table(starts, content) && li < |starts| && InRange(starts, content, spans)
    requires x <= LineEnd(starts, content, li) - LineStart(starts, content, li)
    ensures Meets(Clips(starts, content, spans, li), x)
       <==> SomeMeetsText(starts, content, spans, li, LineStart(starts, content, li) + x)
  {
    hide LineEnd, LineStart, Touches, Clip, Meets, MeetsText, GoodSpan, Clips, Table;
    var at := LineStart(starts, content, li) + x;
    ClipsUnfold(starts, content, spans, li);
    if spans == [] {
      NoneMet();
    } else {
      var n := |spans| - 1;
      ClipsMeet(starts, content, spans[..n], li, x);
      MeetsMore(Clips(starts, content, spans[..n], li), Clip(starts, content, spans[n], li), x);
      SomeMeetsMore(starts, content, spans, li, at);
      TextTouches(starts, content, spans[n], li, at);
      if Touches(starts, spans[n], li) {
        ClipMeets(starts, content, spans[n], li, x);
      }
    }
  }

  lemma TextTouches(starts: seq<nat>, content: seq<scalar>, s: Span, li: nat, at: nat)
    ensures MeetsText(starts, content, s, li, at) ==> Touches(starts, s, li)
  {
  }

  lemma NoneMet()
    ensures forall x: nat :: !Meets([], x)
  {
  }

  lemma MeetsMore(spans: seq<Span>, s: Span, x: nat)
    ensures Meets(spans + [s], x) <==> Meets(spans, x) || s.start <= x <= s.end
  {
    var more := spans + [s];
    assert more[|spans|] == s && forall k :: 0 <= k < |spans| ==> more[k] == spans[k];
  }

  lemma SomeMeetsMore(starts: seq<nat>, content: seq<scalar>, spans: seq<Span>, li: nat, at: nat)
    requires spans != []
    ensures var n := |spans| - 1;
            SomeMeetsText(starts, content, spans, li, at)
            <==> SomeMeetsText(starts, content, spans[..n], li, at) || MeetsText(starts, content, spans[n], li, at)
  {
    hide MeetsText;
    var n := |spans| - 1;
    assert spans == spans[..n] + [spans[n]];
  }

  /**
   * Separated ranges that cover a place of the line's text exactly when some span does, and that meet it
   * exactly when some span on the line does: empty matches are shown too.
   */
  ghost predicate GoodHit(starts: seq<nat>, content: seq<scalar>, spans: seq<Span>, hit: LineHit) {
    && hit.spans != [] && Separated(hit.spans) && WellShaped(hit.spans)
    && (content != [] ==>
          && hit.idx < |starts|
          && var ls := LineStart(starts, content, hit.idx);
          && (forall x: nat :: x < LineEnd(starts, content, hit.idx) - ls ==>
                (Covered(hit.spans, x) <==> Covered(spans, ls + x)))
          && (forall x: nat :: x <= LineEnd(starts, content, hit.idx) - ls ==>
                (Meets(hit.spans, x) <==> SomeMeetsText(starts, content, spans, hit.idx, ls + x))))
  }

  lemma MergedHit(starts: seq<nat>, content: seq<scalar>, spans: seq<Span>, li: nat, merged: seq<Span>)
    requires starts == LineStarts(content) && InRange(starts, content, spans) && li < Max(|starts|, 1)
    requires merged != [] && Separated(merged) && WellShaped(merged)
    requires SameCover(merged, Clips(starts, content, spans, li))
    requires forall x: nat :: Meets(merged, x) <==> Meets(Clips(starts, content, spans, li), x)
    ensures GoodHit(starts, content, spans, LineHit(li, merged))
  {
    hide Clips, Covered, LineStarts, LineEnd, Meets, SomeMeetsText;
    if content != [] {
      LineStartsIsTable(content);
      forall x: nat | x <= LineEnd(starts, content, li) - LineStart(starts, content, li)
        ensures Meets(merged, x) <==> SomeMeetsText(starts, content, spans, li, LineStart(starts, content, li) + x)
      {
        ClipsMeet(starts, content, spans, li, x);
      }
      forall x: nat | x < LineEnd(starts, content, li) - LineStart(starts, content, li)
        ensures Covered(merged, x) <==> Covered(spans, LineStart(starts, content, li) + x)
      {
        ClipsCover(starts, content, spans, li, x);
      }
    }
  }

  ghost predicate Listed(hits: seq<LineHit>, li: nat) {
    exists i :: 0 <= i < |hits| && hits[i].idx == li
  }

  lemma NothingListed()
    ensures forall li: nat :: !Listed([], li)
  {
  }

  lemma ListedOneMore(hits: seq<LineHit>, hit: LineHit)
    ensures forall li: nat :: Listed(hits + [hit], li) <==> Listed(hits, li) || hit.idx == li
  {
    var more := hits + [hit];
    assert more[|hits|] == hit;
    assert forall i :: 0 <= i < |hits| ==> more[i] == hits[i];
  }

  /** Exactly the touched lines in ascending order, each a good hit. */
  method GroupSpansByLine(starts: seq<nat>, content: seq<scalar>, spans: seq<Span>) returns (hits: seq<LineHit>)
    requires starts == LineStarts(content) && InRange(starts, content, spans)
    ensures forall i, j :: 0 <= i < j < |hits| ==> hits[i].idx < hits[j].idx
    ensures forall li: nat :: Listed(hits, li) <==> Touched(starts, spans, li)
    ensures forall i :: 0 <= i < |hits| ==> GoodHit(starts, content, spans, hits[i])
  {
    hide LineStarts, Clips, Clip, Touches, Touched, First, LastReported;
    hide Collected, Covered, Meets, GoodHit, Listed, SameCover, Separated, WellShaped;
    var byLine: map<nat, seq<Span>> := map[];
    CollectedStart(starts, content, spans);
    for k := 0 to |spans|
      invariant Collected(byLine, starts, content, spans, k, 0)
    {
      CollectEdges(byLine, starts, content, spans, k);
      var first, last := First(starts, spans[k]), LastReported(starts, spans[k]);
      var li := first;
      while li <= last
        invariant first <= li
        invariant Collected(byLine, starts, content, spans, k, li)
      {
        BetweenTouches(starts, spans[k], li);
        CollectOne(byLine, starts, content, spans, k, li);
        byLine := byLine[li := (if li in byLine then byLine[li] else []) + [Clip(starts, content, spans[k], li)]];
        li := li + 1;
      }
      CollectEdges(byLine, starts, content, spans, k);
    }
    CollectedAll(byLine, starts, content, spans);
    hits := [];
    NothingListed();
    var lines := Max(|starts|, 1);
    for li := 0 to lines
      invariant forall i, j :: 0 <= i < j < |hits| ==> hits[i].idx < hits[j].idx
      invariant forall i :: 0 <= i < |hits| ==> hits[i].idx < li
      invariant forall l: nat :: Listed(hits, l) <==> l < li && l in byLine
      invariant forall i :: 0 <= i < |hits| ==> GoodHit(starts, content, spans, hits[i])
    {
      if li in byLine {
        ClipsShape(starts, content, spans, li);
        var merged := MergeSpans(byLine[li]);
        MergedHit(starts, content, spans, li, merged);
        ListedOneMore(hits, LineHit(li, merged));
        hits := hits + [LineHit(li, merged)];
      }
    }
  }

  // ---- clipping to the start line ----

  /** `--vimgrep`: a span ends at the latest where the text of its first line does. */
  function ClipToStartLine(starts: seq<nat>, content: seq<scalar>, spans: seq<Span>): (clipped: seq<Span>)
    ensures |clipped| == |spans|
  {
    seq(|spans|, k requires 0 <= k < |spans| =>
      Span(spans[k].start, Min(spans[k].end, LineEnd(starts, content, First(starts, spans[k])))))
  }

  /** A clipped span stays on its first line, and covers of its text what the span does. */
  lemma ClippedToLine(starts: seq<nat>, content: seq<scalar>, s: Span, li: nat, at: nat)
    requires Table(starts, content) && s.start <= s.end <= |content| && li < |starts|
    requires LineStart(starts, content, li) <= at < LineEnd(starts, content, li)
    ensures var end := Min(s.end, LineEnd(starts, content, First(starts, s)));
            && GoodSpan(starts, content, Span(s.start, end))
            && (s.start <= at < end <==> s.start <= at < s.end && First(starts, s) == li)
  {
    hide LineOf, LineEnd;
    var first := First(starts, s);
    LineBounds(starts, content, li);
    LineBounds(starts, content, first);
    LineOfFacts(starts, content, at, at);
    if s.start <= at < LineEnd(starts, content, first) {
      assert starts[first] <= s.start;
      assert LineStart(starts, content, first) <= at < LineStart(starts, content, first + 1);
    }
  }

  // ---- context lines ----

  /** Lines `k` with a match at most `after` lines above or `before` lines below. */
  ghost predicate InWindow(matches: seq<nat>, before: nat, after: nat, line: nat) {
    exists k :: 0 <= k < |matches| && matches[k] - before <= line <= matches[k] + after
  }

  /** The lines to print are exactly those of the buffer within the context of some match. */
  method ExpandContextWindow(matches: seq<nat>, total: nat, before: nat, after: nat) returns (printed: set<nat>)
    ensures forall line: nat :: line in printed <==> line < total && InWindow(matches, before, after, line)
  {
    printed := {};
    for i := 0 to |matches|
      invariant forall line: nat :: line in printed <==> line < total && InWindow(matches[..i], before, after, line)
    {
      WindowGrows(matches, i, before, after);
      var start, end := Max(matches[i] - before, 0), Min(matches[i] + after + 1, total);
      var j := start;
      while j < end
        invariant start <= j
        invariant forall line: nat :: line in printed <==>
                    || (line < total && InWindow(matches[..i], before, after, line))
                    || (start <= line < j && line < end)
      {
        printed := printed + {j};
        j := j + 1;
      }
    }
    assert matches[..|matches|] == matches;
  }

  lemma WindowGrows(matches: seq<nat>, i: nat, before: nat, after: nat)
    requires i < |matches|
    ensures forall line: nat :: InWindow(matches[..i + 1], before, after, line)
              <==> InWindow(matches[..i], before, after, line) || matches[i] - before <= line <= matches[i] + after
  {
    var more := matches[..i + 1];
    forall line: nat | InWindow(matches[..i], before, after, line) || matches[i] - before <= line <= matches[i] + after
      ensures InWindow(more, before, after, line)
    {
      if InWindow(matches[..i], before, after, line) {
        var k :| 0 <= k < i && matches[k] - before <= line <= matches[k] + after;
        assert more[k] == matches[k];
      } else {
        assert more[i] == matches[i];
      }
    }
  }
}
