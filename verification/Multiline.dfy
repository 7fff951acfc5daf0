/** Multi-line matching: the whole buffer is searched, limited to line blocks, and grouped by line. */
module Multiline {
  import opened Bytes
  import opened Lines
  import opened Spans
  import opened Regexes

  /** The matches kept under a limit of line blocks: as many as fit, and no line is torn apart. */
  ghost predicate Limited(starts: seq<nat>, kept: seq<Span>, all: seq<Span>, max: Option<nat>) {
    && kept <= all
    && (max.None? ==> kept == all)
    && (max.Some? ==> Blocks(starts, kept) <= max.value)
    && (max.Some? && |kept| < |all| ==> Blocks(starts, all[..|kept| + 1]) > max.value)
  }

  /** Some match of `spans` starts on line `li`. */
  ghost predicate StartsOn(starts: seq<nat>, spans: seq<Span>, li: nat) {
    exists k :: 0 <= k < |spans| && First(starts, spans[k]) == li
  }

  /** Some match of `spans` that starts on line `li` covers `at`. */
  ghost predicate CoveredFrom(starts: seq<nat>, spans: seq<Span>, li: nat, at: nat) {
    exists k :: 0 <= k < |spans| && First(starts, spans[k]) == li && spans[k].start <= at < spans[k].end
  }

  /**
   * What is highlighted in a reported line: what matches cover, whether the limit kept them or not.
   * With `--vimgrep` only of those that start there.
   */
  ghost predicate Complete(starts: seq<nat>, content: seq<scalar>, all: seq<Span>, vimgrep: bool, hit: LineHit) {
    && hit.idx < |starts| && hit.spans != [] && Separated(hit.spans)
    && var ls := LineStart(starts, content, hit.idx);
    forall x: nat :: x < LineEnd(starts, content, hit.idx) - ls ==>
      (Covered(hit.spans, x)
       <==> if vimgrep then CoveredFrom(starts, all, hit.idx, ls + x) else Covered(all, ls + x))
  }

  /**
   * `collect_hits` with `--multiline`. The lines reported are those the kept matches touch, or start
   * on with `--vimgrep`, in ascending order; and every reported line shows all its matches, so the
   * limit never leaves part of a line out.
   */
  method CollectMultiline(m: Matcher, content: seq<scalar>, starts: seq<nat>, max: Option<nat>, vimgrep: bool)
    returns (hits: seq<LineHit>, ghost kept: seq<Span>)
    requires starts == LineStarts(content)
    ensures Limited(starts, kept, FindIter(m, content, 0, None), max)
    ensures forall i, j :: 0 <= i < j < |hits| ==> hits[i].idx < hits[j].idx
    ensures forall li: nat :: Listed(hits, li) <==>
              if vimgrep then StartsOn(starts, kept, li) else Touched(starts, kept, li)
    ensures content != [] ==> forall i :: 0 <= i < |hits| ==>
              Complete(starts, content, FindIter(m, content, 0, None), vimgrep, hits[i])
  {
    hide LineStarts, FindIter, Blocks, Touched, StartsOn, Listed, Complete, GoodHit, Forwards, InRange, Apart;
    hide ClipToStartLine, SortedByStart;
    var spans := FindIter(m, content, 0, None);
    FindIterSorted(m, content, 0, None);
    FindIterInRange(m, content, starts);
    var limited := LimitToLineBlocks(starts, content, spans, max);
    kept := limited;
    KeptApart(starts, spans, limited);
    KeptForwards(content, spans, |limited|);
    var shown := if vimgrep then ClipToStartLine(starts, content, limited) else limited;
    if vimgrep {
      ClippedInRange(starts, content, limited);
      ClippedTouches(starts, content, limited);
    }
    hits := GroupSpansByLine(starts, content, shown);
    AllComplete(starts, content, spans, |limited|, vimgrep, hits);
  }

  lemma AllComplete(starts: seq<nat>, content: seq<scalar>, spans: seq<Span>, n: nat, vimgrep: bool, hits: seq<LineHit>)
    requires starts == LineStarts(content) && Forwards(content, spans)
    requires n <= |spans| && NoSharedLine(starts, spans, n)
    requires forall li: nat :: Listed(hits, li) ==>
               if vimgrep then StartsOn(starts, spans[..n], li) else Touched(starts, spans[..n], li)
    requires var shown := if vimgrep then ClipToStartLine(starts, content, spans[..n]) else spans[..n];
             forall i :: 0 <= i < |hits| ==> GoodHit(starts, content, shown, hits[i])
    ensures content != [] ==> forall i :: 0 <= i < |hits| ==> Complete(starts, content, spans, vimgrep, hits[i])
  {
    hide LineStarts, Touched, StartsOn, Listed, Complete, GoodHit, Forwards, NoSharedLine, ClipToStartLine;
    if content != [] {
      LineStartsIsTable(content);
      forall i | 0 <= i < |hits|
        ensures Complete(starts, content, spans, vimgrep, hits[i])
      {
        ItselfListed(hits, i);
        if vimgrep {
          ClippedComplete(starts, content, spans, n, hits[i]);
        } else {
          KeptComplete(starts, content, spans, n, hits[i]);
        }
      }
    }
  }

  lemma KeptApart(starts: seq<nat>, spans: seq<Span>, kept: seq<Span>)
    requires kept <= spans
    requires forall i, j :: 0 <= i < |kept| <= j < |spans| ==> Apart(starts, spans[i], spans[j])
    ensures NoSharedLine(starts, spans, |kept|) && kept == spans[..|kept|]
  {
  }

  lemma FindIterInRange(m: Matcher, content: seq<scalar>, starts: seq<nat>)
    ensures InRange(starts, content, FindIter(m, content, 0, None))
    ensures Forwards(content, FindIter(m, content, 0, None))
  {
    hide FindIter, LineEnd, First;
    var spans := FindIter(m, content, 0, None);
    FindIterSorted(m, content, 0, None);
    assert forall k :: 0 <= k < |spans| ==> spans[k] in spans;
  }

  lemma KeptForwards(content: seq<scalar>, spans: seq<Span>, n: nat)
    requires Forwards(content, spans) && n <= |spans|
    ensures Forwards(content, spans[..n])
    ensures forall starts :: InRange(starts, content, spans) ==> InRange(starts, content, spans[..n])
  {
    hide GoodSpan;
  }

  ghost predicate Forwards(content: seq<scalar>, spans: seq<Span>) {
    forall k :: 0 <= k < |spans| ==> spans[k].start <= spans[k].end <= |content|
  }

  lemma ItselfListed(hits: seq<LineHit>, i: nat)
    requires i < |hits|
    ensures Listed(hits, hits[i].idx)
  {
  }

  /** The limit keeps away from the lines it drops. */
  ghost predicate NoSharedLine(starts: seq<nat>, spans: seq<Span>, n: nat) {
    forall i, j :: 0 <= i < n <= j < |spans| ==> Apart(starts, spans[i], spans[j])
  }

  /** A span that covers a byte of a line's text touches the line. */
  lemma CoveringTouches(starts: seq<nat>, content: seq<scalar>, s: Span, li: nat, at: nat)
    requires Table(starts, content) && li < |starts| && s.start <= at < s.end
    requires LineStart(starts, content, li) <= at < LineEnd(starts, content, li)
    ensures First(starts, s) <= li <= Last(starts, s)
  {
    hide LineOf, LineEnd;
    LineBounds(starts, content, li);
    LineOfFacts(starts, content, at, at);
    LineOfFacts(starts, content, s.start, at);
    LineOfFacts(starts, content, at, s.end - 1);
  }

  /** On a line that a kept match touches, only kept matches cover anything. */
  lemma DroppedElsewhere(starts: seq<nat>, content: seq<scalar>, spans: seq<Span>, n: nat, i: nat, j: nat,
                         li: nat, at: nat)
    requires Table(starts, content) && i < n <= j < |spans| && NoSharedLine(starts, spans, n) && li < |starts|
    requires Touches(starts, spans[i], li)
    requires LineStart(starts, content, li) <= at < LineEnd(starts, content, li)
    ensures !(spans[j].start <= at < spans[j].end)
  {
    hide First, Last, LineStart, LineEnd;
    assert Apart(starts, spans[i], spans[j]);
    if spans[j].start <= at < spans[j].end {
      CoveringTouches(starts, content, spans[j], li, at);
    }
  }

  lemma KeptCovers(starts: seq<nat>, content: seq<scalar>, spans: seq<Span>, n: nat, i: nat, li: nat, at: nat)
    requires Table(starts, content) && i < n <= |spans| && NoSharedLine(starts, spans, n) && li < |starts|
    requires Touches(starts, spans[i], li)
    requires LineStart(starts, content, li) <= at < LineEnd(starts, content, li)
    ensures Covered(spans[..n], at) <==> Covered(spans, at)
  {
    hide LineStart, LineEnd, Touches, NoSharedLine;
    var kept := spans[..n];
    if Covered(kept, at) {
      var k :| 0 <= k < n && kept[k].start <= at < kept[k].end;
      assert spans[k] == kept[k];
    } else if Covered(spans, at) {
      var k :| 0 <= k < |spans| && spans[k].start <= at < spans[k].end;
      if k >= n {
        DroppedElsewhere(starts, content, spans, n, i, k, li, at);
      }
    }
  }

  lemma KeptComplete(starts: seq<nat>, content: seq<scalar>, spans: seq<Span>, n: nat, hit: LineHit)
    requires Table(starts, content) && n <= |spans| && NoSharedLine(starts, spans, n)
    requires Touched(starts, spans[..n], hit.idx) && GoodHit(starts, content, spans[..n], hit)
    ensures Complete(starts, content, spans, false, hit)
  {
    hide LineStart, LineEnd, Touches, NoSharedLine, Covered, Separated, WellShaped;
    var i :| 0 <= i < n && Touches(starts, spans[..n][i], hit.idx);
    forall at: nat | LineStart(starts, content, hit.idx) <= at < LineEnd(starts, content, hit.idx)
      ensures Covered(spans[..n], at) <==> Covered(spans, at)
    {
      KeptCovers(starts, content, spans, n, i, hit.idx, at);
    }
  }

  // ---- one line per match ----

  lemma ClippedInRange(starts: seq<nat>, content: seq<scalar>, spans: seq<Span>)
    requires starts == LineStarts(content) && Forwards(content, spans)
    ensures InRange(starts, content, ClipToStartLine(starts, content, spans))
  {
    hide LineStarts, LineOf, LineEnd;
    LineEndInside(content);
  }

  lemma LineEndInside(content: seq<scalar>)
    ensures forall s: Span :: LineEnd(LineStarts(content), content, First(LineStarts(content), s)) <= |content|
  {
    hide LineOf, LineEnd;
    var starts := LineStarts(content);
    forall s: Span
      ensures LineEnd(starts, content, First(starts, s)) <= |content|
    {
      if content != [] {
        LineStartsIsTable(content);
        LineBounds(starts, content, First(starts, s));
      } else {
        NoLineEnd(First(starts, s));
      }
    }
  }

  lemma NoLineEnd(li: nat)
    ensures LineEnd([], [], li) == 0
  {
  }

  /** A clipped span touches its first line and no other. */
  lemma ClippedTouches(starts: seq<nat>, content: seq<scalar>, spans: seq<Span>)
    requires starts == LineStarts(content) && Forwards(content, spans)
    ensures forall li: nat ::
              Touched(starts, ClipToStartLine(starts, content, spans), li) <==> StartsOn(starts, spans, li)
  {
    hide LineEnd, LineStarts, Touches;
    var clipped := ClipToStartLine(starts, content, spans);
    forall k, li: nat | 0 <= k < |spans|
      ensures Touches(starts, clipped[k], li) <==> First(starts, spans[k]) == li
    {
      ClippedLast(starts, content, spans[k], li);
    }
    forall li: nat
      ensures Touched(starts, clipped, li) <==> StartsOn(starts, spans, li)
    {
      if Touched(starts, clipped, li) {
        var k :| 0 <= k < |clipped| && Touches(starts, clipped[k], li);
        assert First(starts, spans[k]) == li;
      }
      if StartsOn(starts, spans, li) {
        var k :| 0 <= k < |spans| && First(starts, spans[k]) == li;
        assert Touches(starts, clipped[k], li);
      }
    }
  }

  lemma ClippedLast(starts: seq<nat>, content: seq<scalar>, s: Span, li: nat)
    requires starts == LineStarts(content) && s.start <= s.end <= |content|
    ensures var clipped := Span(s.start, Min(s.end, LineEnd(starts, content, First(starts, s))));
            Touches(starts, clipped, li) <==> First(starts, s) == li
  {
    hide LineOf, LineEnd, LineStarts;
    var clipped := Span(s.start, Min(s.end, LineEnd(starts, content, First(starts, s))));
    NoLines();
    if clipped.end > clipped.start && content != [] {
      LineStartsIsTable(content);
      LineBounds(starts, content, First(starts, s));
      LineOfFacts(starts, content, clipped.end - 1, clipped.end - 1);
    }
  }

  lemma NoLines()
    ensures LineStarts([]) == [] && forall x: nat :: LineOf([], x) == 0
  {
  }

  lemma ClippedCoversFrom(starts: seq<nat>, content: seq<scalar>, spans: seq<Span>, n: nat, li: nat, at: nat)
    requires Table(starts, content) && Forwards(content, spans) && li < |starts| && n <= |spans|
    requires LineStart(starts, content, li) <= at < LineEnd(starts, content, li)
    requires Covered(ClipToStartLine(starts, content, spans[..n]), at)
    ensures CoveredFrom(starts, spans, li, at)
  {
    hide LineStart, LineEnd, First, GoodSpan;
    var clipped := ClipToStartLine(starts, content, spans[..n]);
    var k :| 0 <= k < n && clipped[k].start <= at < clipped[k].end;
    ClippedToLine(starts, content, spans[k], li, at);
    assert First(starts, spans[k]) == li && spans[k].start <= at < spans[k].end;
  }

  lemma FromIsClippedCover(starts: seq<nat>, content: seq<scalar>, spans: seq<Span>, n: nat, i: nat, li: nat, at: nat)
    requires Table(starts, content) && Forwards(content, spans) && li < |starts|
    requires i < n <= |spans| && NoSharedLine(starts, spans, n) && Touches(starts, spans[i], li)
    requires LineStart(starts, content, li) <= at < LineEnd(starts, content, li)
    requires CoveredFrom(starts, spans, li, at)
    ensures Covered(ClipToStartLine(starts, content, spans[..n]), at)
  {
    hide LineStart, LineEnd, Touches, NoSharedLine, First, GoodSpan;
    var clipped := ClipToStartLine(starts, content, spans[..n]);
    var k :| 0 <= k < |spans| && First(starts, spans[k]) == li && spans[k].start <= at < spans[k].end;
    if k >= n {
      DroppedElsewhere(starts, content, spans, n, i, k, li, at);
    } else {
      ClippedToLine(starts, content, spans[k], li, at);
      assert clipped[k].start <= at < clipped[k].end;
    }
  }

  lemma ClippedComplete(starts: seq<nat>, content: seq<scalar>, spans: seq<Span>, n: nat, hit: LineHit)
    requires Table(starts, content) && starts == LineStarts(content) && Forwards(content, spans)
    requires n <= |spans| && NoSharedLine(starts, spans, n)
    requires StartsOn(starts, spans[..n], hit.idx)
    requires GoodHit(starts, content, ClipToStartLine(starts, content, spans[..n]), hit)
    ensures Complete(starts, content, spans, true, hit)
  {
    hide LineStart, LineEnd, Touches, NoSharedLine, Covered, CoveredFrom, Separated, WellShaped, LineStarts, First;
    hide ClipToStartLine, Forwards;
    var i :| 0 <= i < n && First(starts, spans[..n][i]) == hit.idx;
    FirstTouches(content, starts, spans[i]);
    forall at: nat | LineStart(starts, content, hit.idx) <= at < LineEnd(starts, content, hit.idx)
      ensures Covered(ClipToStartLine(starts, content, spans[..n]), at) <==> CoveredFrom(starts, spans, hit.idx, at)
    {
      if Covered(ClipToStartLine(starts, content, spans[..n]), at) {
        ClippedCoversFrom(starts, content, spans, n, hit.idx, at);
      }
      if CoveredFrom(starts, spans, hit.idx, at) {
        FromIsClippedCover(starts, content, spans, n, i, hit.idx, at);
      }
    }
  }

  lemma FirstTouches(content: seq<scalar>, starts: seq<nat>, s: Span)
    requires Table(starts, content) && starts == LineStarts(content)
    ensures Touches(starts, s, First(starts, s))
  {
    hide LineOf, LineStarts;
    LastAfterFirst(starts, content, s);
  }
}
