/** Line-oriented matching, and the whole-buffer prescan that replaces its line-by-line loop. */
module Prescan {
  import opened Bytes
  import opened Lines
  import opened Spans
  import opened Regexes

  // ---- line-oriented matching ----

  datatype Options = Options(allSpans: bool, maxCount: Option<nat>, stopOnNonmatch: bool)

  function LineText(starts: seq<nat>, content: seq<scalar>, idx: nat): seq<scalar> {
    var ls, le := LineStart(starts, content, idx), LineEnd(starts, content, idx);
    if ls <= le <= |content| then content[ls..le] else []
  }

  /** The match ranges the visitor asks for on one line. */
  function SpansIn(m: Matcher, h: seq<scalar>, allSpans: bool): seq<Span> {
    if allSpans then FindIter(m, h, 0, None)
    else match FindAt(m, h, 0) case None => [] case Some(s) => [s]
  }

  function VisitSpans(m: Matcher, content: seq<scalar>, starts: seq<nat>, opts: Options, idx: nat): seq<Span> {
    SpansIn(m, LineText(starts, content, idx), opts.allSpans)
  }

  predicate Enough(opts: Options, hits: seq<LineHit>) {
    opts.maxCount.Some? && |hits| >= opts.maxCount.value
  }

  /** Visit the given lines in order, on top of the hits found so far. */
  function Collect(m: Matcher, content: seq<scalar>, starts: seq<nat>, opts: Options, lines: seq<nat>,
                   out: seq<LineHit>): seq<LineHit>
    decreases |lines|
  {
    if lines == [] then out
    else
      var spans := VisitSpans(m, content, starts, opts, lines[0]);
      if spans != [] then
        var more := out + [LineHit(lines[0], spans)];
        if Enough(opts, more) then more else Collect(m, content, starts, opts, lines[1..], more)
      else if opts.stopOnNonmatch && out != [] then out
      else Collect(m, content, starts, opts, lines[1..], out)
  }

  function AllLines(n: nat): (lines: seq<nat>)
    ensures |lines| == n && forall i :: 0 <= i < n ==> lines[i] == i
  {
    seq(n, i => i)
  }

  /** What line-by-line matching finds. */
  function LineByLine(m: Matcher, content: seq<scalar>, starts: seq<nat>, opts: Options): seq<LineHit> {
    Collect(m, content, starts, opts, AllLines(|starts|), [])
  }

  // ---- the prescan ----

  function LinesBetween(first: nat, last: nat): seq<nat>
    decreases last + 1 - first
  {
    if first > last then [] else [first] + LinesBetween(first + 1, last)
  }

  /**
   * The lines a match spans; the last one is that of its last character. For a match that ends at 0
   * the offset before its end wraps.
   */
  function LinesOf(starts: seq<nat>, s: Span): seq<nat> {
    LinesBetween(LineOf(starts, s.start), LineOf(starts, if s.end > 0 then s.end - 1 else U64_MAX))
  }

  function FlatLines(starts: seq<nat>, spans: seq<Span>): seq<nat> {
    if spans == [] then [] else LinesOf(starts, spans[0]) + FlatLines(starts, spans[1..])
  }

  /** Drop immediate repetitions. */
  function Fresh(lines: seq<nat>, last: Option<nat>): seq<nat> {
    if lines == [] then []
    else if last == Some(lines[0]) then Fresh(lines[1..], last)
    else [lines[0]] + Fresh(lines[1..], Some(lines[0]))
  }

  /** The lines a whole-buffer scan says could match; `None` checks them all. */
  function CandidateLines(m: Matcher, content: seq<scalar>, starts: seq<nat>, opts: Options): Option<seq<nat>> {
    if opts.stopOnNonmatch || !AnchorFree(m.re) || Matches(m.word, m.re, [], 0, 0) then None
    else Some(Fresh(FlatLines(starts, FindIter(m, content, 0, None)), None))
  }

  // ---- what is found ----

  /** The text of line `idx`, without its terminator. */
  ghost predicate IsText(content: seq<scalar>, starts: seq<nat>, idx: nat, text: seq<scalar>) {
    var ls, le := LineStart(starts, content, idx), LineEnd(starts, content, idx);
    idx < |starts| && ls <= le <= |content| && text == content[ls..le]
  }

  /** The pattern matches somewhere in the text of line `idx`. */
  ghost predicate LineMatches(m: Matcher, content: seq<scalar>, starts: seq<nat>, idx: nat) {
    exists text, i: nat :: IsText(content, starts, idx, text) && MatchesFrom(m.word, m.re, text, i)
  }

  /** A hit lists all matches of its line's text, or just the first when no more are asked for. */
  ghost predicate IsHit(m: Matcher, content: seq<scalar>, starts: seq<nat>, opts: Options, hit: LineHit) {
    exists text ::
      && IsText(content, starts, hit.idx, text) && hit.spans != []
      && if opts.allSpans then AreAllMatches(m, text, hit.spans)
         else |hit.spans| == 1 && IsFirstMatch(m, text, hit.spans[0])
  }

  ghost predicate HasLine(hits: seq<LineHit>, idx: nat) {
    exists k :: 0 <= k < |hits| && hits[k].idx == idx
  }

  /** At the limit; a limit of 0 acts as 1. */
  predicate AtLimit(opts: Options, n: nat) {
    opts.maxCount.Some? && n > 0 && n >= opts.maxCount.value
  }

  /** With `--stop-on-nonmatch` a line without a match ends the search once there is a hit. */
  ghost predicate StoppedBefore(m: Matcher, content: seq<scalar>, starts: seq<nat>, hits: seq<LineHit>, idx: nat) {
    hits != [] && exists j :: hits[|hits| - 1].idx < j < idx && !LineMatches(m, content, starts, j)
  }

  /**
   * The hits of a search: right ones, in ascending order, within the limit, next to each other when the
   * search stops at a line without a match; and a matching line is left out only behind the last hit,
   * because the limit was reached or the search had stopped.
   */
  ghost predicate AreHits(m: Matcher, content: seq<scalar>, starts: seq<nat>, opts: Options, hits: seq<LineHit>) {
    && (forall k :: 0 <= k < |hits| ==> IsHit(m, content, starts, opts, hits[k]))
    && (forall i, j :: 0 <= i < j < |hits| ==> hits[i].idx < hits[j].idx)
    && (|hits| > 0 ==> !AtLimit(opts, |hits| - 1))
    && (opts.stopOnNonmatch ==> forall k :: 0 <= k < |hits| - 1 ==> hits[k + 1].idx == hits[k].idx + 1)
    && (forall idx: nat :: LineMatches(m, content, starts, idx) && !HasLine(hits, idx) ==>
          && (hits != [] ==> hits[|hits| - 1].idx < idx)
          && (AtLimit(opts, |hits|) || (opts.stopOnNonmatch && StoppedBefore(m, content, starts, hits, idx))))
  }

  // ---- when the prescan agrees ----

  /**
   * A line whose text matches, but where all the buffer's matches leave of it is an empty match at
   * its start: the last character of that match is on the line before.
   */
  ghost predicate Skipped(m: Matcher, content: seq<scalar>, starts: seq<nat>, idx: nat) {
    var ls, spans := LineStart(starts, content, idx), FindIter(m, content, 0, None);
    && idx < |starts| && ls <= |content|
    && Matches(m.word, m.re, content, ls, ls) && EndFrom(m, content, ls) == ls
    && (forall i :: ls < i <= |content| && LineOf(starts, i) == idx ==> !MatchesFrom(m.word, m.re, content, i))
    && (forall k :: 0 <= k < |spans| ==> !(spans[k].start < ls < spans[k].end))
  }

  /** How many of the first `n` lines match. */
  function MatchingLines(m: Matcher, content: seq<scalar>, starts: seq<nat>, opts: Options, n: nat): nat {
    |Hitting(m, content, starts, opts, AllLines(n))|
  }

  /** Whether the loop still visits lines after `n` hits. */
  predicate GoesOn(opts: Options, n: nat) {
    opts.maxCount.None? || n == 0 || n < opts.maxCount.value
  }

  /** A skipped line would have been among the hits. */
  ghost predicate LosesLine(m: Matcher, content: seq<scalar>, starts: seq<nat>, opts: Options) {
    exists idx :: Skipped(m, content, starts, idx) && GoesOn(opts, MatchingLines(m, content, starts, opts, idx))
  }

  /**
   * After visiting every line the loop goes on to lines that later matches take in: a matching one,
   * and one before the last, without which the last would only repeat itself.
   */
  ghost predicate VisitsAgain(m: Matcher, content: seq<scalar>, starts: seq<nat>, opts: Options) {
    && GoesOn(opts, MatchingLines(m, content, starts, opts, |starts|))
    && (exists y: nat :: y + 1 < |starts| && Reached(starts, Others(m, content), y))
    && (exists x: nat :: x < |starts| && Reached(starts, Others(m, content), x)
          && VisitSpans(m, content, starts, opts, x) != [])
  }

  /** The prescan applies and finds something else than line-by-line matching. */
  ghost predicate Strays(m: Matcher, content: seq<scalar>, starts: seq<nat>, opts: Options) {
    && CandidateLines(m, content, starts, opts).Some?
    && if EmptyAtStart(m, content) then VisitsAgain(m, content, starts, opts)
       else LosesLine(m, content, starts, opts)
  }

  /**
   * Line-oriented `collect_hits`, through the prescan when it applies. It returns what line-by-line
   * matching finds, except where the prescan strays.
   */
  method CollectHits(m: Matcher, content: seq<scalar>, starts: seq<nat>, opts: Options) returns (out: seq<LineHit>)
    requires starts == LineStarts(content) && |content| <= U64_MAX
    ensures out == LineByLine(m, content, starts, opts) <==> !Strays(m, content, starts, opts)
    ensures !Strays(m, content, starts, opts) ==> AreHits(m, content, starts, opts, out)
    ensures forall k :: 0 <= k < |out| ==> IsHit(m, content, starts, opts, out[k])
  {
    hide CandidateLines, Strays, LineByLine, AreHits, LineStarts, IsHit, AllLines;
    LineByLineFinds(m, content, starts, opts);
    CandidatesAreLines(m, content, starts, opts);
    AllLinesHold(|starts|);
    LineByLineIs(m, content, starts, opts);
    var candidates := CandidateLines(m, content, starts, opts);
    if candidates.Some? {
      out := VisitAll(m, content, starts, opts, candidates.value);
      PrescanAgreesExactly(m, content, starts, opts);
      CollectIsRight(m, content, starts, opts, candidates.value, []);
      return;
    }
    NoPrescanNeverStrays(m, content, starts, opts);
    CollectIsRight(m, content, starts, opts, AllLines(|starts|), []);
    out := VisitAll(m, content, starts, opts, AllLines(|starts|));
  }

  /** The visiting loop. */
  method VisitAll(m: Matcher, content: seq<scalar>, starts: seq<nat>, opts: Options, lines: seq<nat>)
    returns (out: seq<LineHit>)
    ensures out == Collect(m, content, starts, opts, lines, [])
  {
    hide VisitSpans;
    out := [];
    assert lines[0..] == lines;
    for i := 0 to |lines|
      invariant Collect(m, content, starts, opts, lines[i..], out) == Collect(m, content, starts, opts, lines, [])
    {
      assert lines[i..][1..] == lines[i + 1..];
      var spans := VisitSpans(m, content, starts, opts, lines[i]);
      if spans != [] {
        out := out + [LineHit(lines[i], spans)];
        if Enough(opts, out) {
          return;
        }
      } else if opts.stopOnNonmatch && out != [] {
        return;
      }
    }
    assert lines[|lines|..] == [];
  }

  lemma LineIsCleanCut(w: Words, starts: seq<nat>, content: seq<scalar>, idx: nat)
    requires Table(starts, content) && idx < |starts|
    ensures var ls, le := LineStart(starts, content, idx), LineEnd(starts, content, idx);
            CleanCut(w, content, ls, le) && LineText(starts, content, idx) == content[ls..le]
  {
    hide LineEnd;
    LineBounds(starts, content, idx);
  }

  // ---- candidate lines ----

  ghost predicate NonDecreasing(lines: seq<nat>) {
    forall i, j :: 0 <= i < j < |lines| ==> lines[i] <= lines[j]
  }

  ghost predicate Ascending(lines: seq<nat>) {
    forall i, j :: 0 <= i < j < |lines| ==> lines[i] < lines[j]
  }

  lemma {:induction false} LinesBetweenHolds(first: nat, last: nat)
    ensures forall x :: x in LinesBetween(first, last) <==> first <= x <= last
    ensures Ascending(LinesBetween(first, last))
    decreases last + 1 - first
  {
    if first <= last {
      LinesBetweenHolds(first + 1, last);
      PrependAscending(first, LinesBetween(first + 1, last));
    }
  }

  /** The match takes line `idx` in: it starts there or before, and its last character is there or after. */
  ghost predicate Reaches(starts: seq<nat>, s: Span, idx: nat) {
    s.end > 0 && LineOf(starts, s.start) <= idx <= LineOf(starts, s.end - 1)
  }

  lemma LinesOfHolds(starts: seq<nat>, s: Span)
    requires s.end > 0
    ensures forall x :: x in LinesOf(starts, s) <==> Reaches(starts, s, x)
    ensures NonDecreasing(LinesOf(starts, s))
  {
    hide LinesBetween, LineOf;
    LinesBetweenHolds(LineOf(starts, s.start), LineOf(starts, s.end - 1));
  }

  lemma {:induction false} FlatLinesAscend(starts: seq<nat>, content: seq<scalar>, spans: seq<Span>, at: nat)
    requires Table(starts, content) && InOrder(spans, at, |content|)
    ensures forall x :: x in FlatLines(starts, spans) ==> LineOf(starts, at) <= x < |starts|
    ensures NonDecreasing(FlatLines(starts, spans))
  {
    hide LinesOf, LineOf;
    if spans != [] {
      var s, rest := spans[0], spans[1..];
      FlatLinesAscend(starts, content, rest, s.end);
      LineOfFacts(starts, content, at, s.start);
      LineOfFacts(starts, content, s.end - 1, s.end);
      LineOfFacts(starts, content, s.start, s.end);
      LinesOfHolds(starts, s);
      JoinNonDecreasing(LinesOf(starts, s), FlatLines(starts, rest), LineOf(starts, s.end - 1));
    }
  }

  /** Some match among `spans` takes line `idx` in. */
  ghost predicate Reached(starts: seq<nat>, spans: seq<Span>, idx: nat) {
    exists k :: 0 <= k < |spans| && Reaches(starts, spans[k], idx)
  }

  lemma {:induction false} FlatLinesMembers(starts: seq<nat>, spans: seq<Span>)
    requires forall k :: 0 <= k < |spans| ==> spans[k].end > 0
    ensures forall x :: x in FlatLines(starts, spans) <==> Reached(starts, spans, x)
  {
    hide LinesOf, LineOf, Reaches;
    if spans != [] {
      var rest := spans[1..];
      LinesOfHolds(starts, spans[0]);
      FlatLinesMembers(starts, rest);
      forall x
        ensures Reached(starts, spans, x) <==> Reaches(starts, spans[0], x) || Reached(starts, rest, x)
      {
        assert forall k :: 0 < k < |spans| ==> spans[k] == rest[k - 1];
        assert forall k :: 0 <= k < |rest| ==> rest[k] == spans[k + 1];
      }
    }
  }

  lemma JoinNonDecreasing(a: seq<nat>, b: seq<nat>, mid: nat)
    requires NonDecreasing(a) && NonDecreasing(b)
    requires (forall x :: x in a ==> x <= mid) && (forall x :: x in b ==> mid <= x)
    ensures NonDecreasing(a + b)
  {
    assert forall k :: 0 <= k < |a| ==> a[k] in a;
    assert forall k :: 0 <= k < |b| ==> b[k] in b;
  }

  lemma TailMembers(lines: seq<nat>)
    requires lines != [] && NonDecreasing(lines)
    ensures NonDecreasing(lines[1..]) && forall x :: x in lines[1..] ==> lines[0] <= x
    ensures forall x :: x in lines <==> x == lines[0] || x in lines[1..]
  {
    assert lines == [lines[0]] + lines[1..];
    assert forall k :: 0 < k < |lines| ==> lines[0] <= lines[k];
  }

  lemma PrependAscending(head: nat, rest: seq<nat>)
    requires Ascending(rest) && forall x :: x in rest ==> head < x
    ensures Ascending([head] + rest)
  {
    assert forall k :: 0 <= k < |rest| ==> rest[k] in rest;
  }

  lemma FreshStep(lines: seq<nat>, last: Option<nat>)
    ensures Fresh(lines, last)
         == if lines == [] then []
            else if last == Some(lines[0]) then Fresh(lines[1..], last)
            else [lines[0]] + Fresh(lines[1..], Some(lines[0]))
  {
  }

  /** Dropping repetitions from a non-decreasing list leaves its elements, strictly ascending. */
  lemma {:induction false} FreshHolds(lines: seq<nat>, last: Option<nat>)
    requires NonDecreasing(lines) && (last.Some? ==> forall x :: x in lines ==> last.value <= x)
    ensures Ascending(Fresh(lines, last))
    ensures forall x :: x in Fresh(lines, last) <==> x in lines && Some(x) != last
  {
    hide Fresh, NonDecreasing, Ascending;
    FreshStep(lines, last);
    if lines == [] {
      PrependNothing();
    } else {
      var head, tail := lines[0], lines[1..];
      TailMembers(lines);
      if last == Some(head) {
        FreshHolds(tail, last);
      } else {
        FreshHolds(tail, Some(head));
        PrependAscending(head, Fresh(tail, Some(head)));
      }
    }
  }

  lemma PrependNothing()
    ensures Ascending([])
  {
  }

  /** Unless the first match is empty and at offset 0, candidates are the lines taken in, strictly ascending. */
  lemma CandidatesHold(m: Matcher, content: seq<scalar>, starts: seq<nat>, opts: Options)
    requires starts == LineStarts(content) && !EmptyAtStart(m, content)
    requires CandidateLines(m, content, starts, opts).Some?
    ensures var lines := CandidateLines(m, content, starts, opts).value;
            && Ascending(lines)
            && (forall x :: x in lines ==> x < |starts|)
            && (forall x :: x in lines <==> Reached(starts, FindIter(m, content, 0, None), x))
  {
    hide Fresh, FlatLines, FindIter, FindAt, LineStarts, Reached;
    var spans := FindIter(m, content, 0, None);
    FindIterInOrder(m, content, 0, None);
    if content == [] {
      EmptyBuffer(m, starts);
      NothingReached(starts);
    } else {
      LineStartsIsTable(content);
      FlatLinesAscend(starts, content, spans, 0);
      FlatLinesMembers(starts, spans);
      FreshHolds(FlatLines(starts, spans), None);
    }
  }

  lemma EmptyBuffer(m: Matcher, starts: seq<nat>)
    requires starts == LineStarts([]) && !Matches(m.word, m.re, [], 0, 0)
    ensures FindIter(m, [], 0, None) == [] && FlatLines(starts, []) == [] && Fresh([], None) == [] && starts == []
  {
    assert !MatchesFrom(m.word, m.re, [], 0);
    assert FindAt(m, [], 0) == FindAt(m, [], 1);
  }

  lemma NothingReached(starts: seq<nat>)
    ensures forall x :: !Reached(starts, [], x)
  {
  }

  /** A line is visited with a result exactly when the pattern matches somewhere in its text. */
  lemma SpansWhenMatching(m: Matcher, h: seq<scalar>, allSpans: bool)
    ensures SpansIn(m, h, allSpans) != [] <==> FindAt(m, h, 0).Some?
  {
    hide FindAt;
  }

  /** Where a line matches, the pattern matches in the buffer, at an offset of that line. */
  lemma MatchInBuffer(m: Matcher, content: seq<scalar>, starts: seq<nat>, opts: Options, idx: nat) returns (i: nat)
    requires Table(starts, content) && idx < |starts| && AnchorFree(m.re)
    requires VisitSpans(m, content, starts, opts, idx) != []
    ensures LineStart(starts, content, idx) <= i <= LineEnd(starts, content, idx) <= |content|
    ensures MatchesFrom(m.word, m.re, content, i)
  {
    hide FindAt, FindIter, LineEnd, LineOf, Matches, SpansIn;
    var ls, le := LineStart(starts, content, idx), LineEnd(starts, content, idx);
    var line := LineText(starts, content, idx);
    LineIsCleanCut(m.word, starts, content, idx);
    SpansWhenMatching(m, line, opts.allSpans);
    var s := FindAt(m, line, 0).value;
    CutKeepsMatches(m.word, m.re, content, ls, le, s.start, s.end);
    i := ls + s.start;
  }

  /** Past the start of a line, a match there takes the line in. */
  lemma TouchedLineIsReached(starts: seq<nat>, content: seq<scalar>, s: Span, idx: nat, i: nat)
    requires Table(starts, content) && idx < |starts| && s.start <= i <= s.end
    requires LineStart(starts, content, idx) <= i && LineOf(starts, i) == idx
    requires i < s.end || LineStart(starts, content, idx) < i
    ensures Reaches(starts, s, idx)
  {
    hide LineOf;
    LineOfFacts(starts, content, s.start, i);
    if i < s.end {
      LineOfFacts(starts, content, i, s.end - 1);
    } else {
      LineOfFrom(starts, content, idx, i - 1);
    }
  }

  /** An offset is on line `idx` or a later one exactly when it is not before that line. */
  lemma LineOfFrom(starts: seq<nat>, content: seq<scalar>, idx: nat, i: nat)
    requires Table(starts, content) && idx < |starts|
    ensures LineOf(starts, i) >= idx <==> LineStart(starts, content, idx) <= i
  {
    hide LineOf;
    var at := LineOf(starts, i);
    assert starts[at] <= i;
  }

  /** The end of the text of a line still counts as on it. */
  lemma LineOfText(starts: seq<nat>, content: seq<scalar>, idx: nat, i: nat)
    requires Table(starts, content) && idx < |starts|
    requires LineStart(starts, content, idx) <= i <= LineEnd(starts, content, idx)
    ensures LineOf(starts, i) == idx
  {
    hide LineOf, LineEnd;
    LineBounds(starts, content, idx);
    LineOfFacts(starts, content, i, i);
  }

  /** Wherever the pattern matches past the start of a line, some enumerated match takes the line in. */
  lemma MatchPastStart(m: Matcher, content: seq<scalar>, starts: seq<nat>, idx: nat, i: nat)
    requires Table(starts, content) && idx < |starts| && i <= |content|
    requires LineStart(starts, content, idx) < i && LineOf(starts, i) == idx && MatchesFrom(m.word, m.re, content, i)
    ensures Reached(starts, FindIter(m, content, 0, None), idx)
  {
    hide FindAt, FindIter, Matches, Reaches, EndFrom, LineOf;
    var spans := FindIter(m, content, 0, None);
    FindIterCovers(m, content, 0, None, i);
    FindIterPicks(m, content, 0, None);
    var k :| 0 <= k < |spans| && (spans[k].start <= i < spans[k].end || spans[k].end == i);
    PickIsForward(m, content, spans[k].start);
    TouchedLineIsReached(starts, content, spans[k], idx, i);
  }

  lemma PickIsForward(m: Matcher, h: seq<scalar>, i: nat)
    requires MatchesFrom(m.word, m.re, h, i)
    ensures i <= EndFrom(m, h, i) <= |h| && Matches(m.word, m.re, h, i, EndFrom(m, h, i))
  {
  }

  /** A matching line that no enumerated match takes in is a skipped one. */
  lemma UnreachedIsSkipped(m: Matcher, content: seq<scalar>, starts: seq<nat>, opts: Options, idx: nat)
    requires Table(starts, content) && idx < |starts| && AnchorFree(m.re)
    requires VisitSpans(m, content, starts, opts, idx) != []
    requires !Reached(starts, FindIter(m, content, 0, None), idx)
    ensures Skipped(m, content, starts, idx)
  {
    hide FindAt, FindIter, LineEnd, Matches, VisitSpans, Reaches, EndFrom, LineOf, MatchesFrom;
    var ls, spans := LineStart(starts, content, idx), FindIter(m, content, 0, None);
    var i := MatchInBuffer(m, content, starts, opts, idx);
    LineOfText(starts, content, idx, i);
    LineOfText(starts, content, idx, ls);
    if i > ls {
      MatchPastStart(m, content, starts, idx, i);
    }
    FindIterCovers(m, content, 0, None, ls);
    PickIsForward(m, content, ls);
    forall k | 0 <= k < |spans|
      ensures !(spans[k].start <= ls < spans[k].end)
    {
      if spans[k].start <= ls < spans[k].end {
        TouchedLineIsReached(starts, content, spans[k], idx, ls);
      }
    }
    forall i | ls < i <= |content| && LineOf(starts, i) == idx
      ensures !MatchesFrom(m.word, m.re, content, i)
    {
      if MatchesFrom(m.word, m.re, content, i) {
        MatchPastStart(m, content, starts, idx, i);
      }
    }
  }

  /** A match picked at its start and not across the start of a skipped line does not take that line in. */
  lemma MissesSkipped(m: Matcher, content: seq<scalar>, starts: seq<nat>, idx: nat, s: Span)
    requires Table(starts, content) && Skipped(m, content, starts, idx)
    requires MatchesFrom(m.word, m.re, content, s.start) && s.end == EndFrom(m, content, s.start)
    requires var ls := LineStart(starts, content, idx); !(s.start < ls < s.end)
    ensures !Reaches(starts, s, idx)
  {
    hide FindIter, Matches, EndFrom, LineOf;
    if Reaches(starts, s, idx) {
      LineOfFrom(starts, content, idx, s.end - 1);
      LineOfFrom(starts, content, idx, s.start);
      PickIsForward(m, content, s.start);
    }
  }

  /** A skipped line matches, and no enumerated match takes it in. */
  lemma SkippedIsUnreached(m: Matcher, content: seq<scalar>, starts: seq<nat>, opts: Options, idx: nat)
    requires Table(starts, content) && AnchorFree(m.re) && Skipped(m, content, starts, idx)
    ensures VisitSpans(m, content, starts, opts, idx) != []
    ensures !Reached(starts, FindIter(m, content, 0, None), idx)
  {
    hide FindAt, FindIter, Matches, VisitSpans, EndFrom, LineOf, MatchesFrom, Reaches;
    var spans := FindIter(m, content, 0, None);
    EmptyMatchHits(m, content, starts, opts, idx);
    FindIterPicks(m, content, 0, None);
    forall k | 0 <= k < |spans|
      ensures !Reaches(starts, spans[k], idx)
    {
      assert spans[k] in spans;
      MissesSkipped(m, content, starts, idx, spans[k]);
    }
  }

  lemma CutIsOrdered(w: Words, h: seq<scalar>, lo: nat, hi: nat)
    requires CleanCut(w, h, lo, hi)
    ensures lo <= hi <= |h|
  {
  }

  /** An empty match at the start of a line is a match of its text. */
  lemma EmptyMatchHits(m: Matcher, content: seq<scalar>, starts: seq<nat>, opts: Options, idx: nat)
    requires Table(starts, content) && AnchorFree(m.re) && idx < |starts|
    requires var ls := LineStart(starts, content, idx); ls <= |content| && Matches(m.word, m.re, content, ls, ls)
    ensures VisitSpans(m, content, starts, opts, idx) != []
  {
    hide FindAt, LineStart, LineEnd, LineText, Matches, SpansIn, CleanCut;
    var line := LineText(starts, content, idx);
    LineIsCleanCut(m.word, starts, content, idx);
    CutIsOrdered(m.word, content, LineStart(starts, content, idx), LineEnd(starts, content, idx));
    CutKeepsMatches(m.word, m.re, content, LineStart(starts, content, idx), LineEnd(starts, content, idx), 0, 0);
    assert MatchesFrom(m.word, m.re, line, 0);
    SpansWhenMatching(m, line, opts.allSpans);
  }

  /** A matching line is either skipped or taken in by an enumerated match, never both. */
  lemma SkippedExactly(m: Matcher, content: seq<scalar>, starts: seq<nat>, opts: Options, idx: nat)
    requires Table(starts, content) && AnchorFree(m.re) && idx < |starts|
    ensures Skipped(m, content, starts, idx)
       <==> VisitSpans(m, content, starts, opts, idx) != [] && !Reached(starts, FindIter(m, content, 0, None), idx)
  {
    hide Skipped, VisitSpans, Reached, FindIter;
    if Skipped(m, content, starts, idx) {
      SkippedIsUnreached(m, content, starts, opts, idx);
    } else if VisitSpans(m, content, starts, opts, idx) != [] && !Reached(starts, FindIter(m, content, 0, None), idx) {
      UnreachedIsSkipped(m, content, starts, opts, idx);
    }
  }

  /**
   * Past the guard, a skipped line starts with a word, and the pattern matches emptily before a word
   * but not after one.
   */
  lemma SkippedStartsWord(m: Matcher, content: seq<scalar>, starts: seq<nat>, idx: nat)
    requires Table(starts, content) && AnchorFree(m.re) && !Matches(m.word, m.re, [], 0, 0)
    requires Skipped(m, content, starts, idx)
    ensures WordAt(m.word, content, LineStart(starts, content, idx))
    ensures var c := content[LineStart(starts, content, idx)];
            m.word(c) && Matches(m.word, m.re, [c], 0, 0) && !Matches(m.word, m.re, [c], 1, 1)
  {
    hide LineEnd, Matches, LineOf, FindIter, EndFrom;
    var ls := LineStart(starts, content, idx);
    LineBounds(starts, content, idx);
    GuardLeavesBoundaries(m.word, m.re, content, ls);
    EmptyMatchSeesWords(m.word, m.re, content, ls, [content[ls]], 0);
    var p := WordEnds(m.word, content, ls);
    assert LineEnd(starts, content, idx) < p ==> WordAt(m.word, content, LineEnd(starts, content, idx));
    LineOfText(starts, content, idx, p);
    EmptyMatchSeesWords(m.word, m.re, content, p, [content[ls]], 1);
    assert !MatchesFrom(m.word, m.re, content, p);
  }

  // ---- agreement ----

  /** The lines with a result, in order. */
  function Hitting(m: Matcher, content: seq<scalar>, starts: seq<nat>, opts: Options, lines: seq<nat>): seq<nat> {
    if lines == [] then []
    else (if VisitSpans(m, content, starts, opts, lines[0]) != [] then [lines[0]] else [])
         + Hitting(m, content, starts, opts, lines[1..])
  }

  lemma {:induction false} HittingHolds(m: Matcher, content: seq<scalar>, starts: seq<nat>, opts: Options,
                                        lines: seq<nat>)
    requires Ascending(lines)
    ensures Ascending(Hitting(m, content, starts, opts, lines))
    ensures forall x :: x in Hitting(m, content, starts, opts, lines)
                   <==> x in lines && VisitSpans(m, content, starts, opts, x) != []
  {
    hide VisitSpans;
    if lines != [] {
      var head, tail := lines[0], lines[1..];
      assert lines == [head] + tail;
      HittingHolds(m, content, starts, opts, tail);
      var rest := Hitting(m, content, starts, opts, tail);
      forall k | 0 <= k < |rest|
        ensures head < rest[k]
      {
        assert rest[k] in rest;
        var q :| 0 <= q < |tail| && tail[q] == rest[k];
        assert lines[q + 1] == rest[k];
      }
    }
  }

  lemma {:induction false} HittingJoin(m: Matcher, content: seq<scalar>, starts: seq<nat>, opts: Options,
                                       a: seq<nat>, b: seq<nat>)
    ensures Hitting(m, content, starts, opts, a + b)
         == Hitting(m, content, starts, opts, a) + Hitting(m, content, starts, opts, b)
  {
    hide VisitSpans;
    if a == [] {
      assert a + b == b;
    } else {
      assert (a + b)[1..] == a[1..] + b;
      HittingJoin(m, content, starts, opts, a[1..], b);
    }
  }

  /** How many more hits fit after `n`; the loop counts only after a hit, so a limit of 0 acts as 1. */
  function Room(opts: Options, n: nat): Option<nat> {
    if opts.maxCount.None? then None else Some(Max(opts.maxCount.value - n, 1))
  }

  function Take(lines: seq<nat>, room: Option<nat>): seq<nat> {
    if room.None? || |lines| <= room.value then lines else lines[..room.value]
  }

  function AsHits(m: Matcher, content: seq<scalar>, starts: seq<nat>, opts: Options, lines: seq<nat>)
    : (hits: seq<LineHit>)
    ensures |hits| == |lines|
    ensures forall k :: 0 <= k < |lines| ==>
              hits[k] == LineHit(lines[k], VisitSpans(m, content, starts, opts, lines[k]))
  {
    seq(|lines|, k requires 0 <= k < |lines| => LineHit(lines[k], VisitSpans(m, content, starts, opts, lines[k])))
  }

  lemma AsHitsUnique(m: Matcher, content: seq<scalar>, starts: seq<nat>, opts: Options, a: seq<nat>, b: seq<nat>)
    requires AsHits(m, content, starts, opts, a) == AsHits(m, content, starts, opts, b)
    ensures a == b
  {
    hide VisitSpans;
    var hits := AsHits(m, content, starts, opts, a);
    assert |a| == |hits| == |b|;
    forall k | 0 <= k < |a|
      ensures a[k] == b[k]
    {
      assert hits[k].idx == a[k];
    }
  }

  /** The loop finds the matching lines among those it visits, up to the limit. */
  lemma {:induction false} CollectTakes(m: Matcher, content: seq<scalar>, starts: seq<nat>, opts: Options,
                                        lines: seq<nat>, out: seq<LineHit>)
    requires !opts.stopOnNonmatch && GoesOn(opts, |out|)
    ensures Collect(m, content, starts, opts, lines, out)
         == out + AsHits(m, content, starts, opts, Take(Hitting(m, content, starts, opts, lines), Room(opts, |out|)))
    decreases |lines|
  {
    hide VisitSpans, Hitting, AsHits, Take;
    HittingStep(m, content, starts, opts, lines);
    if lines == [] {
      TakeNone(m, content, starts, opts, Room(opts, |out|));
    } else {
      var spans := VisitSpans(m, content, starts, opts, lines[0]);
      var tail := Hitting(m, content, starts, opts, lines[1..]);
      if spans == [] {
        CollectTakes(m, content, starts, opts, lines[1..], out);
      } else {
        var more := out + [LineHit(lines[0], spans)];
        TakeOne(m, content, starts, opts, lines[0], tail, Room(opts, |out|));
        if Enough(opts, more) {
          assert AsHits(m, content, starts, opts, []) == [];
        } else {
          CollectTakes(m, content, starts, opts, lines[1..], more);
        }
      }
    }
  }

  lemma HittingStep(m: Matcher, content: seq<scalar>, starts: seq<nat>, opts: Options, lines: seq<nat>)
    ensures Hitting(m, content, starts, opts, lines)
         == if lines == [] then []
            else
              var rest := Hitting(m, content, starts, opts, lines[1..]);
              if VisitSpans(m, content, starts, opts, lines[0]) == [] then rest else [lines[0]] + rest
  {
    hide VisitSpans;
  }

  lemma TakeNone(m: Matcher, content: seq<scalar>, starts: seq<nat>, opts: Options, room: Option<nat>)
    ensures AsHits(m, content, starts, opts, Take([], room)) == []
  {
  }

  lemma TakeOne(m: Matcher, content: seq<scalar>, starts: seq<nat>, opts: Options, head: nat, tail: seq<nat>,
                room: Option<nat>)
    requires room.Some? ==> room.value > 0
    ensures var rest := match room
              case None => Take(tail, None)
              case Some(n) => if n == 1 then [] else Take(tail, Some(n - 1));
            AsHits(m, content, starts, opts, Take([head] + tail, room))
            == [LineHit(head, VisitSpans(m, content, starts, opts, head))] + AsHits(m, content, starts, opts, rest)
  {
    hide VisitSpans;
    var rest := match room
      case None => Take(tail, None)
      case Some(n) => if n == 1 then [] else Take(tail, Some(n - 1));
    assert Take([head] + tail, room) == [head] + rest;
  }

  lemma BothEmpty(a: seq<nat>, b: seq<nat>)
    requires forall x :: x in a <==> x in b
    ensures a == [] <==> b == []
  {
    if a != [] {
      assert a[0] in b;
    }
    if b != [] {
      assert b[0] in a;
    }
  }

  /** An ascending list is determined by its elements. */
  lemma {:induction false} AscendingUnique(a: seq<nat>, b: seq<nat>)
    requires Ascending(a) && Ascending(b) && forall x :: x in a <==> x in b
    ensures a == b
  {
    BothEmpty(a, b);
    if a != [] {
      assert a[0] in a;
      AscendingHead(a);
      AscendingHead(b);
      assert b[0] in b;
      AscendingUnique(a[1..], b[1..]);
    }
  }

  /** The head is the least element, and only the head. */
  lemma AscendingHead(a: seq<nat>)
    requires a != [] && Ascending(a)
    ensures Ascending(a[1..])
    ensures forall x :: x in a ==> a[0] <= x
    ensures forall x :: x in a[1..] <==> x in a && x != a[0]
  {
    assert a == [a[0]] + a[1..];
    assert forall k :: 0 < k < |a| ==> a[0] < a[k];
  }

  lemma PrescanNeverStops(m: Matcher, content: seq<scalar>, starts: seq<nat>, opts: Options)
    requires CandidateLines(m, content, starts, opts).Some?
    ensures !opts.stopOnNonmatch
  {
  }

  lemma AllLinesHold(n: nat)
    ensures Ascending(AllLines(n)) && forall x: nat :: x in AllLines(n) <==> x < n
  {
    var all := AllLines(n);
    forall x: nat
      ensures x in all <==> x < n
    {
      if x < n {
        assert all[x] == x;
      }
    }
  }

  /** Two ascending lists agree as far as one holds the elements of the other. */
  lemma {:induction false} AscendingPrefix(a: seq<nat>, b: seq<nat>, n: nat)
    requires Ascending(a) && Ascending(b) && (forall x :: x in a ==> x in b)
    requires n <= |b| && forall j :: 0 <= j < n ==> b[j] in a
    ensures n <= |a| && a[..n] == b[..n]
  {
    if n > 0 {
      assert b[0] in a;
      AscendingHead(a);
      AscendingHead(b);
      assert a[0] in a && a[0] in b;
      forall j | 0 <= j < n - 1
        ensures b[1..][j] in a[1..]
      {
        assert b[j + 1] in b[1..];
      }
      AscendingPrefix(a[1..], b[1..], n - 1);
      assert a[..n] == [a[0]] + a[1..][..n - 1] && b[..n] == [b[0]] + b[1..][..n - 1];
    }
  }

  predicate Within(room: Option<nat>, j: nat) {
    room.None? || j < room.value
  }

  /** A part of an ascending list gives the same first elements if and only if none of those is left out. */
  lemma TakeSame(part: seq<nat>, whole: seq<nat>, room: Option<nat>)
    requires Ascending(part) && Ascending(whole) && (forall x :: x in part ==> x in whole)
    ensures Take(part, room) == Take(whole, room)
       <==> forall j :: 0 <= j < |whole| && Within(room, j) ==> whole[j] in part
  {
    if Take(part, room) == Take(whole, room) {
      forall j | 0 <= j < |whole| && Within(room, j)
        ensures whole[j] in part
      {
        assert Take(whole, room)[j] == whole[j];
      }
    } else if forall j :: 0 <= j < |whole| && Within(room, j) ==> whole[j] in part {
      var n := if room.Some? && room.value < |whole| then room.value else |whole|;
      AscendingPrefix(part, whole, n);
      if n == |whole| {
        assert whole[..n] == whole;
        AscendingUnique(part, whole);
      }
      assert false;
    }
  }

  /** A matching line comes among the hits after the matching lines before it. */
  lemma LineInHits(m: Matcher, content: seq<scalar>, starts: seq<nat>, opts: Options, n: nat, idx: nat)
    requires idx < n && VisitSpans(m, content, starts, opts, idx) != []
    ensures var hitting := Hitting(m, content, starts, opts, AllLines(n));
            var before := MatchingLines(m, content, starts, opts, idx);
            before < |hitting| && hitting[before] == idx
  {
    hide VisitSpans, Hitting;
    var rest := AllLines(n)[idx..];
    assert AllLines(n) == AllLines(idx) + rest;
    HittingJoin(m, content, starts, opts, AllLines(idx), rest);
    HittingStep(m, content, starts, opts, rest);
    assert rest[0] == idx;
  }

  /** What the visiting loop finds on the candidate lines. */
  function PrescanHits(m: Matcher, content: seq<scalar>, starts: seq<nat>, opts: Options): seq<LineHit>
    requires CandidateLines(m, content, starts, opts).Some?
  {
    Collect(m, content, starts, opts, CandidateLines(m, content, starts, opts).value, [])
  }

  /** Two lists of lines give the same hits exactly when their first matching lines are the same. */
  lemma SameHits(m: Matcher, content: seq<scalar>, starts: seq<nat>, opts: Options, a: seq<nat>, b: seq<nat>)
    requires !opts.stopOnNonmatch
    ensures Collect(m, content, starts, opts, a, []) == Collect(m, content, starts, opts, b, [])
       <==> Take(Hitting(m, content, starts, opts, a), Room(opts, 0))
            == Take(Hitting(m, content, starts, opts, b), Room(opts, 0))
  {
    hide Collect, Hitting, VisitSpans, AsHits, Take;
    var p := Take(Hitting(m, content, starts, opts, a), Room(opts, 0));
    var q := Take(Hitting(m, content, starts, opts, b), Room(opts, 0));
    CollectTakes(m, content, starts, opts, a, []);
    CollectTakes(m, content, starts, opts, b, []);
    assert [] + AsHits(m, content, starts, opts, p) == AsHits(m, content, starts, opts, p);
    assert [] + AsHits(m, content, starts, opts, q) == AsHits(m, content, starts, opts, q);
    if AsHits(m, content, starts, opts, p) == AsHits(m, content, starts, opts, q) {
      AsHitsUnique(m, content, starts, opts, p, q);
    }
  }

  /** The lines the prescan finds in are the matching ones that are not skipped. */
  lemma PrescanHitting(m: Matcher, content: seq<scalar>, starts: seq<nat>, opts: Options)
    requires starts == LineStarts(content) && !EmptyAtStart(m, content)
    requires CandidateLines(m, content, starts, opts).Some?
    ensures var part := Hitting(m, content, starts, opts, CandidateLines(m, content, starts, opts).value);
            var whole := Hitting(m, content, starts, opts, AllLines(|starts|));
            && Ascending(part) && Ascending(whole) && (forall x :: x in part ==> x in whole)
            && (forall x :: x in whole ==> (x in part <==> !Skipped(m, content, starts, x)))
            && (forall x :: Skipped(m, content, starts, x) ==> x in whole)
  {
    hide Hitting, VisitSpans, LineStarts, AllLines, Ascending, EmptyAtStart, Skipped, Reached;
    hide Fresh, FlatLines, FindIter;
    var lines := CandidateLines(m, content, starts, opts).value;
    CandidatesHold(m, content, starts, opts);
    AllLinesHold(|starts|);
    HittingHolds(m, content, starts, opts, lines);
    HittingHolds(m, content, starts, opts, AllLines(|starts|));
    forall x: nat
      ensures Skipped(m, content, starts, x)
         <==> x < |starts| && VisitSpans(m, content, starts, opts, x) != [] && x !in lines
    {
      SkippedInTable(m, content, starts, x);
      if x < |starts| {
        NonEmptyContent(content);
        LineStartsIsTable(content);
        SkippedExactly(m, content, starts, opts, x);
      }
    }
  }

  lemma SkippedInTable(m: Matcher, content: seq<scalar>, starts: seq<nat>, idx: nat)
    ensures Skipped(m, content, starts, idx) ==> idx < |starts|
  {
  }

  lemma NonEmptyContent(content: seq<scalar>)
    ensures content == [] ==> LineStarts(content) == []
  {
  }

  /** A prescan that does not start with an empty match at offset 0 strays exactly when it loses a line. */
  lemma PrescanLoses(m: Matcher, content: seq<scalar>, starts: seq<nat>, opts: Options)
    requires starts == LineStarts(content) && !EmptyAtStart(m, content)
    requires CandidateLines(m, content, starts, opts).Some?
    ensures PrescanHits(m, content, starts, opts) == LineByLine(m, content, starts, opts)
       <==> !LosesLine(m, content, starts, opts)
  {
    hide Hitting, CandidateLines, VisitSpans, LineStarts, Collect, AllLines, Ascending, EmptyAtStart, Skipped;
    hide Take, MatchingLines;
    var lines, all := CandidateLines(m, content, starts, opts).value, AllLines(|starts|);
    var part, whole := Hitting(m, content, starts, opts, lines), Hitting(m, content, starts, opts, all);
    PrescanNeverStops(m, content, starts, opts);
    PrescanHitting(m, content, starts, opts);
    SameHits(m, content, starts, opts, lines, all);
    TakeSame(part, whole, Room(opts, 0));
    forall x | x in whole
      ensures var before := MatchingLines(m, content, starts, opts, x);
              before < |whole| && whole[before] == x && (GoesOn(opts, before) <==> Within(Room(opts, 0), before))
    {
      HitsAreLines(m, content, starts, opts, x);
      LineInHits(m, content, starts, opts, |starts|, x);
    }
    if j :| 0 <= j < |whole| && Within(Room(opts, 0), j) && whole[j] !in part {
      OnePlace(whole, j, MatchingLines(m, content, starts, opts, whole[j]));
      assert Skipped(m, content, starts, whole[j]);
    }
  }

  lemma OnePlace(lines: seq<nat>, i: nat, j: nat)
    requires Ascending(lines) && i < |lines| && j < |lines| && lines[i] == lines[j]
    ensures i == j
  {
  }

  lemma HitsAreLines(m: Matcher, content: seq<scalar>, starts: seq<nat>, opts: Options, x: nat)
    requires x in Hitting(m, content, starts, opts, AllLines(|starts|))
    ensures x < |starts| && VisitSpans(m, content, starts, opts, x) != []
  {
    hide Hitting, VisitSpans, AllLines;
    AllLinesHold(|starts|);
    HittingHolds(m, content, starts, opts, AllLines(|starts|));
  }

  /** The first `n` lines without those skipped. */
  ghost function Unskipped(m: Matcher, content: seq<scalar>, starts: seq<nat>, n: nat): seq<nat> {
    if n == 0 then []
    else Unskipped(m, content, starts, n - 1) + if Skipped(m, content, starts, n - 1) then [] else [n - 1]
  }

  lemma {:induction false} UnskippedHolds(m: Matcher, content: seq<scalar>, starts: seq<nat>, n: nat)
    ensures Ascending(Unskipped(m, content, starts, n))
    ensures forall x: nat :: x in Unskipped(m, content, starts, n) <==> x < n && !Skipped(m, content, starts, x)
  {
    hide Skipped;
    if n > 0 {
      UnskippedHolds(m, content, starts, n - 1);
      var init := Unskipped(m, content, starts, n - 1);
      assert forall k :: 0 <= k < |init| ==> init[k] in init;
    }
  }

  /** Whatever it loses, all else the prescan finds as matching line by line would, the skipped lines left out. */
  lemma PrescanFindsTheRest(m: Matcher, content: seq<scalar>, starts: seq<nat>, opts: Options)
    requires starts == LineStarts(content) && !EmptyAtStart(m, content)
    requires CandidateLines(m, content, starts, opts).Some?
    ensures PrescanHits(m, content, starts, opts)
         == Collect(m, content, starts, opts, Unskipped(m, content, starts, |starts|), [])
  {
    hide Hitting, CandidateLines, VisitSpans, LineStarts, Collect, AllLines, Ascending, EmptyAtStart, Skipped;
    var lines, rest := CandidateLines(m, content, starts, opts).value, Unskipped(m, content, starts, |starts|);
    var part, whole := Hitting(m, content, starts, opts, lines), Hitting(m, content, starts, opts, AllLines(|starts|));
    PrescanNeverStops(m, content, starts, opts);
    PrescanHitting(m, content, starts, opts);
    AllLinesHold(|starts|);
    HittingHolds(m, content, starts, opts, AllLines(|starts|));
    UnskippedHolds(m, content, starts, |starts|);
    HittingHolds(m, content, starts, opts, rest);
    AscendingUnique(part, Hitting(m, content, starts, opts, rest));
    SameHits(m, content, starts, opts, lines, rest);
  }

  /** No line is skipped, nor any visited again, when no match is empty. */
  lemma PrescanAgreesOnNonEmptyMatches(m: Matcher, content: seq<scalar>, starts: seq<nat>, opts: Options)
    requires starts == LineStarts(content) && NonEmptyMatches(m.word, m.re, content)
    requires CandidateLines(m, content, starts, opts).Some?
    ensures PrescanHits(m, content, starts, opts) == LineByLine(m, content, starts, opts)
  {
    hide FindAt, FindIter, CandidateLines, PrescanHits, LineByLine, LineStarts;
    PrescanLoses(m, content, starts, opts);
  }

  // ---- a prescan that wraps at the start of the buffer ----

  /** A run of fresh lines passes the filter whole. */
  lemma {:induction false} FreshJoin(a: seq<nat>, b: seq<nat>, last: Option<nat>)
    requires a != [] && Ascending(a) && last != Some(a[0])
    ensures Fresh(a + b, last) == a + Fresh(b, Some(a[|a| - 1]))
    decreases |a|
  {
    var tail := a[1..];
    assert (a + b)[1..] == tail + b;
    if tail == [] {
      assert tail + b == b && a == [a[0]];
    } else {
      AscendingHead(a);
      FreshJoin(tail, b, Some(a[0]));
      assert [a[0]] + (tail + Fresh(b, Some(a[|a| - 1]))) == a + Fresh(b, Some(a[|a| - 1]));
    }
  }

  /** An empty match at offset 0 makes every line a candidate. */
  lemma WrappedLines(starts: seq<nat>, content: seq<scalar>)
    requires Table(starts, content) && |content| <= U64_MAX
    ensures LinesOf(starts, Span(0, 0)) == AllLines(|starts|)
  {
    hide LinesBetween, LineOf, AllLines, Ascending;
    LinesBetweenHolds(0, |starts| - 1);
    AllLinesHold(|starts|);
    LineOfEnds(starts, content);
    AscendingUnique(LinesBetween(0, |starts| - 1), AllLines(|starts|));
  }

  lemma LineOfEnds(starts: seq<nat>, content: seq<scalar>)
    requires Table(starts, content) && |content| <= U64_MAX
    ensures LineOf(starts, 0) == 0 && LineOf(starts, U64_MAX) == |starts| - 1
  {
    hide LineOf;
    assert starts[|starts| - 1] <= U64_MAX;
  }

  /** When the first match is empty and at offset 0, all lines are visited, then more. */
  lemma WrappedCandidates(m: Matcher, content: seq<scalar>, starts: seq<nat>, opts: Options)
    requires Table(starts, content) && |content| <= U64_MAX && EmptyAtStart(m, content)
    requires CandidateLines(m, content, starts, opts).Some?
    ensures CandidateLines(m, content, starts, opts).value
         == AllLines(|starts|) + Fresh(FlatLines(starts, Others(m, content)), Some(|starts| - 1))
  {
    hide Fresh, LinesOf, Others, EmptyAtStart, FindIter, Matches, FlatLines, AllLines, Ascending, CandidateLines;
    var others := Others(m, content);
    FindIterFromEmpty(m, content);
    CandidatesAre(m, content, starts, opts);
    FlatLinesHead(starts, Span(0, 0), others);
    WrappedLines(starts, content);
    AllLinesHold(|starts|);
    FreshJoin(AllLines(|starts|), FlatLines(starts, others), None);
  }

  lemma CandidatesAre(m: Matcher, content: seq<scalar>, starts: seq<nat>, opts: Options)
    requires CandidateLines(m, content, starts, opts).Some?
    ensures CandidateLines(m, content, starts, opts).value
         == Fresh(FlatLines(starts, FindIter(m, content, 0, None)), None)
  {
  }

  lemma FlatLinesHead(starts: seq<nat>, s: Span, rest: seq<Span>)
    ensures FlatLines(starts, [s] + rest) == LinesOf(starts, s) + FlatLines(starts, rest)
  {
    hide LinesOf;
    assert ([s] + rest)[1..] == rest;
  }

  /** After the greatest line, a non-decreasing list passes whole or, if it only repeats it, not at all. */
  lemma FreshAfterLast(lines: seq<nat>, last: nat)
    requires NonDecreasing(lines) && forall x :: x in lines ==> x <= last
    ensures forall x :: x in Fresh(lines, Some(last)) <==> x in lines && exists y :: y in lines && y < last
  {
    hide Fresh, NonDecreasing;
    FreshStep(lines, Some(last));
    if lines != [] {
      TailMembers(lines);
      if lines[0] == last {
        FreshHolds(lines, Some(last));
      } else {
        FreshHolds(lines[1..], Some(lines[0]));
        assert lines[0] in lines && lines[0] < last;
      }
    }
  }

  lemma TakeMore(a: seq<nat>, b: seq<nat>, room: Option<nat>)
    ensures Take(a + b, room) == Take(a, room) <==> b == [] || !Within(room, |a|)
  {
    if b != [] && !Within(room, |a|) {
      assert (a + b)[..room.value] == a[..room.value];
    } else if b == [] {
      assert a + b == a;
    }
  }

  /** A wrapped prescan strays exactly when it visits lines again. */
  lemma WrappedPrescan(m: Matcher, content: seq<scalar>, starts: seq<nat>, opts: Options)
    requires Table(starts, content) && |content| <= U64_MAX && EmptyAtStart(m, content)
    requires CandidateLines(m, content, starts, opts).Some?
    ensures PrescanHits(m, content, starts, opts) == LineByLine(m, content, starts, opts)
       <==> !VisitsAgain(m, content, starts, opts)
  {
    hide Fresh, FlatLines, Others, EmptyAtStart, VisitSpans, FindIter, Matches, CandidateLines, Collect, Hitting, Take;
    hide AllLines, Reached, NonDecreasing;
    var all := AllLines(|starts|);
    var lines := FlatLines(starts, Others(m, content));
    var again := Fresh(lines, Some(|starts| - 1));
    var hits, more := Hitting(m, content, starts, opts, all), Hitting(m, content, starts, opts, again);
    PrescanNeverStops(m, content, starts, opts);
    WrappedCandidates(m, content, starts, opts);
    SameHits(m, content, starts, opts, all + again, all);
    HittingJoin(m, content, starts, opts, all, again);
    TakeMore(hits, more, Room(opts, 0));
    FirstLineHits(m, content, starts, opts);
    if Within(Room(opts, 0), |hits|) {
      MatchingAgain(m, content, starts, opts);
    }
    assert GoesOn(opts, |hits|) <==> Within(Room(opts, 0), |hits|);
  }

  /** What comes after all lines holds a matching line exactly when `VisitsAgain` says so. */
  lemma MatchingAgain(m: Matcher, content: seq<scalar>, starts: seq<nat>, opts: Options)
    requires Table(starts, content) && EmptyAtStart(m, content)
    requires GoesOn(opts, MatchingLines(m, content, starts, opts, |starts|))
    ensures var again := Fresh(FlatLines(starts, Others(m, content)), Some(|starts| - 1));
            Hitting(m, content, starts, opts, again) != [] <==> VisitsAgain(m, content, starts, opts)
  {
    hide Fresh, FlatLines, Others, EmptyAtStart, VisitSpans, Hitting, MatchingLines, Reached, NonDecreasing;
    var lines := FlatLines(starts, Others(m, content));
    var again := Fresh(lines, Some(|starts| - 1));
    LinesAgain(m, content, starts);
    HittingMembers(m, content, starts, opts, again);
    FreshAfterLast(lines, |starts| - 1);
    if Hitting(m, content, starts, opts, again) != [] {
      var x :| x in again && VisitSpans(m, content, starts, opts, x) != [];
      var y :| y in lines && y < |starts| - 1;
      assert Reached(starts, Others(m, content), x) && Reached(starts, Others(m, content), y);
    }
  }

  lemma {:induction false} HittingMembers(m: Matcher, content: seq<scalar>, starts: seq<nat>, opts: Options,
                                          lines: seq<nat>)
    ensures Hitting(m, content, starts, opts, lines) != []
       <==> exists x :: x in lines && VisitSpans(m, content, starts, opts, x) != []
  {
    hide VisitSpans;
    if lines != [] {
      HittingMembers(m, content, starts, opts, lines[1..]);
      assert forall x :: x in lines <==> x == lines[0] || x in lines[1..];
    }
  }

  /** The first line is hit by the empty match at its start. */
  lemma FirstLineHits(m: Matcher, content: seq<scalar>, starts: seq<nat>, opts: Options)
    requires Table(starts, content) && EmptyAtStart(m, content)
    requires CandidateLines(m, content, starts, opts).Some?
    ensures MatchingLines(m, content, starts, opts, |starts|) > 0
  {
    hide VisitSpans, Hitting, Matches, AllLines, Fresh, FlatLines;
    EmptyMatchHits(m, content, starts, opts, 0);
    LineInHits(m, content, starts, opts, |starts|, 0);
  }

  lemma LinesAgain(m: Matcher, content: seq<scalar>, starts: seq<nat>)
    requires Table(starts, content) && EmptyAtStart(m, content)
    ensures var lines := FlatLines(starts, Others(m, content));
            && NonDecreasing(lines) && (forall x :: x in lines ==> x < |starts|)
            && (forall x :: x in lines <==> Reached(starts, Others(m, content), x))
  {
    hide FlatLines, FindIter, EmptyAtStart, Reached;
    var others := Others(m, content);
    FindIterInOrder(m, content, 1, Some(0));
    FlatLinesAscend(starts, content, others, 1);
    FlatLinesMembers(starts, others);
  }

  /**
   * For every anchor-free pattern that passes the guard and every buffer, the prescan agrees with
   * line-by-line matching if and only if it does not stray.
   */
  lemma PrescanAgreesExactly(m: Matcher, content: seq<scalar>, starts: seq<nat>, opts: Options)
    requires starts == LineStarts(content) && |content| <= U64_MAX
    requires CandidateLines(m, content, starts, opts).Some?
    ensures PrescanHits(m, content, starts, opts) == LineByLine(m, content, starts, opts)
       <==> !Strays(m, content, starts, opts)
  {
    hide LineStarts, PrescanHits, LineByLine, CandidateLines, VisitsAgain, LosesLine;
    if EmptyAtStart(m, content) {
      NotEmptyBuffer(m, content, starts, opts);
      LineStartsIsTable(content);
      WrappedPrescan(m, content, starts, opts);
    } else {
      PrescanLoses(m, content, starts, opts);
    }
  }

  lemma NotEmptyBuffer(m: Matcher, content: seq<scalar>, starts: seq<nat>, opts: Options)
    requires EmptyAtStart(m, content) && CandidateLines(m, content, starts, opts).Some?
    ensures content != []
  {
    hide FindAt;
  }

  // ---- what a search finds ----

  lemma LineByLineIs(m: Matcher, content: seq<scalar>, starts: seq<nat>, opts: Options)
    ensures LineByLine(m, content, starts, opts) == Collect(m, content, starts, opts, AllLines(|starts|), [])
  {
  }

  lemma NoPrescanNeverStrays(m: Matcher, content: seq<scalar>, starts: seq<nat>, opts: Options)
    requires CandidateLines(m, content, starts, opts).None?
    ensures !Strays(m, content, starts, opts)
  {
  }

  /** Candidates are lines of the buffer, visited again or not. */
  lemma CandidatesAreLines(m: Matcher, content: seq<scalar>, starts: seq<nat>, opts: Options)
    requires starts == LineStarts(content) && |content| <= U64_MAX
    ensures var lines := CandidateLines(m, content, starts, opts);
            lines.Some? ==> forall x :: x in lines.value ==> x < |starts|
  {
    hide LineStarts, Fresh, FlatLines, Others, EmptyAtStart, FindIter, AllLines, CandidateLines, Matches, Reached;
    if CandidateLines(m, content, starts, opts).Some? {
      if EmptyAtStart(m, content) {
        NotEmptyBuffer(m, content, starts, opts);
        LineStartsIsTable(content);
        WrappedCandidates(m, content, starts, opts);
        LinesAgain(m, content, starts);
        FreshAfterLast(FlatLines(starts, Others(m, content)), |starts| - 1);
        AllLinesHold(|starts|);
      } else {
        CandidatesHold(m, content, starts, opts);
      }
    }
  }

  lemma TextOfLine(w: Words, starts: seq<nat>, content: seq<scalar>, idx: nat)
    requires Table(starts, content) && idx < |starts|
    ensures IsText(content, starts, idx, LineText(starts, content, idx))
  {
    hide LineStart, LineEnd;
    LineIsCleanCut(w, starts, content, idx);
  }

  lemma OneText(content: seq<scalar>, starts: seq<nat>, idx: nat, a: seq<scalar>, b: seq<scalar>)
    requires IsText(content, starts, idx, a) && IsText(content, starts, idx, b)
    ensures a == b
  {
  }

  lemma FindAtIsFirst(m: Matcher, h: seq<scalar>)
    ensures var r := FindAt(m, h, 0);
            && (r.Some? ==> IsFirstMatch(m, h, r.value))
            && (r.Some? <==> exists i: nat :: MatchesFrom(m.word, m.re, h, i))
  {
    hide FindAt, MatchesFrom, EndFrom;
    FindAtPicks(m, h, 0);
  }

  /** Visiting a line yields a hit exactly when its text matches, and the hit is right. */
  lemma VisitIsRight(m: Matcher, content: seq<scalar>, starts: seq<nat>, opts: Options, idx: nat)
    requires Table(starts, content) && idx < |starts|
    ensures VisitSpans(m, content, starts, opts, idx) != [] <==> LineMatches(m, content, starts, idx)
    ensures var hit := LineHit(idx, VisitSpans(m, content, starts, opts, idx));
            hit.spans != [] ==> IsHit(m, content, starts, opts, hit)
  {
    hide FindAt, FindIter, LineStart, LineEnd, LineText, MatchesFrom, EndFrom, AreAllMatches, IsFirstMatch, IsText;
    var text := LineText(starts, content, idx);
    TextOfLine(m.word, starts, content, idx);
    SpansWhenMatching(m, text, opts.allSpans);
    FindAtIsFirst(m, text);
    FindIterIsAll(m, text);
    if LineMatches(m, content, starts, idx) {
      var t, i: nat :| IsText(content, starts, idx, t) && MatchesFrom(m.word, m.re, t, i);
      OneText(content, starts, idx, t, text);
    }
  }

  lemma CollectNothing(m: Matcher, content: seq<scalar>, starts: seq<nat>, opts: Options, out: seq<LineHit>)
    ensures Collect(m, content, starts, opts, [], out) == out
  {
  }

  lemma CollectStep(m: Matcher, content: seq<scalar>, starts: seq<nat>, opts: Options, lines: seq<nat>,
                    out: seq<LineHit>)
    requires lines != []
    ensures var spans := VisitSpans(m, content, starts, opts, lines[0]);
            var more := if spans != [] then out + [LineHit(lines[0], spans)] else out;
            Collect(m, content, starts, opts, lines, out)
            == if (spans != [] && Enough(opts, more)) || (spans == [] && opts.stopOnNonmatch && out != []) then more
               else Collect(m, content, starts, opts, lines[1..], more)
  {
    hide VisitSpans;
  }

  lemma {:induction false} CollectIsRight(m: Matcher, content: seq<scalar>, starts: seq<nat>, opts: Options,
                                          lines: seq<nat>, out: seq<LineHit>)
    requires starts == LineStarts(content) && forall x :: x in lines ==> x < |starts|
    requires forall k :: 0 <= k < |out| ==> IsHit(m, content, starts, opts, out[k])
    ensures var hits := Collect(m, content, starts, opts, lines, out);
            forall k :: 0 <= k < |hits| ==> IsHit(m, content, starts, opts, hits[k])
    decreases |lines|
  {
    hide VisitSpans, IsHit, LineStarts, Collect;
    if lines == [] {
      CollectNothing(m, content, starts, opts, out);
    } else {
      var spans := VisitSpans(m, content, starts, opts, lines[0]);
      assert lines[0] in lines && forall x :: x in lines[1..] ==> x in lines;
      NonEmptyContent(content);
      LineStartsIsTable(content);
      VisitIsRight(m, content, starts, opts, lines[0]);
      var more := if spans != [] then out + [LineHit(lines[0], spans)] else out;
      assert forall k :: 0 <= k < |more| ==> IsHit(m, content, starts, opts, more[k]);
      CollectIsRight(m, content, starts, opts, lines[1..], more);
      CollectStep(m, content, starts, opts, lines, out);
    }
  }

  /** The loop has found `hits` and visits line `n` next: it left no matching line out and has not stopped. */
  ghost predicate SoFar(m: Matcher, content: seq<scalar>, starts: seq<nat>, opts: Options, hits: seq<LineHit>, n: nat) {
    && (forall k :: 0 <= k < |hits| ==> IsHit(m, content, starts, opts, hits[k]) && hits[k].idx < n)
    && (forall i, j :: 0 <= i < j < |hits| ==> hits[i].idx < hits[j].idx)
    && !AtLimit(opts, |hits|)
    && (opts.stopOnNonmatch ==> forall k :: 0 <= k < |hits| - 1 ==> hits[k + 1].idx == hits[k].idx + 1)
    && (opts.stopOnNonmatch && hits != [] ==> hits[|hits| - 1].idx == n - 1)
    && (forall idx: nat :: idx < n && LineMatches(m, content, starts, idx) ==> HasLine(hits, idx))
  }

  lemma HasLineMore(hits: seq<LineHit>, hit: LineHit)
    ensures forall idx: nat :: HasLine(hits + [hit], idx) <==> HasLine(hits, idx) || hit.idx == idx
  {
    var more := hits + [hit];
    assert more[|hits|] == hit && forall k :: 0 <= k < |hits| ==> more[k] == hits[k];
  }

  lemma MatchingIsLine(m: Matcher, content: seq<scalar>, starts: seq<nat>, idx: nat)
    ensures LineMatches(m, content, starts, idx) ==> idx < |starts|
  {
  }

  /** Line `n` matches: its hit comes last, and may be the one that reaches the limit. */
  lemma OneMoreHit(m: Matcher, content: seq<scalar>, starts: seq<nat>, opts: Options, out: seq<LineHit>, hit: LineHit)
    requires SoFar(m, content, starts, opts, out, hit.idx) && IsHit(m, content, starts, opts, hit)
    ensures if Enough(opts, out + [hit]) then AreHits(m, content, starts, opts, out + [hit])
            else SoFar(m, content, starts, opts, out + [hit], hit.idx + 1)
  {
    hide IsHit, LineMatches, HasLine;
    HasLineMore(out, hit);
  }

  /** Line `n` does not match: the search goes on, or stops here. */
  lemma OneMoreMiss(m: Matcher, content: seq<scalar>, starts: seq<nat>, opts: Options, out: seq<LineHit>, n: nat)
    requires SoFar(m, content, starts, opts, out, n) && !LineMatches(m, content, starts, n)
    ensures if opts.stopOnNonmatch && out != [] then AreHits(m, content, starts, opts, out)
            else SoFar(m, content, starts, opts, out, n + 1)
  {
    hide IsHit, LineMatches, HasLine;
    if opts.stopOnNonmatch && out != [] {
      forall idx: nat | LineMatches(m, content, starts, idx) && !HasLine(out, idx)
        ensures out[|out| - 1].idx < n < idx
      {
        assert idx != n;
      }
    }
  }

  lemma AllVisited(m: Matcher, content: seq<scalar>, starts: seq<nat>, opts: Options, out: seq<LineHit>)
    requires SoFar(m, content, starts, opts, out, |starts|)
    ensures AreHits(m, content, starts, opts, out)
  {
    hide IsHit, LineMatches, HasLine;
    forall idx: nat
      ensures LineMatches(m, content, starts, idx) ==> idx < |starts|
    {
      MatchingIsLine(m, content, starts, idx);
    }
  }

  lemma {:induction false} CollectFinds(m: Matcher, content: seq<scalar>, starts: seq<nat>, opts: Options, n: nat,
                                        out: seq<LineHit>)
    requires Table(starts, content) && n <= |starts| && SoFar(m, content, starts, opts, out, n)
    ensures AreHits(m, content, starts, opts, Collect(m, content, starts, opts, AllLines(|starts|)[n..], out))
    decreases |starts| - n
  {
    hide VisitSpans, IsHit, LineMatches, HasLine, IsTable, Collect, SoFar, AreHits;
    var lines := AllLines(|starts|)[n..];
    if n < |starts| {
      assert lines[0] == n && lines[1..] == AllLines(|starts|)[n + 1..];
      var spans := VisitSpans(m, content, starts, opts, n);
      VisitIsRight(m, content, starts, opts, n);
      CollectStep(m, content, starts, opts, lines, out);
      if spans != [] {
        var hit := LineHit(n, spans);
        OneMoreHit(m, content, starts, opts, out, hit);
        if !Enough(opts, out + [hit]) {
          CollectFinds(m, content, starts, opts, n + 1, out + [hit]);
        }
      } else {
        OneMoreMiss(m, content, starts, opts, out, n);
        if !(opts.stopOnNonmatch && out != []) {
          CollectFinds(m, content, starts, opts, n + 1, out);
        }
      }
    } else {
      assert lines == [];
      CollectNothing(m, content, starts, opts, out);
      AllVisited(m, content, starts, opts, out);
    }
  }

  /** Line-by-line matching finds the matching lines, in order, up to the limit or to where it stops. */
  lemma LineByLineFinds(m: Matcher, content: seq<scalar>, starts: seq<nat>, opts: Options)
    requires starts == LineStarts(content)
    ensures AreHits(m, content, starts, opts, LineByLine(m, content, starts, opts))
  {
    hide Collect, IsHit, LineMatches, IsTable;
    var all := AllLines(|starts|);
    assert all[0..] == all;
    forall idx: nat
      ensures LineMatches(m, content, starts, idx) ==> idx < |starts|
    {
      MatchingIsLine(m, content, starts, idx);
    }
    if content == [] {
      NothingToVisit(m, content, starts, opts);
    } else {
      LineStartsIsTable(content);
      CollectFinds(m, content, starts, opts, 0, []);
    }
  }

  lemma NothingToVisit(m: Matcher, content: seq<scalar>, starts: seq<nat>, opts: Options)
    requires content == [] && starts == LineStarts(content)
    ensures starts == [] && Collect(m, content, starts, opts, AllLines(|starts|), []) == []
  {
  }

  // ---- what the guard lets through ----

  /** Word boundaries only, without the one-sided assertions. */
  predicate PlainBoundaries(re: Regex) {
    match re
    case Concat(a, b) => PlainBoundaries(a) && PlainBoundaries(b)
    case Alt(a, b) => PlainBoundaries(a) && PlainBoundaries(b)
    case Star(a) => PlainBoundaries(a)
    case WordStart => false
    case WordEnd => false
    case WordStartHalf => false
    case WordEndHalf => false
    case _ => true
  }

  /** With plain boundaries an empty match cannot tell the start of a word from its end. */
  lemma {:induction false} EmptyMatchSeesBoundary(w: Words, re: Regex, h: seq<scalar>, i: nat, i': nat)
    requires AnchorFree(re) && PlainBoundaries(re) && i <= |h| && i' <= |h| && Boundary(w, h, i) == Boundary(w, h, i')
    ensures Matches(w, re, h, i, i) <==> Matches(w, re, h, i', i')
  {
    hide Boundary;
    match re
    case Concat(a, b) =>
      EmptyMatchSeesBoundary(w, a, h, i, i');
      EmptyMatchSeesBoundary(w, b, h, i, i');
      EmptyConcat(w, a, b, h, i);
      EmptyConcat(w, a, b, h, i');
    case Alt(a, b) =>
      EmptyMatchSeesBoundary(w, a, h, i, i');
      EmptyMatchSeesBoundary(w, b, h, i, i');
    case _ =>
  }

  /** With plain boundaries no line is lost. */
  lemma PlainBoundariesLoseNothing(m: Matcher, content: seq<scalar>, starts: seq<nat>, opts: Options)
    requires starts == LineStarts(content) && PlainBoundaries(m.re)
    requires CandidateLines(m, content, starts, opts).Some?
    ensures !LosesLine(m, content, starts, opts)
  {
    hide Skipped, Matches, LineStarts, Fresh, FlatLines;
    if idx: nat :| Skipped(m, content, starts, idx) {
      SkippedInTable(m, content, starts, idx);
      NonEmptyContent(content);
      LineStartsIsTable(content);
      SkippedStartsWord(m, content, starts, idx);
      EmptyMatchSeesBoundary(m.word, m.re, [content[LineStart(starts, content, idx)]], 0, 1);
      assert false;
    }
  }

  /**
   * The guard against patterns that match the empty string does not rule out empty matches: a word
   * boundary passes it and matches emptily at offset 0, so that of two lines of one word character
   * each the first is visited again.
   */
  lemma WordBoundaryVisitsAgain(m: Matcher, a: scalar, b: scalar, allSpans: bool)
    requires m.re == WordBoundary && m.word(a) && m.word(b)
    ensures var content: seq<scalar> := [a, NEWLINE, b];
            var starts, opts := LineStarts(content), Options(allSpans, None, false);
            && CandidateLines(m, content, starts, opts).Some?
            && EmptyAtStart(m, content) && VisitsAgain(m, content, starts, opts)
            && PrescanHits(m, content, starts, opts) != LineByLine(m, content, starts, opts)
  {
    hide FindAt, FindIter, LineStarts, LineByLine, PrescanHits, Fresh, FlatLines, VisitSpans, MatchingLines, Matches;
    hide Reached, WordAt;
    var content: seq<scalar> := [a, NEWLINE, b];
    var starts, opts := LineStarts(content), Options(allSpans, None, false);
    WordOfOne(m.word, m.re, a, b);
    TwoLines(a, b);
    EmptyHere(m, content, 0);
    EmptyHere(m, content, 1);
    LineStartsIsTable(content);
    EmptyMatchHits(m, content, starts, opts, 0);
    FirstOther(m, content, starts);
    PrescanAgreesExactly(m, content, starts, opts);
  }

  lemma WordOfOne(w: Words, re: Regex, a: scalar, b: scalar)
    requires re == WordBoundary && w(a) && w(b)
    ensures var content := [a, NEWLINE, b]; Matches(w, re, content, 0, 0) && Matches(w, re, content, 1, 1)
    ensures !Matches(w, re, [], 0, 0)
    ensures a != NEWLINE && b != NEWLINE
  {
  }

  lemma FirstOther(m: Matcher, content: seq<scalar>, starts: seq<nat>)
    requires |content| > 0 && starts == [0, 2] && FindAt(m, content, 1) == Some(Span(1, 1))
    ensures Reached(starts, Others(m, content), 0)
  {
    hide FindAt;
    assert Others(m, content)[0] == Span(1, 1);
    assert Reaches(starts, Others(m, content)[0], 0);
  }

  /**
   * The start of a word passes the guard too, and matches emptily at the start of a line, where the
   * last character of the match is the newline before: of the lines ` a` and `b` the second is lost.
   */
  lemma WordStartLosesLine(m: Matcher, space: scalar, a: scalar, b: scalar, allSpans: bool)
    requires m.re == WordStart && !m.word(space) && space != NEWLINE && m.word(a) && m.word(b)
    ensures var content: seq<scalar> := [space, a, NEWLINE, b];
            var starts, opts := LineStarts(content), Options(allSpans, None, false);
            && CandidateLines(m, content, starts, opts).Some?
            && !EmptyAtStart(m, content) && Skipped(m, content, starts, 1)
            && PrescanHits(m, content, starts, opts) != LineByLine(m, content, starts, opts)
  {
    var content: seq<scalar> := [space, a, NEWLINE, b];
    var starts, opts := LineStarts(content), Options(allSpans, None, false);
    hide FindIter, LineStarts, LineByLine, PrescanHits, Skipped, Matches, MatchesFrom, WordAt;
    WordsOfTwo(m.word, m.re, space, a, b);
    TwoMoreLines(space, a, b);
    SkipsSecond(m, content, starts);
    PrescanAgreesExactly(m, content, starts, opts);
  }

  lemma WordsOfTwo(w: Words, re: Regex, space: scalar, a: scalar, b: scalar)
    requires re == WordStart && !w(space) && w(a) && w(b)
    ensures var content: seq<scalar> := [space, a, NEWLINE, b];
            Matches(w, re, content, 3, 3) && !MatchesFrom(w, re, content, 0) && !MatchesFrom(w, re, content, 4)
    ensures !Matches(w, re, [], 0, 0)
    ensures a != NEWLINE && b != NEWLINE
  {
  }

  lemma SkipsSecond(m: Matcher, content: seq<scalar>, starts: seq<nat>)
    requires m.re == WordStart && |content| == 4 && starts == [0, 3]
    requires Matches(m.word, m.re, content, 3, 3) && !MatchesFrom(m.word, m.re, content, 4)
    ensures Skipped(m, content, starts, 1)
  {
    hide FindAt, FindIter, LineOf, WordAt;
    EmptyHere(m, content, 3);
    FindIterPicks(m, content, 0, None);
    var spans := FindIter(m, content, 0, None);
    assert forall k :: 0 <= k < |spans| ==> spans[k] in spans && spans[k].start == spans[k].end;
  }

  /** A pattern of one assertion finds an empty match wherever it holds. */
  lemma EmptyHere(m: Matcher, h: seq<scalar>, i: nat)
    requires (m.re.WordBoundary? || m.re.WordStart?) && i <= |h| && Matches(m.word, m.re, h, i, i)
    ensures FindAt(m, h, i) == Some(Span(i, i)) && EndFrom(m, h, i) == i
  {
    assert MatchesFrom(m.word, m.re, h, i);
  }

  lemma TwoMoreLines(space: scalar, a: scalar, b: scalar)
    requires space != NEWLINE && a != NEWLINE
    ensures LineStarts([space, a, NEWLINE, b]) == [0, 3]
  {
    var content: seq<scalar> := [space, a, NEWLINE, b];
    assert StartsUpTo(content, 1) == [0];
    assert StartsUpTo(content, 2) == [0];
    assert StartsUpTo(content, 3) == [0, 3];
  }

  lemma TwoLines(a: scalar, b: scalar)
    requires a != NEWLINE
    ensures LineStarts([a, NEWLINE, b]) == [0, 2]
  {
    var content: seq<scalar> := [a, NEWLINE, b];
    assert StartsUpTo(content, 1) == [0];
    assert StartsUpTo(content, 2) == [0, 2];
  }
}
