/** Regular expressions, what they match, and the leftmost non-overlapping enumeration of matches. */
module Regexes {
  import opened Bytes
  import opened Lines
  import opened Spans

  // ---- regular expressions ----

  datatype Regex =
    | Empty
    | Class(chars: set<scalar>)
    | Concat(a: Regex, b: Regex)
    | Alt(a: Regex, b: Regex)
    | Star(a: Regex)
    | WordBoundary
    | NotWordBoundary
    | WordStart
    | WordEnd
    | WordStartHalf
    | WordEndHalf
    | StartAnchor
    | EndAnchor

  /** Which characters make up words; the engine decides, but line ends are never among them. */
  type Words = word: scalar -> bool | !word(NEWLINE) && !word(RETURN) witness _ => false

  /** Whether there is a word character at `i`; outside the haystack there is none. */
  predicate WordAt(w: Words, h: seq<scalar>, i: int) {
    0 <= i < |h| && w(h[i])
  }

  /** Whether a word starts or ends at `i`. */
  predicate Boundary(w: Words, h: seq<scalar>, i: nat) {
    WordAt(w, h, i - 1) != WordAt(w, h, i)
  }

  /** `re` matches `h[i..j]`, seeing the rest of `h` only through boundaries and anchors. */
  predicate Matches(w: Words, re: Regex, h: seq<scalar>, i: nat, j: nat)
    requires i <= j <= |h|
    decreases re, j - i
  {
    match re
    case Empty => i == j
    case Class(chars) => j == i + 1 && h[i] in chars
    case Concat(a, b) => exists k :: i <= k <= j && Matches(w, a, h, i, k) && Matches(w, b, h, k, j)
    case Alt(a, b) => Matches(w, a, h, i, j) || Matches(w, b, h, i, j)
    case Star(a) => i == j || exists k :: i < k <= j && Matches(w, a, h, i, k) && Matches(w, re, h, k, j)
    case WordBoundary => i == j && Boundary(w, h, i)
    case NotWordBoundary => i == j && !Boundary(w, h, i)
    case WordStart => i == j && !WordAt(w, h, i - 1) && WordAt(w, h, i)
    case WordEnd => i == j && WordAt(w, h, i - 1) && !WordAt(w, h, i)
    case WordStartHalf => i == j && !WordAt(w, h, i - 1)
    case WordEndHalf => i == j && !WordAt(w, h, i)
    case StartAnchor => i == j == 0
    case EndAnchor => i == j == |h|
  }

  /** A word character, by its place. */
  predicate WordIn(w: Words, h: seq<scalar>, k: nat) { k < |h| && w(h[k]) }

  /** What the assertions look for: a word, or none, right before and right after the place. */
  lemma AssertionsMean(w: Words, h: seq<scalar>, i: nat, j: nat)
    requires i <= j <= |h|
    ensures var before, after := i > 0 && WordIn(w, h, i - 1), WordIn(w, h, i);
            && (Matches(w, WordBoundary, h, i, j) <==> i == j && before != after)
            && (Matches(w, NotWordBoundary, h, i, j) <==> i == j && before == after)
            && (Matches(w, WordStart, h, i, j) <==> i == j && !before && after)
            && (Matches(w, WordEnd, h, i, j) <==> i == j && before && !after)
            && (Matches(w, WordStartHalf, h, i, j) <==> i == j && !before)
            && (Matches(w, WordEndHalf, h, i, j) <==> i == j && !after)
            && (Matches(w, StartAnchor, h, i, j) <==> i == j && h[..i] == [])
            && (Matches(w, EndAnchor, h, i, j) <==> i == j && h[i..] == [])
  {
  }

  /** What characters match, by the text between the two places. */
  lemma CharactersMean(w: Words, chars: set<scalar>, h: seq<scalar>, i: nat, j: nat)
    requires i <= j <= |h|
    ensures Matches(w, Empty, h, i, j) <==> h[i..j] == []
    ensures Matches(w, Class(chars), h, i, j) <==> |h[i..j]| == 1 && h[i..j][0] in chars
  {
  }

  /** `a` matches up to `k` and `b` from there on. */
  ghost predicate DividedAt(w: Words, a: Regex, b: Regex, h: seq<scalar>, i: nat, j: nat, k: nat) {
    i <= k <= j <= |h| && Matches(w, a, h, i, k) && Matches(w, b, h, k, j)
  }

  lemma {:induction false} SequenceIsDivided(w: Words, re: Regex, h: seq<scalar>, i: nat, j: nat) returns (k: nat)
    requires i <= j <= |h| && re.Concat? && Matches(w, re, h, i, j)
    ensures DividedAt(w, re.a, re.b, h, i, j, k)
  {
    k :| i <= k <= j && Matches(w, re.a, h, i, k) && Matches(w, re.b, h, k, j);
  }

  /** A sequence of two patterns divides the text. */
  lemma {:induction false} SequenceDivides(w: Words, re: Regex, h: seq<scalar>, i: nat, j: nat)
    requires i <= j <= |h| && re.Concat?
    ensures Matches(w, re, h, i, j) <==> exists k: nat :: DividedAt(w, re.a, re.b, h, i, j, k)
  {
    if Matches(w, re, h, i, j) {
      var k := SequenceIsDivided(w, re, h, i, j);
    }
  }

  /** An alternative matches either way. */
  lemma AlternativeMeans(w: Words, re: Regex, h: seq<scalar>, i: nat, j: nat)
    requires i <= j <= |h| && re.Alt?
    ensures Matches(w, re, h, i, j) <==> Matches(w, re.a, h, i, j) || Matches(w, re.b, h, i, j)
  {
  }

  /** Between each of `cuts` and the next lies a piece that `re` matches. */
  ghost predicate Repeats(w: Words, re: Regex, h: seq<scalar>, cuts: seq<nat>) {
    |cuts| <= 1 || (cuts[0] <= cuts[1] <= |h| && Matches(w, re, h, cuts[0], cuts[1]) && Repeats(w, re, h, cuts[1..]))
  }

  ghost predicate RepeatsOver(w: Words, re: Regex, h: seq<scalar>, i: nat, j: nat) {
    exists cuts: seq<nat> :: cuts != [] && cuts[0] == i && cuts[|cuts| - 1] == j && Repeats(w, re, h, cuts)
  }

  lemma {:induction false} StarIsCut(w: Words, a: Regex, h: seq<scalar>, i: nat, j: nat) returns (cuts: seq<nat>)
    requires i <= j <= |h| && Matches(w, Star(a), h, i, j)
    ensures cuts != [] && cuts[0] == i && cuts[|cuts| - 1] == j && Repeats(w, a, h, cuts)
    decreases j - i
  {
    if i == j {
      cuts := [i];
    } else {
      var k :| i < k <= j && Matches(w, a, h, i, k) && Matches(w, Star(a), h, k, j);
      var rest := StarIsCut(w, a, h, k, j);
      cuts := [i] + rest;
      assert cuts[1..] == rest;
    }
  }

  lemma {:induction false} CutIsStar(w: Words, a: Regex, h: seq<scalar>, cuts: seq<nat>)
    requires cuts != [] && cuts[|cuts| - 1] <= |h| && Repeats(w, a, h, cuts)
    ensures cuts[0] <= cuts[|cuts| - 1] && Matches(w, Star(a), h, cuts[0], cuts[|cuts| - 1])
    decreases |cuts|
  {
    if |cuts| > 1 {
      CutIsStar(w, a, h, cuts[1..]);
    }
  }

  /** A star matches what falls into pieces that its pattern matches. */
  lemma StarRepeats(w: Words, a: Regex, h: seq<scalar>, i: nat, j: nat)
    requires i <= j <= |h|
    ensures Matches(w, Star(a), h, i, j) <==> RepeatsOver(w, a, h, i, j)
  {
    if Matches(w, Star(a), h, i, j) {
      var cuts := StarIsCut(w, a, h, i, j);
    } else if RepeatsOver(w, a, h, i, j) {
      var cuts: seq<nat> :| cuts != [] && cuts[0] == i && cuts[|cuts| - 1] == j && Repeats(w, a, h, cuts);
      CutIsStar(w, a, h, cuts);
    }
  }

  predicate AnchorFree(re: Regex) {
    match re
    case Concat(a, b) => AnchorFree(a) && AnchorFree(b)
    case Alt(a, b) => AnchorFree(a) && AnchorFree(b)
    case Star(a) => AnchorFree(a)
    case StartAnchor => false
    case EndAnchor => false
    case _ => true
  }

  // ---- the leftmost, non-overlapping enumeration ----

  /** A pattern together with the rule its engine uses to pick an end among those a start allows. */
  datatype Matcher = Matcher(word: Words, re: Regex, pick: (seq<scalar>, nat) -> nat)

  predicate MatchesFrom(w: Words, re: Regex, h: seq<scalar>, i: nat) {
    i <= |h| && exists j :: i <= j <= |h| && Matches(w, re, h, i, j)
  }

  /** The first end at or after `j`. */
  function LeastEnd(w: Words, re: Regex, h: seq<scalar>, i: nat, j: nat): (end: nat)
    requires i <= j <= |h| && exists k :: j <= k <= |h| && Matches(w, re, h, i, k)
    ensures j <= end <= |h| && Matches(w, re, h, i, end)
    decreases |h| - j
  {
    if Matches(w, re, h, i, j) then j else LeastEnd(w, re, h, i, j + 1)
  }

  /** The end the engine picks for a match that starts at `i`. */
  function EndFrom(m: Matcher, h: seq<scalar>, i: nat): (end: nat)
    requires MatchesFrom(m.word, m.re, h, i)
    ensures i <= end <= |h| && Matches(m.word, m.re, h, i, end)
  {
    var j := m.pick(h, i);
    if i <= j <= |h| && Matches(m.word, m.re, h, i, j) then j else LeastEnd(m.word, m.re, h, i, i)
  }

  /** Where the engine's rule names an end that a match has, that is the end. */
  lemma PickIsTaken(m: Matcher, h: seq<scalar>, i: nat)
    requires i <= m.pick(h, i) <= |h| && Matches(m.word, m.re, h, i, m.pick(h, i))
    ensures MatchesFrom(m.word, m.re, h, i) && EndFrom(m, h, i) == m.pick(h, i)
  {
  }

  /** The leftmost match that starts at or after `at`. */
  function FindAt(m: Matcher, h: seq<scalar>, at: nat): (r: Option<Span>)
    requires at <= |h| + 1
    ensures r.Some? ==>
              at <= r.value.start <= r.value.end <= |h| && Matches(m.word, m.re, h, r.value.start, r.value.end)
    ensures r.Some? ==> forall i :: at <= i < r.value.start ==> !MatchesFrom(m.word, m.re, h, i)
    ensures r.None? ==> forall i :: at <= i ==> !MatchesFrom(m.word, m.re, h, i)
    decreases |h| + 1 - at
  {
    if at > |h| then None
    else if MatchesFrom(m.word, m.re, h, at) then Some(Span(at, EndFrom(m, h, at)))
    else FindAt(m, h, at + 1)
  }

  /** `find_iter`: an empty match right where the last one ended is passed over. */
  function FindIter(m: Matcher, h: seq<scalar>, at: nat, lastEnd: Option<nat>): seq<Span>
    requires at <= |h| + 1
    decreases |h| + 1 - at, if lastEnd == Some(at) then 0 else 1
  {
    match FindAt(m, h, at)
    case None => []
    case Some(s) =>
      if s.start == s.end && lastEnd == Some(s.end) then FindIter(m, h, at + 1, lastEnd)
      else [s] + FindIter(m, h, s.end, Some(s.end))
  }

  /** The first match found in the buffer is empty and at its very start. */
  predicate EmptyAtStart(m: Matcher, h: seq<scalar>) {
    FindAt(m, h, 0) == Some(Span(0, 0))
  }

  lemma FindIterStep(m: Matcher, h: seq<scalar>, at: nat, lastEnd: Option<nat>)
    requires at <= |h| + 1
    ensures FindIter(m, h, at, lastEnd)
         == match FindAt(m, h, at)
            case None => []
            case Some(s) =>
              if s.start == s.end && lastEnd == Some(s.end) then FindIter(m, h, at + 1, lastEnd)
              else [s] + FindIter(m, h, s.end, Some(s.end))
  {
    hide FindAt;
  }

  // ---- matching within a clean cut ----

  /** No match of `re` in `h` is empty. */
  ghost predicate NonEmptyMatches(w: Words, re: Regex, h: seq<scalar>) {
    forall i, j :: 0 <= i <= j <= |h| && Matches(w, re, h, i, j) ==> i < j
  }

  /** `h[lo..hi]` is cut where no word character is next to it. */
  predicate CleanCut(w: Words, h: seq<scalar>, lo: nat, hi: nat) {
    lo <= hi <= |h| && !WordAt(w, h, lo - 1) && !WordAt(w, h, hi)
  }

  /** An anchor-free pattern cannot tell a cleanly cut line from the buffer around it. */
  lemma {:induction false} CutKeepsMatches(w: Words, re: Regex, h: seq<scalar>, lo: nat, hi: nat, i: nat, j: nat)
    requires AnchorFree(re) && CleanCut(w, h, lo, hi) && i <= j <= hi - lo
    ensures Matches(w, re, h[lo..hi], i, j) <==> Matches(w, re, h, lo + i, lo + j)
    decreases re, j - i
  {
    var line := h[lo..hi];
    match re
    case Concat(a, b) =>
      forall k | i <= k <= j
        ensures Matches(w, a, line, i, k) <==> Matches(w, a, h, lo + i, lo + k)
        ensures Matches(w, b, line, k, j) <==> Matches(w, b, h, lo + k, lo + j)
      {
        CutKeepsMatches(w, a, h, lo, hi, i, k);
        CutKeepsMatches(w, b, h, lo, hi, k, j);
      }
      if Matches(w, re, h, lo + i, lo + j) {
        var k :| lo + i <= k <= lo + j && Matches(w, a, h, lo + i, k) && Matches(w, b, h, k, lo + j);
        assert Matches(w, a, line, i, k - lo) && Matches(w, b, line, k - lo, j);
      }
    case Alt(a, b) =>
      CutKeepsMatches(w, a, h, lo, hi, i, j);
      CutKeepsMatches(w, b, h, lo, hi, i, j);
    case Star(a) =>
      forall k | i < k <= j
        ensures Matches(w, a, line, i, k) <==> Matches(w, a, h, lo + i, lo + k)
        ensures Matches(w, re, line, k, j) <==> Matches(w, re, h, lo + k, lo + j)
      {
        CutKeepsMatches(w, a, h, lo, hi, i, k);
        CutKeepsMatches(w, re, h, lo, hi, k, j);
      }
      if Matches(w, re, h, lo + i, lo + j) && i < j {
        var k :| lo + i < k <= lo + j && Matches(w, a, h, lo + i, k) && Matches(w, re, h, k, lo + j);
        assert Matches(w, a, line, i, k - lo) && Matches(w, re, line, k - lo, j);
      }
    case _ =>
      CutKeepsWords(w, h, lo, hi, i);
  }

  lemma CutKeepsWords(w: Words, h: seq<scalar>, lo: nat, hi: nat, i: nat)
    requires CleanCut(w, h, lo, hi) && i <= hi - lo
    ensures WordAt(w, h[lo..hi], i - 1) == WordAt(w, h, lo + i - 1) && WordAt(w, h[lo..hi], i) == WordAt(w, h, lo + i)
  {
  }

  // ---- what the enumeration covers ----

  /** In order, non-overlapping, from `at` on, and none of them ends at 0. */
  ghost predicate InOrder(spans: seq<Span>, at: nat, len: nat) {
    && (forall k :: 0 <= k < |spans| ==> at <= spans[k].start <= spans[k].end <= len && 0 < spans[k].end)
    && (forall i, j :: 0 <= i < j < |spans| ==> spans[i].end <= spans[j].start)
  }

  lemma {:induction false} FindIterInOrder(m: Matcher, h: seq<scalar>, at: nat, lastEnd: Option<nat>)
    requires at <= |h| + 1 && (at == 0 ==> !EmptyAtStart(m, h))
    ensures InOrder(FindIter(m, h, at, lastEnd), at, |h|)
    decreases |h| + 1 - at, if lastEnd == Some(at) then 0 else 1
  {
    hide FindAt, FindIter;
    FindIterStep(m, h, at, lastEnd);
    var r := FindAt(m, h, at);
    if r.Some? {
      var s := r.value;
      if s.start == s.end && lastEnd == Some(s.end) {
        FindIterInOrder(m, h, at + 1, lastEnd);
      } else {
        FindIterInOrder(m, h, s.end, Some(s.end));
      }
    }
  }

  /** Sorted by start and within the haystack, empty matches at offset 0 included. */
  lemma {:induction false} FindIterSorted(m: Matcher, h: seq<scalar>, at: nat, lastEnd: Option<nat>)
    requires at <= |h| + 1
    ensures SortedByStart(FindIter(m, h, at, lastEnd))
    ensures forall s :: s in FindIter(m, h, at, lastEnd) ==> at <= s.start <= s.end <= |h|
    decreases |h| + 1 - at, if lastEnd == Some(at) then 0 else 1
  {
    hide FindAt, FindIter;
    FindIterStep(m, h, at, lastEnd);
    var r := FindAt(m, h, at);
    if r.Some? {
      var s := r.value;
      if s.start == s.end && lastEnd == Some(s.end) {
        FindIterSorted(m, h, at + 1, lastEnd);
      } else {
        FindIterSorted(m, h, s.end, Some(s.end));
        var rest := FindIter(m, h, s.end, Some(s.end));
        assert forall k :: 0 <= k < |rest| ==> rest[k] in rest;
      }
    }
  }

  ghost predicate EndsAt(spans: seq<Span>, i: nat) {
    exists k :: 0 <= k < |spans| && spans[k].end == i
  }

  /**
   * Wherever the pattern matches, some enumerated match covers that place, or else the match picked
   * there is empty and an enumerated match ends there.
   */
  lemma {:induction false} FindIterCovers(m: Matcher, h: seq<scalar>, at: nat, lastEnd: Option<nat>, i: nat)
    requires at <= i <= |h| && MatchesFrom(m.word, m.re, h, i)
    ensures var all := FindIter(m, h, at, lastEnd);
            Covered(all, i) || (EndFrom(m, h, i) == i && (EndsAt(all, i) || lastEnd == Some(i)))
    decreases |h| + 1 - at, if lastEnd == Some(at) then 0 else 1
  {
    hide FindAt, Matches, MatchesFrom, EndFrom, FindIter;
    FindIterStep(m, h, at, lastEnd);
    FindAtPicks(m, h, at);
    var s := FindAt(m, h, at).value;
    var all := FindIter(m, h, at, lastEnd);
    if s.start == s.end && lastEnd == Some(s.end) {
      if s.start < i {
        FindIterCovers(m, h, at + 1, lastEnd, i);
      }
    } else {
      var rest := FindIter(m, h, s.end, Some(s.end));
      assert all == [s] + rest && all[0] == s;
      assert forall k :: 0 <= k < |rest| ==> all[k + 1] == rest[k];
      if s.end <= i {
        FindIterCovers(m, h, s.end, Some(s.end), i);
      }
    }
  }

  /** Enumerated matches are those picked at their starts. */
  lemma {:induction false} FindIterPicks(m: Matcher, h: seq<scalar>, at: nat, lastEnd: Option<nat>)
    requires at <= |h| + 1
    ensures forall s :: s in FindIter(m, h, at, lastEnd) ==>
              MatchesFrom(m.word, m.re, h, s.start) && s.end == EndFrom(m, h, s.start)
    decreases |h| + 1 - at, if lastEnd == Some(at) then 0 else 1
  {
    hide FindAt, EndFrom, MatchesFrom, FindIter;
    FindIterStep(m, h, at, lastEnd);
    FindAtPicks(m, h, at);
    var r := FindAt(m, h, at);
    if r.Some? {
      var s := r.value;
      if s.start == s.end && lastEnd == Some(s.end) {
        FindIterPicks(m, h, at + 1, lastEnd);
      } else {
        FindIterPicks(m, h, s.end, Some(s.end));
      }
    }
  }

  lemma {:induction false} FindAtPicks(m: Matcher, h: seq<scalar>, at: nat)
    requires at <= |h| + 1
    ensures var r := FindAt(m, h, at);
            r.Some? ==> MatchesFrom(m.word, m.re, h, r.value.start) && r.value.end == EndFrom(m, h, r.value.start)
    decreases |h| + 1 - at
  {
    hide EndFrom, MatchesFrom;
    if at <= |h| && !MatchesFrom(m.word, m.re, h, at) {
      FindAtPicks(m, h, at + 1);
    }
  }

  /** The first match: it starts where no match starts earlier, and ends where the engine picks. */
  ghost predicate IsFirstMatch(m: Matcher, h: seq<scalar>, s: Span) {
    && MatchesFrom(m.word, m.re, h, s.start) && s.end == EndFrom(m, h, s.start)
    && forall i: nat :: i < s.start ==> !MatchesFrom(m.word, m.re, h, i)
  }

  /**
   * All matches of `h`: each as the engine picks it, in order and without overlap, no empty one right
   * behind another, and none left out: where the pattern matches, a match covers the place, or what is
   * picked there is empty and a match ends there.
   */
  ghost predicate AreAllMatches(m: Matcher, h: seq<scalar>, spans: seq<Span>) {
    && (forall k :: 0 <= k < |spans| ==>
          MatchesFrom(m.word, m.re, h, spans[k].start) && spans[k].end == EndFrom(m, h, spans[k].start))
    && (forall k :: 0 <= k < |spans| - 1 ==>
          spans[k].end <= spans[k + 1].start && (spans[k + 1].start == spans[k + 1].end ==> spans[k].end < spans[k + 1].start))
    && (forall i: nat :: MatchesFrom(m.word, m.re, h, i) ==>
          Covered(spans, i) || (EndFrom(m, h, i) == i && EndsAt(spans, i)))
  }

  lemma {:induction false} FindIterApart(m: Matcher, h: seq<scalar>, at: nat, lastEnd: Option<nat>)
    requires at <= |h| + 1
    ensures var all := FindIter(m, h, at, lastEnd);
            && (all != [] ==> at <= all[0].start && (all[0].start == all[0].end ==> lastEnd != Some(all[0].start)))
            && forall k :: 0 <= k < |all| - 1 ==>
                 all[k].end <= all[k + 1].start && (all[k + 1].start == all[k + 1].end ==> all[k].end < all[k + 1].start)
    decreases |h| + 1 - at, if lastEnd == Some(at) then 0 else 1
  {
    hide FindAt, FindIter;
    FindIterStep(m, h, at, lastEnd);
    var r := FindAt(m, h, at);
    if r.Some? {
      var s := r.value;
      if s.start == s.end && lastEnd == Some(s.end) {
        FindIterApart(m, h, at + 1, lastEnd);
      } else {
        FindIterApart(m, h, s.end, Some(s.end));
      }
    }
  }

  lemma FindIterIsAll(m: Matcher, h: seq<scalar>)
    ensures AreAllMatches(m, h, FindIter(m, h, 0, None))
  {
    hide FindIter, FindAt, Matches, MatchesFrom, EndFrom, Covered, EndsAt;
    var all := FindIter(m, h, 0, None);
    FindIterPicks(m, h, 0, None);
    FindIterApart(m, h, 0, None);
    assert forall k :: 0 <= k < |all| ==> all[k] in all;
    forall i: nat | MatchesFrom(m.word, m.re, h, i)
      ensures Covered(all, i) || (EndFrom(m, h, i) == i && EndsAt(all, i))
    {
      MatchIsWithin(m, h, i);
      FindIterCovers(m, h, 0, None, i);
    }
  }

  lemma MatchIsWithin(m: Matcher, h: seq<scalar>, i: nat)
    requires MatchesFrom(m.word, m.re, h, i)
    ensures i <= |h|
  {
  }

  /** The matches after an empty one at offset 0. */
  function Others(m: Matcher, h: seq<scalar>): seq<Span> {
    FindIter(m, h, 1, Some(0))
  }

  lemma FindIterFromEmpty(m: Matcher, h: seq<scalar>)
    requires EmptyAtStart(m, h)
    ensures FindIter(m, h, 0, None) == [Span(0, 0)] + Others(m, h)
  {
    hide FindAt;
    assert FindIter(m, h, 0, Some(0)) == FindIter(m, h, 1, Some(0));
  }

  // ---- empty matches ----

  /** An empty match of an anchor-free pattern sees only whether there is a word on either side. */
  lemma {:induction false} EmptyMatchSeesWords(w: Words, re: Regex, h: seq<scalar>, i: nat, h': seq<scalar>, i': nat)
    requires AnchorFree(re) && i <= |h| && i' <= |h'|
    requires WordAt(w, h, i - 1) == WordAt(w, h', i' - 1) && WordAt(w, h, i) == WordAt(w, h', i')
    ensures Matches(w, re, h, i, i) <==> Matches(w, re, h', i', i')
  {
    hide WordAt;
    match re
    case Concat(a, b) =>
      EmptyMatchSeesWords(w, a, h, i, h', i');
      EmptyMatchSeesWords(w, b, h, i, h', i');
      EmptyConcat(w, a, b, h, i);
      EmptyConcat(w, a, b, h', i');
    case Alt(a, b) =>
      EmptyMatchSeesWords(w, a, h, i, h', i');
      EmptyMatchSeesWords(w, b, h, i, h', i');
    case _ =>
  }

  lemma EmptyConcat(w: Words, a: Regex, b: Regex, h: seq<scalar>, i: nat)
    requires i <= |h|
    ensures Matches(w, Concat(a, b), h, i, i) <==> Matches(w, a, h, i, i) && Matches(w, b, h, i, i)
  {
  }

  /** The guard leaves empty matches at word boundaries only. */
  lemma {:induction false} GuardLeavesBoundaries(w: Words, re: Regex, h: seq<scalar>, i: nat)
    requires AnchorFree(re) && !Matches(w, re, [], 0, 0) && i <= |h| && Matches(w, re, h, i, i)
    ensures Boundary(w, h, i)
  {
    match re
    case Concat(a, b) =>
      EmptyConcat(w, a, b, h, i);
      EmptyConcat(w, a, b, [], 0);
      if Matches(w, a, [], 0, 0) {
        GuardLeavesBoundaries(w, b, h, i);
      } else {
        GuardLeavesBoundaries(w, a, h, i);
      }
    case Alt(a, b) =>
      if Matches(w, a, h, i, i) {
        GuardLeavesBoundaries(w, a, h, i);
      } else {
        GuardLeavesBoundaries(w, b, h, i);
      }
    case _ =>
  }

  /** Where the word around `i` ends. */
  lemma {:induction false} WordEnds(w: Words, h: seq<scalar>, i: nat) returns (p: nat)
    requires WordAt(w, h, i)
    ensures i < p <= |h| && Boundary(w, h, p) && forall k :: i <= k < p ==> WordAt(w, h, k)
    decreases |h| - i
  {
    p := i + 1;
    if WordAt(w, h, p) {
      p := WordEnds(w, h, p);
    }
  }

  predicate BoundaryFree(re: Regex) {
    match re
    case Concat(a, b) => BoundaryFree(a) && BoundaryFree(b)
    case Alt(a, b) => BoundaryFree(a) && BoundaryFree(b)
    case Star(a) => BoundaryFree(a)
    case WordBoundary => false
    case NotWordBoundary => false
    case WordStart => false
    case WordEnd => false
    case WordStartHalf => false
    case WordEndHalf => false
    case _ => true
  }

  /** Without boundaries and anchors an empty match looks at nothing around it. */
  lemma {:induction false} EmptyMatchAnywhere(w: Words, re: Regex, h: seq<scalar>, i: nat)
    requires AnchorFree(re) && BoundaryFree(re) && i <= |h|
    ensures Matches(w, re, h, i, i) <==> Matches(w, re, [], 0, 0)
  {
    match re
    case Concat(a, b) =>
      EmptyMatchAnywhere(w, a, h, i);
      EmptyMatchAnywhere(w, b, h, i);
      assert Matches(w, re, h, i, i) <==> Matches(w, a, h, i, i) && Matches(w, b, h, i, i);
      assert Matches(w, re, [], 0, 0) <==> Matches(w, a, [], 0, 0) && Matches(w, b, [], 0, 0);
    case Alt(a, b) =>
      EmptyMatchAnywhere(w, a, h, i);
      EmptyMatchAnywhere(w, b, h, i);
    case _ =>
  }

  /** For patterns without word boundaries the guard does rule out empty matches. */
  lemma {:induction false} GuardSufficesWithoutBoundaries(w: Words, re: Regex, h: seq<scalar>)
    requires AnchorFree(re) && BoundaryFree(re) && !Matches(w, re, [], 0, 0)
    ensures NonEmptyMatches(w, re, h)
  {
    forall i, j | 0 <= i <= j <= |h| && Matches(w, re, h, i, j)
      ensures i < j
    {
      EmptyMatchAnywhere(w, re, h, i);
    }
  }
}
