/** `--replace`: rewriting a line, where the replacements land, and undoing it. */
module Replace {
  import opened Bytes
  import opened Spans

  /** A match and the text its replacement expands to. */
  datatype Expansion = Expansion(start: nat, end: nat, text: seq<byte>)

  /** Matches as the engine enumerates them: in order, non-overlapping, within the line. */
  ghost predicate InLine(es: seq<Expansion>, hay: seq<byte>) {
    && (forall k :: 0 <= k < |es| ==> es[k].start <= es[k].end <= |hay|)
    && (forall i, j :: 0 <= i < j < |es| ==> es[i].end <= es[j].start)
  }

  function LastEnd(es: seq<Expansion>): nat {
    if es == [] then 0 else es[|es| - 1].end
  }

  /** How far the text behind these matches has moved. */
  function Shift(es: seq<Expansion>): int {
    if es == [] then 0
    else
      var e := es[|es| - 1];
      Shift(es[..|es| - 1]) + |e.text| - (e.end - e.start)
  }

  /** The output up to and including the last replacement. */
  function Written(hay: seq<byte>, es: seq<Expansion>): seq<byte> {
    if es == [] then []
    else
      var init, e := es[..|es| - 1], es[|es| - 1];
      Written(hay, init) + (if LastEnd(init) <= e.start <= |hay| then hay[LastEnd(init)..e.start] else []) + e.text
  }

  function Rewritten(hay: seq<byte>, es: seq<Expansion>): seq<byte> {
    Written(hay, es) + if LastEnd(es) <= |hay| then hay[LastEnd(es)..] else []
  }

  /** Where replacement `k` lands. */
  function Landing(es: seq<Expansion>, k: nat): Span
    requires k < |es|
  {
    var at := es[k].start + Shift(es[..k]);
    if at >= 0 then Span(at, at + |es[k].text|) else Span(0, 0)
  }

  function Landings(es: seq<Expansion>): (spans: seq<Span>)
    ensures |spans| == |es|
  {
    seq(|es|, k requires 0 <= k < |es| => Landing(es, k))
  }

  lemma InLinePrefix(es: seq<Expansion>, hay: seq<byte>, k: nat)
    requires InLine(es, hay) && k <= |es|
    ensures InLine(es[..k], hay) && LastEnd(es[..k]) <= |hay|
    ensures k < |es| ==> LastEnd(es[..k]) <= es[k].start
  {
  }

  /** The length of what is written accounts for every byte moved so far. */
  lemma {:induction false} WrittenLength(hay: seq<byte>, es: seq<Expansion>)
    requires InLine(es, hay)
    ensures |Written(hay, es)| == LastEnd(es) + Shift(es)
  {
    if es != [] {
      var n := |es| - 1;
      InLinePrefix(es, hay, n);
      WrittenLength(hay, es[..n]);
    }
  }

  lemma WrittenStep(hay: seq<byte>, es: seq<Expansion>, k: nat)
    requires InLine(es, hay) && k < |es|
    ensures LastEnd(es[..k]) <= es[k].start <= es[k].end <= |hay|
    ensures Written(hay, es[..k + 1]) == Written(hay, es[..k]) + hay[LastEnd(es[..k])..es[k].start] + es[k].text
    ensures Shift(es[..k + 1]) == Shift(es[..k]) + |es[k].text| - (es[k].end - es[k].start)
    ensures LastEnd(es[..k + 1]) == es[k].end
  {
    assert es[..k + 1][..k] == es[..k];
    InLinePrefix(es, hay, k);
  }

  method ReplaceAll(hay: seq<byte>, es: seq<Expansion>) returns (out: seq<byte>, spans: seq<Span>)
    requires InLine(es, hay)
    ensures out == Rewritten(hay, es)
    ensures spans == Landings(es)
  {
    hide Written, Shift;
    out, spans := [], [];
    var last := 0;
    WrittenNothing(hay);
    for k := 0 to |es|
      invariant out == Written(hay, es[..k]) && last == LastEnd(es[..k]) <= |hay|
      invariant |spans| == k && forall i :: 0 <= i < k ==> spans[i] == Landing(es, i)
    {
      var e := es[k];
      WrittenStep(hay, es, k);
      InLinePrefix(es, hay, k);
      WrittenLength(hay, es[..k]);
      out := out + hay[last..e.start];
      var spanStart := |out|;
      out := out + e.text;
      spans := spans + [Span(spanStart, |out|)];
      last := e.end;
    }
    assert es[..|es|] == es;
    out := out + hay[last..];
  }

  lemma WrittenNothing(hay: seq<byte>)
    ensures Written(hay, []) == [] && Shift([]) == 0
  {
  }

  /** The running shift of `-o -r`, one per match. */
  method RunningShifts(es: seq<Expansion>) returns (shifts: seq<int>)
    ensures |shifts| == |es| && forall k :: 0 <= k < |es| ==> shifts[k] == Shift(es[..k])
  {
    shifts := [];
    var shift := 0;
    for k := 0 to |es|
      invariant |shifts| == k && forall i :: 0 <= i < k ==> shifts[i] == Shift(es[..i])
      invariant shift == Shift(es[..k])
    {
      shifts := shifts + [shift];
      assert es[..k + 1][..k] == es[..k];
      shift := shift + |es[k].text| - (es[k].end - es[k].start);
    }
  }

  /** The shifts of the rewritten line: where a replacement landed less where its match was. */
  function ColumnShifts(matches: seq<Span>, landed: seq<Span>): seq<int> {
    seq(|matches|, i requires 0 <= i < |matches| =>
      if i < |landed| then landed[i].start - matches[i].start else 0)
  }

  function MatchSpans(es: seq<Expansion>): (spans: seq<Span>)
    ensures |spans| == |es|
  {
    seq(|es|, k requires 0 <= k < |es| => Span(es[k].start, es[k].end))
  }

  lemma {:induction false} WrittenIsPrefix(hay: seq<byte>, es: seq<Expansion>, k: nat)
    requires InLine(es, hay) && k <= |es|
    ensures Written(hay, es[..k]) <= Rewritten(hay, es)
    decreases |es| - k
  {
    hide Written;
    if k < |es| {
      WrittenStep(hay, es, k);
      WrittenIsPrefix(hay, es, k + 1);
    } else {
      assert es[..k] == es;
    }
  }

  /** Column plus shift is where the replacement really is, on both reporting paths. */
  lemma ShiftsAreDisplacements(hay: seq<byte>, es: seq<Expansion>, k: nat)
    requires InLine(es, hay) && k < |es|
    ensures var out, landed := Rewritten(hay, es), Landings(es)[k];
            && landed.start == es[k].start + Shift(es[..k])
            && ColumnShifts(MatchSpans(es), Landings(es))[k] == Shift(es[..k])
            && landed.start <= landed.end <= |out| && out[landed.start..landed.end] == es[k].text
  {
    hide Written, Shift;
    var w, w' := Written(hay, es[..k]), Written(hay, es[..k + 1]);
    InLinePrefix(es, hay, k);
    WrittenLength(hay, es[..k]);
    WrittenStep(hay, es, k);
    WrittenIsPrefix(hay, es, k + 1);
    var landed := Landing(es, k);
    assert w'[landed.start..] == es[k].text;
    assert Rewritten(hay, es)[..|w'|] == w';
  }

  /** Put the original text back where each replacement landed. */
  function Undo(hay: seq<byte>, es: seq<Expansion>): (back: seq<Expansion>)
    requires forall k :: 0 <= k < |es| ==> es[k].start <= es[k].end <= |hay|
    ensures |back| == |es|
  {
    seq(|es|, k requires 0 <= k < |es| =>
      Expansion(Landing(es, k).start, Landing(es, k).end, hay[es[k].start..es[k].end]))
  }

  lemma UndoEnds(hay: seq<byte>, es: seq<Expansion>, k: nat)
    requires InLine(es, hay) && k <= |es|
    ensures LastEnd(Undo(hay, es)[..k]) == |Written(hay, es[..k])|
  {
    hide Written, Shift;
    if k == 0 {
      WrittenNothing(hay);
      assert es[..0] == [];
    } else {
      InLinePrefix(es, hay, k - 1);
      WrittenLength(hay, es[..k - 1]);
      WrittenStep(hay, es, k - 1);
    }
  }

  /** The replacements' landings are matches of the rewritten line. */
  lemma UndoInLine(hay: seq<byte>, es: seq<Expansion>)
    requires InLine(es, hay)
    ensures InLine(Undo(hay, es), Rewritten(hay, es))
  {
    hide Written, Shift;
    var back := Undo(hay, es);
    forall k | 0 <= k < |back|
      ensures back[k].start <= back[k].end <= |Rewritten(hay, es)|
    {
      ShiftsAreDisplacements(hay, es, k);
    }
    forall i, j | 0 <= i < j < |back|
      ensures back[i].end <= back[j].start
    {
      LandingsApart(hay, es, i, j);
    }
  }

  /** A replacement lands behind everything written before it and ends what is written with it. */
  lemma LandingBounds(hay: seq<byte>, es: seq<Expansion>, k: nat)
    requires InLine(es, hay) && k < |es|
    ensures |Written(hay, es[..k])| <= Landing(es, k).start
    ensures Landing(es, k).end == |Written(hay, es[..k + 1])|
  {
    hide Written, Shift;
    InLinePrefix(es, hay, k);
    WrittenLength(hay, es[..k]);
    WrittenStep(hay, es, k);
  }

  lemma {:induction false} LandingsApart(hay: seq<byte>, es: seq<Expansion>, i: nat, j: nat)
    requires InLine(es, hay) && i < j < |es|
    ensures Landing(es, i).end <= Landing(es, j).start
    decreases j
  {
    hide Written, Landing, InLine;
    LandingBounds(hay, es, j);
    LandingBounds(hay, es, j - 1);
    if i < j - 1 {
      LandingsApart(hay, es, i, j - 1);
      LandingOrder(es, j - 1);
    }
  }

  lemma LandingOrder(es: seq<Expansion>, k: nat)
    requires k < |es|
    ensures Landing(es, k).start <= Landing(es, k).end
  {
    hide Shift;
  }

  lemma {:induction false} UndoWritten(hay: seq<byte>, es: seq<Expansion>, k: nat)
    requires InLine(es, hay) && k <= |es|
    ensures Written(Rewritten(hay, es), Undo(hay, es)[..k]) == hay[..LastEnd(es[..k])]
  {
    hide Written, Shift;
    var out, back := Rewritten(hay, es), Undo(hay, es);
    UndoInLine(hay, es);
    if k == 0 {
      WrittenNothing(out);
      assert back[..0] == [] && es[..0] == [];
    } else {
      var n := k - 1;
      UndoWritten(hay, es, n);
      WrittenStep(out, back, n);
      WrittenStep(hay, es, n);
      UndoEnds(hay, es, n);
      KeptBetween(hay, es, n);
      var last, e := LastEnd(es[..n]), es[n];
      assert hay[..e.end] == hay[..last] + hay[last..e.start] + hay[e.start..e.end];
    }
  }

  /** The text between two matches is carried over as it is. */
  lemma KeptBetween(hay: seq<byte>, es: seq<Expansion>, k: nat)
    requires InLine(es, hay) && k < |es|
    ensures var from, to := |Written(hay, es[..k])|, Landing(es, k).start;
            && from <= to <= |Rewritten(hay, es)| && LastEnd(es[..k]) <= es[k].start <= |hay|
            && Rewritten(hay, es)[from..to] == hay[LastEnd(es[..k])..es[k].start]
  {
    hide Written, Shift;
    InLinePrefix(es, hay, k);
    WrittenLength(hay, es[..k]);
    WrittenStep(hay, es, k);
    WrittenIsPrefix(hay, es, k + 1);
    var w, w' := Written(hay, es[..k]), Written(hay, es[..k + 1]);
    var to := Landing(es, k).start;
    assert w'[|w|..to] == hay[LastEnd(es[..k])..es[k].start];
    assert Rewritten(hay, es)[..|w'|] == w';
    assert Rewritten(hay, es)[|w|..to] == w'[|w|..to];
  }

  lemma TailKept(hay: seq<byte>, es: seq<Expansion>)
    requires InLine(es, hay)
    ensures Rewritten(hay, es)[|Written(hay, es)|..] == hay[LastEnd(es)..] && LastEnd(es) <= |hay|
  {
    hide Written;
  }

  /** Undoing the replacements where they landed restores the line. */
  lemma UndoRestoresLine(hay: seq<byte>, es: seq<Expansion>)
    requires InLine(es, hay)
    ensures InLine(Undo(hay, es), Rewritten(hay, es))
    ensures Rewritten(Rewritten(hay, es), Undo(hay, es)) == hay
  {
    var out, back, n := Rewritten(hay, es), Undo(hay, es), |es|;
    TailKept(hay, es);
    hide Written, Rewritten, InLine, Undo;
    UndoInLine(hay, es);
    UndoWritten(hay, es, n);
    UndoEnds(hay, es, n);
    TailKept(out, back);
    assert back[..n] == back && es[..n] == es;
    RewrittenParts(out, back);
  }

  lemma RewrittenParts(hay: seq<byte>, es: seq<Expansion>)
    requires InLine(es, hay) && LastEnd(es) <= |hay|
    ensures Rewritten(hay, es) == Written(hay, es) + hay[LastEnd(es)..]
  {
    hide Written;
  }
}
