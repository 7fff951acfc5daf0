/** Columns and offsets of a match in terms of the source bytes, and of what `--replace` makes of them. */
module Positions {
  import opened Bytes
  import opened Spans
  import opened Utf8
  import opened LossyDecoding
  import opened Replace

  /** `saturating_add_signed`. */
  function SaturatingAddSigned(x: nat, shift: int): nat {
    if x + shift < 0 then 0 else Min(x + shift, U64_MAX)
  }

  /** A column moved by a replacement shift; columns stay 1-based. */
  function Moved(column: nat, shift: int): nat {
    Max(SaturatingAddSigned(column, shift), 1)
  }

  /** How far into the source line offset `d` of the decoded line at `lineOffset` lies. */
  function InSourceLine(s: seq<byte>, lineOffset: nat, d: nat): nat {
    SourceOffsetMonotone(s, lineOffset, lineOffset + d);
    SourceOffset(s, lineOffset + d) - SourceOffset(s, lineOffset)
  }

  method ToSourcePositions(source: seq<byte>, columns: seq<nat>, columnShifts: seq<int>, absoluteOffset: nat,
                           offsetShift: int, lineOffset: nat)
    returns (out: seq<nat>, offset: nat)
    requires forall k :: 0 <= k < |columns| ==> columns[k] >= 1
    ensures |out| == |columns|
    ensures forall k :: 0 <= k < |columns| ==>
              var mapped := InSourceLine(source, lineOffset, columns[k] - 1) + 1;
              out[k] == if k < |columnShifts| then Moved(mapped, columnShifts[k]) else mapped
    ensures offset == SaturatingAddSigned(SourceOffset(source, absoluteOffset), offsetShift)
  {
    hide SourceOffset, Shifts, ToSourceColumns, ToSourceOffset;
    var shifts := Shifts(source, 0, 0);
    SourceColumns(source, columns, lineOffset);
    var mapped := ToSourceColumns(columns, lineOffset, shifts);
    out := [];
    for k := 0 to |columns|
      invariant |out| == k
      invariant forall i :: 0 <= i < k ==>
                  out[i] == if i < |columnShifts| then Moved(mapped[i], columnShifts[i]) else mapped[i]
    {
      out := out + [if k < |columnShifts| then Moved(mapped[k], columnShifts[k]) else mapped[k]];
    }
    ToSourceOffsetInverts(source, absoluteOffset);
    offset := SaturatingAddSigned(ToSourceOffset(shifts, absoluteOffset), offsetShift);
  }

  // ---- positions of replacements ----

  /** The same replacements on the source line. */
  function InSource(s: seq<byte>, lineOffset: nat, es: seq<Expansion>): (back: seq<Expansion>)
    ensures |back| == |es|
  {
    seq(|es|, k requires 0 <= k < |es| =>
      Expansion(InSourceLine(s, lineOffset, es[k].start), InSourceLine(s, lineOffset, es[k].end), es[k].text))
  }

  function SourceLine(s: seq<byte>, lineOffset: nat, len: nat): seq<byte>
    requires lineOffset + len <= |Repair(s)|
  {
    SourceOffsetMonotone(s, lineOffset, lineOffset + len);
    SourceOffsetFaithful(s, lineOffset + len);
    s[SourceOffset(s, lineOffset)..SourceOffset(s, lineOffset + len)]
  }

  lemma SourceLineLength(s: seq<byte>, lineOffset: nat, len: nat)
    requires lineOffset + len <= |Repair(s)|
    ensures |SourceLine(s, lineOffset, len)| == InSourceLine(s, lineOffset, len)
  {
    hide SourceOffset, Repair;
    SourceOffsetFaithful(s, lineOffset + len);
  }

  lemma InSourceLineMonotone(s: seq<byte>, lineOffset: nat, d: nat, e: nat)
    requires d <= e
    ensures InSourceLine(s, lineOffset, d) <= InSourceLine(s, lineOffset, e)
  {
    hide SourceOffset;
    SourceOffsetMonotone(s, lineOffset + d, lineOffset + e);
  }

  /** Matches of the decoded line stay matches of the source line: in order and within it. */
  lemma InSourceInLine(s: seq<byte>, lineOffset: nat, line: seq<byte>, es: seq<Expansion>)
    requires lineOffset + |line| <= |Repair(s)| && InLine(es, line)
    ensures InLine(InSource(s, lineOffset, es), SourceLine(s, lineOffset, |line|))
  {
    hide SourceOffset, Repair, SourceLine, InSourceLine;
    SourceLineLength(s, lineOffset, |line|);
    forall k | 0 <= k < |es|
      ensures InSourceLine(s, lineOffset, es[k].start) <= InSourceLine(s, lineOffset, es[k].end)
      ensures InSourceLine(s, lineOffset, es[k].end) <= InSourceLine(s, lineOffset, |line|)
    {
      InSourceLineMonotone(s, lineOffset, es[k].start, es[k].end);
      InSourceLineMonotone(s, lineOffset, es[k].end, |line|);
    }
    forall i, j | 0 <= i < j < |es|
      ensures InSourceLine(s, lineOffset, es[i].end) <= InSourceLine(s, lineOffset, es[j].start)
    {
      InSourceLineMonotone(s, lineOffset, es[i].end, es[j].start);
    }
  }

  /** No match up to `k`, nor the line itself, starts or ends within a replacement: matches are strings. */
  ghost predicate OnCharacters(s: seq<byte>, lineOffset: nat, es: seq<Expansion>, k: nat) {
    && !InsideReplacement(s, lineOffset)
    && forall i :: 0 <= i <= k && i < |es| ==>
         !InsideReplacement(s, lineOffset + es[i].start) && !InsideReplacement(s, lineOffset + es[i].end)
  }

  /** Every replacement covered by the first `k` matches stands for exactly three bytes. */
  ghost predicate KeepLengths(s: seq<byte>, lineOffset: nat, es: seq<Expansion>, k: nat) {
    forall i :: 0 <= i < k && i < |es| ==> KeepsLength(s, lineOffset + es[i].start, lineOffset + es[i].end)
  }

  /** Everything on the line before match `k` belongs to matches that were replaced by nothing. */
  ghost predicate NothingBefore(es: seq<Expansion>, k: nat)
    requires k < |es|
  {
    && (forall i :: 0 <= i < k ==> es[i].text == [])
    && (forall i :: 0 <= i <= k ==> es[i].start == LastEnd(es[..i]))
  }

  lemma MatchLength(s: seq<byte>, lineOffset: nat, e: Expansion)
    requires e.start <= e.end
    requires !InsideReplacement(s, lineOffset + e.start) && !InsideReplacement(s, lineOffset + e.end)
    ensures var len := InSourceLine(s, lineOffset, e.end) - InSourceLine(s, lineOffset, e.start);
            len <= e.end - e.start
            && (len == e.end - e.start <==> KeepsLength(s, lineOffset + e.start, lineOffset + e.end))
  {
    hide SourceOffset, InsideReplacement, KeepsLength;
    SourceLength(s, lineOffset + e.start, lineOffset + e.end);
  }

  lemma ShiftOneMore(es: seq<Expansion>, k: nat)
    requires k < |es|
    ensures Replace.Shift(es[..k + 1]) == Replace.Shift(es[..k]) + |es[k].text| - (es[k].end - es[k].start)
  {
    assert es[..k + 1][..k] == es[..k];
  }

  /**
   * The shift measured on decoded text is never more than the real one, and is the real one exactly
   * when the matches before cover only replacements of three bytes.
   */
  lemma {:induction false} DecodedShift(s: seq<byte>, lineOffset: nat, line: seq<byte>, es: seq<Expansion>, k: nat)
    requires InLine(es, line) && k <= |es|
    requires OnCharacters(s, lineOffset, es, k)
    ensures var back := InSource(s, lineOffset, es);
            && Replace.Shift(es[..k]) <= Replace.Shift(back[..k])
            && (Replace.Shift(es[..k]) == Replace.Shift(back[..k]) <==> KeepLengths(s, lineOffset, es, k))
  {
    hide InSourceLine, Replace.Shift, KeepsLength, InsideReplacement;
    var back := InSource(s, lineOffset, es);
    if k == 0 {
      assert es[..0] == [] && back[..0] == [];
    } else {
      DecodedShift(s, lineOffset, line, es, k - 1);
      ShiftOneMore(es, k - 1);
      ShiftOneMore(back, k - 1);
      MatchLength(s, lineOffset, es[k - 1]);
      assert KeepLengths(s, lineOffset, es, k)
        <==> KeepLengths(s, lineOffset, es, k - 1)
             && KeepsLength(s, lineOffset + es[k - 1].start, lineOffset + es[k - 1].end);
    }
  }

  /** A replacement lands at the start of its line exactly when nothing is left before it. */
  lemma LandsAtStart(hay: seq<byte>, es: seq<Expansion>, k: nat)
    requires InLine(es, hay) && k < |es|
    ensures Landing(es, k).start == 0 <==> NothingBefore(es, k)
  {
    hide Written, Replace.Shift;
    NothingWritten(hay, es, k);
    InLinePrefix(es, hay, k);
    WrittenLength(hay, es[..k]);
  }

  lemma {:induction false} NothingWritten(hay: seq<byte>, es: seq<Expansion>, k: nat)
    requires InLine(es, hay) && k <= |es|
    ensures Written(hay, es[..k]) == []
       <==> forall i :: 0 <= i < k ==> es[i].text == [] && es[i].start == LastEnd(es[..i])
  {
    hide Written;
    if k == 0 {
      WrittenNothing(hay);
      assert es[..0] == [];
    } else {
      NothingWritten(hay, es, k - 1);
      WrittenStep(hay, es, k - 1);
    }
  }

  /** Whether anything is left before a match is the same on the source line. */
  lemma NothingBeforeInSource(s: seq<byte>, lineOffset: nat, line: seq<byte>, es: seq<Expansion>, k: nat)
    requires InLine(es, line) && k < |es| && OnCharacters(s, lineOffset, es, k)
    ensures NothingBefore(InSource(s, lineOffset, es), k) <==> NothingBefore(es, k)
  {
    hide InSourceLine, InsideReplacement, KeepsLength;
    var back := InSource(s, lineOffset, es);
    forall i | 0 <= i <= k
      ensures back[i].start == LastEnd(back[..i]) <==> es[i].start == LastEnd(es[..i])
    {
      InLinePrefix(es, line, i);
      AtLineStart(s, lineOffset);
      assert LastEnd(back[..i]) == InSourceLine(s, lineOffset, LastEnd(es[..i]));
      SamePlace(s, lineOffset, LastEnd(es[..i]), es[i].start);
    }
  }

  lemma AtLineStart(s: seq<byte>, lineOffset: nat)
    ensures InSourceLine(s, lineOffset, 0) == 0
  {
  }

  lemma SamePlace(s: seq<byte>, lineOffset: nat, d: nat, e: nat)
    requires d <= e && !InsideReplacement(s, lineOffset + d) && !InsideReplacement(s, lineOffset + e)
    ensures InSourceLine(s, lineOffset, d) == InSourceLine(s, lineOffset, e) <==> d == e
  {
    hide SourceOffset, InsideReplacement, KeepsLength;
    SourceLength(s, lineOffset + d, lineOffset + e);
  }

  /**
   * The column and the offset reported for a replacement are those of its text in the rewritten source
   * line if and only if the matches before it cover only replacements of three bytes, or nothing is
   * left before it (and, for the offset, its line is the first).
   */
  lemma ReplacedPositions(s: seq<byte>, lineOffset: nat, line: seq<byte>, es: seq<Expansion>, k: nat)
    requires lineOffset + |line| <= |Repair(s)| && InLine(es, line) && k < |es|
    requires OnCharacters(s, lineOffset, es, k)
    requires |s| + |Rewritten(SourceLine(s, lineOffset, |line|), InSource(s, lineOffset, es))| + 1 < U64_MAX
    ensures var back := InSource(s, lineOffset, es);
            var out, landed := Rewritten(SourceLine(s, lineOffset, |line|), back), Landing(back, k);
            var shift := Replace.Shift(es[..k]);
            && landed.start <= landed.end <= |out| && out[landed.start..landed.end] == es[k].text
            && (Moved(InSourceLine(s, lineOffset, es[k].start) + 1, shift) == landed.start + 1
                <==> KeepLengths(s, lineOffset, es, k) || NothingBefore(es, k))
            && (SaturatingAddSigned(SourceOffset(s, lineOffset + es[k].start), shift)
                == SourceOffset(s, lineOffset) + landed.start
                <==> KeepLengths(s, lineOffset, es, k) || (NothingBefore(es, k) && lineOffset == 0))
  {
    hide SourceOffset, Repair, Replace.Shift, Rewritten, KeepLengths, NothingBefore, InsideReplacement;
    var back := InSource(s, lineOffset, es);
    InSourceInLine(s, lineOffset, line, es);
    ShiftsAreDisplacements(SourceLine(s, lineOffset, |line|), back, k);
    DecodedShift(s, lineOffset, line, es, k);
    LandsAtStart(SourceLine(s, lineOffset, |line|), back, k);
    NothingBeforeInSource(s, lineOffset, line, es, k);
    LineAtStart(s, lineOffset);
    SourceOffsetMonotone(s, lineOffset, lineOffset + |line|);
    SourceOffsetFaithful(s, lineOffset + |line|);
    assert Landings(back)[k] == Landing(back, k);
  }

  lemma LineAtStart(s: seq<byte>, lineOffset: nat)
    requires !InsideReplacement(s, lineOffset)
    ensures SourceOffset(s, lineOffset) == 0 <==> lineOffset == 0
  {
    hide SourceOffset, InsideReplacement, KeepsLength;
    SourceOffsetAtEnd(s);
    NotInside(s);
    SourceLength(s, 0, lineOffset);
  }

  lemma NotInside(s: seq<byte>)
    ensures !InsideReplacement(s, 0)
  {
  }

  /** Matches that cover no repaired byte keep the reported position exact. */
  lemma NoRepairsNoError(s: seq<byte>, lineOffset: nat, es: seq<Expansion>, k: nat)
    requires k <= |es|
    requires forall i, d: nat :: 0 <= i < k && lineOffset + es[i].start <= d < lineOffset + es[i].end ==>
               !InReplacement(s, d)
    ensures KeepLengths(s, lineOffset, es, k)
  {
    hide InReplacement, BadBytesAt;
    forall i, at: nat | 0 <= i < k && lineOffset + es[i].start <= at && at + REPLACEMENT_LEN <= lineOffset + es[i].end
      ensures BadBytesAt(s, at).None?
    {
      if BadBytesAt(s, at).Some? {
        BadBytesAreReplaced(s, at);
      }
    }
  }

  /** Replacing the repaired byte of `FF 61` and then `a`, each by `x`: the second column is reported as 1, not 2. */
  lemma ShortRepairMovesColumn()
    ensures var s: seq<byte> := [0xFF, 0x61];
            var es := [Expansion(0, 3, [0x78]), Expansion(3, 4, [0x78])];
            && InLine(es, Repair(s)) && OnCharacters(s, 0, es, 1)
            && Moved(InSourceLine(s, 0, es[1].start) + 1, Replace.Shift(es[..1])) == 1
            && Landing(InSource(s, 0, es), 1).start + 1 == 2
  {
    var s: seq<byte> := [0xFF, 0x61];
    var es := [Expansion(0, 3, [0x78]), Expansion(3, 4, [0x78])];
    BadByteThenLetter();
    var back := InSource(s, 0, es);
    assert back[..1] == [Expansion(0, 1, [0x78])] && es[..1] == [Expansion(0, 3, [0x78])];
    assert back[..1][..0] == [] && es[..1][..0] == [];
  }

  lemma BadByteThenLetter()
    ensures var s: seq<byte> := [0xFF, 0x61];
            && |Repair(s)| == 4 && SourceOffset(s, 0) == 0 && SourceOffset(s, 3) == 1 && SourceOffset(s, 4) == 2
            && !InsideReplacement(s, 0) && !InsideReplacement(s, 3) && !InsideReplacement(s, 4)
  {
    var s: seq<byte> := [0xFF, 0x61];
    assert FromUtf8(s) == Invalid(0, Some(1));
    assert After(s) == [0x61];
    assert FromUtf8([0x61]).Valid?;
  }
}
