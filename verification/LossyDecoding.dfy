/** UTF-8 repair, its offset table, and the decoding modes of search and indexing. */
module LossyDecoding {
  import opened Bytes
  import opened Utf8

  /** The three bytes of U+FFFD. */
  const REPLACEMENT: seq<byte> := [0xEF, 0xBF, 0xBD]
  const REPLACEMENT_LEN := 3

  lemma ReplacementIsFffd()
    ensures REPLACEMENT == EncodeScalar(0xFFFD) && |REPLACEMENT| == REPLACEMENT_LEN
  {
  }

  /** Where a replacement is in the decoded text, and how much longer than the source the text is past it. */
  datatype Shift = Shift(at: nat, gained: nat)

  /** Bytes one replacement stands in for; a cut-off character at the end is all that is left. */
  function Replaced(s: seq<byte>): (n: nat)
    requires FromUtf8(s).Invalid?
    ensures 1 <= n && FromUtf8(s).validUpTo + n <= |s|
  {
    var v := FromUtf8(s);
    if v.errorLen.Some? then v.errorLen.value else |s| - v.validUpTo
  }

  /** What is left of `s` after its first ill-formed subsequence. */
  function After(s: seq<byte>): (rest: seq<byte>)
    requires FromUtf8(s).Invalid?
    ensures |rest| < |s|
  {
    s[FromUtf8(s).validUpTo + Replaced(s)..]
  }

  /** The repaired text: every ill-formed subsequence becomes one U+FFFD. */
  function Repair(s: seq<byte>): seq<byte>
    decreases |s|
  {
    if FromUtf8(s).Valid? then s
    else s[..FromUtf8(s).validUpTo] + (REPLACEMENT + Repair(After(s)))
  }

  /** The shifts recorded for `s` once `at` bytes are out and `gained` of them were gained. */
  function Shifts(s: seq<byte>, at: nat, gained: nat): seq<Shift>
    decreases |s|
  {
    if FromUtf8(s).Valid? then []
    else
      var v := FromUtf8(s).validUpTo;
      var g := gained + REPLACEMENT_LEN - Min(Replaced(s), REPLACEMENT_LEN);
      [Shift(at + v, g)] + Shifts(After(s), at + v + REPLACEMENT_LEN, g)
  }

  /** Where decoded offset `d` comes from, walking the repaired segments one by one. */
  function SourceOffset(s: seq<byte>, d: nat): nat
    decreases |s|
  {
    if FromUtf8(s).Valid? then d
    else
      var v := FromUtf8(s).validUpTo;
      if d <= v then d
      else if d < v + REPLACEMENT_LEN then v
      else v + Replaced(s) + SourceOffset(After(s), d - (v + REPLACEMENT_LEN))
  }

  /** Decoded offset `d` lies in a replacement. */
  predicate InReplacement(s: seq<byte>, d: nat)
    decreases |s|
  {
    FromUtf8(s).Invalid? &&
    var v := FromUtf8(s).validUpTo;
    v <= d && (d < v + REPLACEMENT_LEN || InReplacement(After(s), d - (v + REPLACEMENT_LEN)))
  }

  /** Decoded offset `d` cuts through a replacement; no character boundary does. */
  predicate InsideReplacement(s: seq<byte>, d: nat)
    decreases |s|
  {
    FromUtf8(s).Invalid? &&
    var v := FromUtf8(s).validUpTo;
    v < d && (d < v + REPLACEMENT_LEN ||
              (d >= v + REPLACEMENT_LEN && InsideReplacement(After(s), d - (v + REPLACEMENT_LEN))))
  }

  /** How many source bytes the replacement at decoded offset `at` stands for, if there is one. */
  function BadBytesAt(s: seq<byte>, at: nat): Option<nat>
    decreases |s|
  {
    if FromUtf8(s).Valid? then None
    else
      var v := FromUtf8(s).validUpTo;
      if at == v then Some(Replaced(s))
      else if at < v + REPLACEMENT_LEN then None
      else BadBytesAt(After(s), at - (v + REPLACEMENT_LEN))
  }

  /** Every replacement in `d..e` stands for as many bytes as it takes up itself. */
  ghost predicate KeepsLength(s: seq<byte>, d: nat, e: nat) {
    forall at :: d <= at && at + REPLACEMENT_LEN <= e ==>
      BadBytesAt(s, at).None? || BadBytesAt(s, at) == Some(REPLACEMENT_LEN)
  }

  /** Source offset `p` is where an ill-formed subsequence starts. */
  predicate StartsBadBytes(s: seq<byte>, p: nat)
    decreases |s|
  {
    FromUtf8(s).Invalid? &&
    var v := FromUtf8(s).validUpTo;
    p == v || (p >= v + Replaced(s) && StartsBadBytes(After(s), p - (v + Replaced(s))))
  }

  /** One segment of the repair. */
  lemma Segment(s: seq<byte>, at: nat, gained: nat)
    requires FromUtf8(s).Invalid?
    ensures var v := FromUtf8(s).validUpTo;
            var g: nat := gained + REPLACEMENT_LEN - Min(Replaced(s), REPLACEMENT_LEN);
            && Repair(s) == s[..v] + (REPLACEMENT + Repair(After(s)))
            && Shifts(s, at, gained) == [Shift(at + v, g)] + Shifts(After(s), at + v + REPLACEMENT_LEN, g)
  {
    hide FromUtf8;
  }

  lemma LastSegment(s: seq<byte>, at: nat, gained: nat)
    requires FromUtf8(s).Valid?
    ensures Repair(s) == s && Shifts(s, at, gained) == []
  {
  }

  /** A dry run of the repair: how long its output will be, and how often it will repair. */
  method LossyUtf8Shape(bytes: seq<byte>) returns (len: nat, repairs: nat)
    ensures len == |Repair(bytes)|
    ensures repairs == |Shifts(bytes, 0, 0)|
  {
    hide FromUtf8, Repair, Shifts;
    var rest, more := bytes, true;
    len, repairs := 0, 0;
    ghost var at: nat, g: nat := 0, 0;
    while more
      invariant len + (if more then |Repair(rest)| else 0) == |Repair(bytes)|
      invariant repairs + (if more then |Shifts(rest, at, g)| else 0) == |Shifts(bytes, 0, 0)|
      decreases more, |rest|
    {
      match FromUtf8(rest) {
        case Valid =>
          LastSegment(rest, at, g);
          len := len + |rest|;
          more := false;
        case Invalid(valid, errorLen) =>
          Segment(rest, at, g);
          ghost var gain := REPLACEMENT_LEN - Min(Replaced(rest), REPLACEMENT_LEN);
          at, g := at + valid + REPLACEMENT_LEN, g + gain;
          len := len + valid + REPLACEMENT_LEN;
          repairs := repairs + 1;
          match errorLen {
            case Some(n) => rest := rest[valid + n..];
            case None =>
              NothingAfter(rest, at, g);
              more := false;
          }
      }
    }
  }

  lemma SegmentSource(s: seq<byte>)
    requires FromUtf8(s).Invalid?
    ensures var (v, e) := (FromUtf8(s).validUpTo, FromUtf8(s).errorLen);
            && Replaced(s) == (if e.Some? then e.value else |s| - v)
            && Min(Replaced(s), REPLACEMENT_LEN) <= REPLACEMENT_LEN
            && After(s) == if e.Some? then s[v + e.value..] else s[|s|..]
  {
  }

  /** A cut-off character ends the input. */
  lemma NothingAfter(s: seq<byte>, at: nat, g: nat)
    requires FromUtf8(s).Invalid? && FromUtf8(s).errorLen.None?
    ensures After(s) == [] && Repair(After(s)) == [] && Shifts(After(s), at, g) == []
  {
  }

  /** What is out so far, and what the rest of the input still yields, make up the whole repair. */
  ghost predicate Repairing(bytes: seq<byte>, out: seq<byte>, rest: seq<byte>, more: bool) {
    out + (if more then Repair(rest) else []) == Repair(bytes)
  }

  ghost predicate Recording(bytes: seq<byte>, shifts: seq<Shift>, rest: seq<byte>, at: nat, gained: nat, more: bool) {
    shifts + (if more then Shifts(rest, at, gained) else []) == Shifts(bytes, 0, 0)
  }

  lemma RepairingStep(bytes: seq<byte>, out: seq<byte>, rest: seq<byte>)
    requires Repairing(bytes, out, rest, true) && FromUtf8(rest).Invalid?
    ensures Repairing(bytes, out + rest[..FromUtf8(rest).validUpTo] + REPLACEMENT, After(rest), FromUtf8(rest).errorLen.Some?)
  {
    hide FromUtf8, Repair, After;
    var valid, todo := rest[..FromUtf8(rest).validUpTo], Repair(After(rest));
    Segment(rest, 0, 0);
    ConcatAssoc(out, valid, REPLACEMENT + todo);
    ConcatAssoc(out + valid, REPLACEMENT, todo);
    if FromUtf8(rest).errorLen.None? {
      NothingAfter(rest, 0, 0);
    }
  }

  lemma RecordingStep(bytes: seq<byte>, shifts: seq<Shift>, rest: seq<byte>, at: nat, gained: nat)
    requires Recording(bytes, shifts, rest, at, gained, true) && FromUtf8(rest).Invalid?
    ensures var v := FromUtf8(rest).validUpTo;
            var g: nat := gained + REPLACEMENT_LEN - Min(Replaced(rest), REPLACEMENT_LEN);
            Recording(bytes, shifts + [Shift(at + v, g)], After(rest), at + v + REPLACEMENT_LEN, g, FromUtf8(rest).errorLen.Some?)
  {
    hide FromUtf8, Shifts, After, Replaced;
    var v := FromUtf8(rest).validUpTo;
    var g: nat := gained + REPLACEMENT_LEN - Min(Replaced(rest), REPLACEMENT_LEN);
    Segment(rest, at, gained);
    ConcatAssoc(shifts, [Shift(at + v, g)], Shifts(After(rest), at + v + REPLACEMENT_LEN, g));
    if FromUtf8(rest).errorLen.None? {
      NothingAfter(rest, at + v + REPLACEMENT_LEN, g);
    }
  }

  lemma RepairingEnds(bytes: seq<byte>, out: seq<byte>, rest: seq<byte>)
    ensures Repairing(bytes, [], bytes, true)
    ensures Repairing(bytes, out, rest, true) && FromUtf8(rest).Valid? ==> Repairing(bytes, out + rest, rest, false)
    ensures Repairing(bytes, out, rest, false) ==> out == Repair(bytes)
  {
    hide FromUtf8;
    assert [] + Repair(bytes) == Repair(bytes);
    assert (out + rest) + [] == out + rest && out + [] == out;
  }

  lemma RecordingEnds(bytes: seq<byte>, shifts: seq<Shift>, rest: seq<byte>, at: nat, gained: nat)
    ensures Recording(bytes, [], bytes, 0, 0, true)
    ensures Recording(bytes, shifts, rest, at, gained, true) && FromUtf8(rest).Valid? ==>
              forall end: nat :: Recording(bytes, shifts, rest, end, gained, false)
    ensures Recording(bytes, shifts, rest, at, gained, false) ==> shifts == Shifts(bytes, 0, 0)
  {
    hide FromUtf8;
    assert [] + Shifts(bytes, 0, 0) == Shifts(bytes, 0, 0);
    assert shifts + [] == shifts;
  }

  /** The repair loop. `record` is off for indexing, which needs no offset table. */
  method LossyUtf8Into(bytes: seq<byte>, record: bool) returns (out: seq<byte>, shifts: seq<Shift>)
    ensures out == Repair(bytes)
    ensures shifts == if record then Shifts(bytes, 0, 0) else []
  {
    hide FromUtf8, Repair, Shifts, After, Replaced, Min, Repairing, Recording;
    if FromUtf8(bytes).Valid? {
      LastSegment(bytes, 0, 0);
      return bytes, [];
    }
    var outLen, repairs := LossyUtf8Shape(bytes);
    var rest, more := bytes, true;
    var gained: nat := 0;
    out, shifts := [], [];
    RepairingEnds(bytes, [], bytes);
    RecordingEnds(bytes, [], bytes, 0, 0);
    while more
      invariant Repairing(bytes, out, rest, more)
      invariant if record then Recording(bytes, shifts, rest, |out|, gained, more) else shifts == []
      decreases more, |rest|
    {
      match FromUtf8(rest) {
        case Valid =>
          RepairingEnds(bytes, out, rest);
          RecordingEnds(bytes, shifts, rest, |out|, gained);
          out := out + rest;
          more := false;
        case Invalid(valid, errorLen) =>
          RepairingStep(bytes, out, rest);
          SegmentSource(rest);
          var replaced := if errorLen.Some? then errorLen.value else |rest| - valid;
          ghost var at := |out|;
          out := out + rest[..valid];
          if record {
            RecordingStep(bytes, shifts, rest, at, gained);
            gained := gained + (REPLACEMENT_LEN - Min(replaced, REPLACEMENT_LEN));
            shifts := shifts + [Shift(|out|, gained)];
          }
          out := out + REPLACEMENT;
          match errorLen {
            case Some(n) => rest := rest[valid + n..];
            case None =>
              rest := rest[|rest|..];
              more := false;
          }
      }
    }
    RepairingEnds(bytes, out, rest);
    RecordingEnds(bytes, shifts, rest, |out|, gained);
    // The sizing pass and the repair loop agree.
    assert |out| == outLen && (record ==> |shifts| == repairs);
  }

  /** `partition_point` for entries below `decoded` in an ascending table. */
  function PartitionPoint(shifts: seq<Shift>, decoded: nat): (i: nat)
    ensures i <= |shifts|
    ensures forall k :: 0 <= k < i ==> shifts[k].at < decoded
    ensures i < |shifts| ==> shifts[i].at >= decoded
  {
    if shifts == [] || shifts[0].at >= decoded then 0 else 1 + PartitionPoint(shifts[1..], decoded)
  }

  /** An `int`, so that a subtraction that would underflow shows. */
  function ToSourceOffset(shifts: seq<Shift>, decoded: nat): int {
    var i := PartitionPoint(shifts, decoded);
    if i == 0 then decoded
    else
      var Shift(at, gained) := shifts[i - 1];
      var gainedBefore := if i >= 2 then shifts[i - 2].gained else 0;
      if decoded < at + REPLACEMENT_LEN then at - gainedBefore else decoded - gained
  }

  /** Every shift lies at or after `at`. */
  lemma {:induction false} ShiftsFrom(s: seq<byte>, at: nat, g: nat)
    ensures forall k :: 0 <= k < |Shifts(s, at, g)| ==> Shifts(s, at, g)[k].at >= at
    decreases |s|
  {
    hide FromUtf8;
    if FromUtf8(s).Invalid? {
      var v := FromUtf8(s).validUpTo;
      ShiftsFrom(After(s), at + v + REPLACEMENT_LEN, g + REPLACEMENT_LEN - Min(Replaced(s), REPLACEMENT_LEN));
    }
  }

  lemma {:induction false} PartitionPointSkips(pre: seq<Shift>, shifts: seq<Shift>, decoded: nat)
    requires forall k :: 0 <= k < |pre| ==> pre[k].at < decoded
    ensures PartitionPoint(pre + shifts, decoded) == |pre| + PartitionPoint(shifts, decoded)
  {
    if pre == [] {
      assert pre + shifts == shifts;
    } else {
      assert (pre + shifts)[1..] == pre[1..] + shifts;
      PartitionPointSkips(pre[1..], shifts, decoded);
    }
  }

  lemma ReplacedIsShort(s: seq<byte>)
    requires FromUtf8(s).Invalid?
    ensures Replaced(s) <= REPLACEMENT_LEN
  {
    hide FromUtf8, WellFormed, Incomplete, IsChar;
    FromUtf8Rejects(s);
  }

  /** The recorded shifts end at or before `at`, where `g` bytes have been gained. */
  ghost predicate EndsAt(pre: seq<Shift>, at: nat, g: nat) {
    && (forall k :: 0 <= k < |pre| ==> pre[k].at + REPLACEMENT_LEN <= at)
    && g == if pre == [] then 0 else pre[|pre| - 1].gained
  }

  lemma LookupBetween(pre: seq<Shift>, table: seq<Shift>, at: nat, g: nat, decoded: nat)
    requires EndsAt(pre, at, g) && at <= decoded
    requires PartitionPoint(table, decoded) == 0
    ensures ToSourceOffset(pre + table, decoded) == decoded - g
  {
    hide PartitionPoint;
    PartitionPointSkips(pre, table, decoded);
  }

  lemma LookupInside(pre: seq<Shift>, table: seq<Shift>, at: nat, g: nat, decoded: nat)
    requires EndsAt(pre, at, g) && at <= decoded
    requires PartitionPoint(table, decoded) == 1 && decoded < table[0].at + REPLACEMENT_LEN
    ensures ToSourceOffset(pre + table, decoded) == table[0].at - g
  {
    hide PartitionPoint;
    PartitionPointSkips(pre, table, decoded);
    assert (pre + table)[|pre|] == table[0];
  }

  /** The table lookup agrees with the walk, behind any shifts already recorded. */
  lemma {:induction false} LookupFrom(s: seq<byte>, pre: seq<Shift>, at: nat, g: nat, d: nat)
    requires EndsAt(pre, at, g)
    ensures ToSourceOffset(pre + Shifts(s, at, g), at + d) == at - g + SourceOffset(s, d)
    decreases |s|
  {
    hide FromUtf8, PartitionPoint, Shifts, After, Replaced, ToSourceOffset;
    var table := Shifts(s, at, g);
    if FromUtf8(s).Valid? {
      LastSegment(s, at, g);
      LookupBetween(pre, table, at, g, at + d);
    } else {
      var v := FromUtf8(s).validUpTo;
      ReplacedIsShort(s);
      Segment(s, at, g);
      var g': nat := g + REPLACEMENT_LEN - Min(Replaced(s), REPLACEMENT_LEN);
      var tail := Shifts(After(s), at + v + REPLACEMENT_LEN, g');
      if d >= v + REPLACEMENT_LEN {
        ConcatAssoc(pre, [Shift(at + v, g')], tail);
        LookupFrom(After(s), pre + [Shift(at + v, g')], at + v + REPLACEMENT_LEN, g', d - (v + REPLACEMENT_LEN));
      } else if d > v {
        ShiftsFrom(After(s), at + v + REPLACEMENT_LEN, g');
        assert |tail| > 0 ==> table[1] == tail[0];
        LookupInside(pre, table, at, g, at + d);
      } else {
        LookupBetween(pre, table, at, g, at + d);
      }
    }
  }

  /** `to_source_offset` inverts the repair, segment by segment, for every decoded offset. */
  lemma ToSourceOffsetInverts(s: seq<byte>, d: nat)
    ensures ToSourceOffset(Shifts(s, 0, 0), d) == SourceOffset(s, d)
  {
    hide FromUtf8, Shifts, SourceOffset, ToSourceOffset;
    LookupFrom(s, [], 0, 0, d);
    assert [] + Shifts(s, 0, 0) == Shifts(s, 0, 0);
  }

  lemma {:induction false} SourceOffsetMonotone(s: seq<byte>, d: nat, e: nat)
    requires d <= e
    ensures SourceOffset(s, d) <= SourceOffset(s, e)
    decreases |s|
  {
    hide FromUtf8;
    if FromUtf8(s).Invalid? {
      var skip := FromUtf8(s).validUpTo + REPLACEMENT_LEN;
      if d >= skip {
        SourceOffsetMonotone(After(s), d - skip, e - skip);
      }
    }
  }

  /** Offsets stay inside the source and lead back to the byte they came from. */
  lemma {:induction false} SourceOffsetFaithful(s: seq<byte>, d: nat)
    requires d <= |Repair(s)|
    ensures SourceOffset(s, d) <= |s|
    ensures InReplacement(s, d) ==> StartsBadBytes(s, SourceOffset(s, d))
    ensures d < |Repair(s)| && !InReplacement(s, d) ==>
              SourceOffset(s, d) < |s| && Repair(s)[d] == s[SourceOffset(s, d)]
    decreases |s|
  {
    hide FromUtf8;
    if FromUtf8(s).Invalid? {
      var v := FromUtf8(s).validUpTo;
      if d >= v + REPLACEMENT_LEN {
        SourceOffsetFaithful(After(s), d - (v + REPLACEMENT_LEN));
      }
    }
  }

  /** The two ends are mapped to the two ends. */
  lemma {:induction false} SourceOffsetAtEnd(s: seq<byte>)
    ensures SourceOffset(s, 0) == 0 && SourceOffset(s, |Repair(s)|) == |s|
    decreases |s|
  {
    hide FromUtf8;
    if FromUtf8(s).Invalid? {
      SourceOffsetAtEnd(After(s));
    }
  }

  lemma {:induction false} BadBytesAreReplaced(s: seq<byte>, at: nat)
    requires BadBytesAt(s, at).Some?
    ensures InReplacement(s, at)
    decreases |s|
  {
    hide FromUtf8;
    var skip := FromUtf8(s).validUpTo + REPLACEMENT_LEN;
    if at >= skip {
      BadBytesAreReplaced(After(s), at - skip);
    }
  }

  lemma KeepsLengthAfter(s: seq<byte>, d: nat, e: nat)
    requires FromUtf8(s).Invalid? && FromUtf8(s).validUpTo + REPLACEMENT_LEN <= e
    ensures var v := FromUtf8(s).validUpTo; var skip := v + REPLACEMENT_LEN;
            KeepsLength(s, d, e)
            <==> (d <= v ==> Replaced(s) == REPLACEMENT_LEN)
                 && KeepsLength(After(s), Max(d - skip, 0), e - skip)
  {
    hide FromUtf8;
    var v := FromUtf8(s).validUpTo;
    var skip := v + REPLACEMENT_LEN;
    forall at: nat
      ensures BadBytesAt(After(s), at) == BadBytesAt(s, at + skip)
    {
    }
    assert BadBytesAt(s, v) == Some(Replaced(s));
    if KeepsLength(s, d, e) {
      forall at: nat | Max(d - skip, 0) <= at && at + REPLACEMENT_LEN <= e - skip
        ensures BadBytesAt(After(s), at).None? || BadBytesAt(After(s), at) == Some(REPLACEMENT_LEN)
      {
        assert BadBytesAt(s, at + skip) == BadBytesAt(After(s), at);
      }
    } else {
      var at: nat :| d <= at && at + REPLACEMENT_LEN <= e
                     && !(BadBytesAt(s, at).None? || BadBytesAt(s, at) == Some(REPLACEMENT_LEN));
      if at > v {
        assert BadBytesAt(After(s), at - skip) == BadBytesAt(s, at);
      }
    }
  }

  /**
   * Repairing never shortens: between character boundaries the source is at most as long as the
   * decoded text, and as long exactly when every replacement there keeps the length.
   */
  lemma {:induction false} SourceLength(s: seq<byte>, d: nat, e: nat)
    requires d <= e && !InsideReplacement(s, d) && !InsideReplacement(s, e)
    ensures SourceOffset(s, d) <= SourceOffset(s, e)
    ensures SourceOffset(s, e) - SourceOffset(s, d) <= e - d
    ensures SourceOffset(s, e) - SourceOffset(s, d) == e - d <==> KeepsLength(s, d, e)
    ensures d < e ==> SourceOffset(s, d) < SourceOffset(s, e)
    decreases |s|
  {
    hide FromUtf8, KeepsLength, SourceOffset, InsideReplacement, After, Replaced;
    BoundaryStep(s, d);
    BoundaryStep(s, e);
    if FromUtf8(s).Valid? || e <= FromUtf8(s).validUpTo {
      NothingToKeep(s, d, e);
    } else {
      var skip := FromUtf8(s).validUpTo + REPLACEMENT_LEN;
      ReplacedIsShort(s);
      KeepsLengthAfter(s, d, e);
      SourceOffsetAtEnd(After(s));
      SourceLength(After(s), Max(d - skip, 0), e - skip);
    }
  }

  /** A character boundary lies before the first replacement or behind it. */
  lemma BoundaryStep(s: seq<byte>, d: nat)
    requires !InsideReplacement(s, d)
    ensures var v := FromUtf8(s);
            if v.Valid? || d <= v.validUpTo then SourceOffset(s, d) == d
            else
              var skip := v.validUpTo + REPLACEMENT_LEN;
              && d >= skip && !InsideReplacement(After(s), d - skip)
              && SourceOffset(s, d) == v.validUpTo + Replaced(s) + SourceOffset(After(s), d - skip)
    ensures !InsideReplacement(s, 0)
    ensures FromUtf8(s).Invalid? ==> !InsideReplacement(After(s), 0)
  {
    hide FromUtf8;
  }

  lemma NothingToKeep(s: seq<byte>, d: nat, e: nat)
    requires FromUtf8(s).Valid? || e <= FromUtf8(s).validUpTo
    ensures KeepsLength(s, d, e)
  {
    hide FromUtf8;
  }

  /** Repaired text is always well formed, and repair changes nothing else. */
  lemma {:induction false} RepairIsWellFormed(s: seq<byte>)
    ensures WellFormed(Repair(s))
    ensures Repair(s) == s <==> WellFormed(s)
    decreases |s|
  {
    hide FromUtf8, WellFormed, IsChar, Rejected;
    FromUtf8Accepts(s);
    if FromUtf8(s).Invalid? {
      RepairIsWellFormed(After(s));
      FromUtf8Rejects(s);
      ReplacementIsWellFormed();
      WellFormedConcat(REPLACEMENT, Repair(After(s)));
      WellFormedConcat(s[..FromUtf8(s).validUpTo], REPLACEMENT + Repair(After(s)));
    }
  }

  lemma ReplacementIsWellFormed()
    ensures WellFormed(REPLACEMENT)
  {
    assert IsChar(REPLACEMENT[..3]) && REPLACEMENT[3..] == [];
  }

  /** The longest part at the front of `rest` that starts a character, or a byte that starts none. */
  ghost predicate MaximalSubpart(rest: seq<byte>, n: nat) {
    && 1 <= n <= |rest| && (n == 1 || Incomplete(rest[..n]))
    && forall k :: n < k <= |rest| ==> !Incomplete(rest[..k])
  }

  lemma RejectedPart(rest: seq<byte>, errorLen: Option<nat>)
    requires Rejected(rest, errorLen)
    ensures MaximalSubpart(rest, if errorLen.Some? then errorLen.value else |rest|)
  {
    hide IsChar, WellFormed;
    assert rest[..|rest|] == rest;
  }

  /** What is ill-formed is replaced by one U+FFFD for each maximal subpart; the rest is kept. */
  lemma RepairsMaximalSubparts(s: seq<byte>) returns (v: nat, n: nat)
    requires !WellFormed(s)
    ensures v <= |s| && WellFormed(s[..v]) && !WellFormed(s[v..]) && MaximalSubpart(s[v..], n)
    ensures Repair(s) == s[..v] + EncodeScalar(0xFFFD) + Repair(s[v..][n..])
  {
    hide FromUtf8, WellFormed, Incomplete, EncodeScalar, MaximalSubpart;
    FromUtf8Accepts(s);
    FromUtf8Rejects(s);
    ReplacementIsFffd();
    v, n := FromUtf8(s).validUpTo, Replaced(s);
    RejectedPart(s[v..], FromUtf8(s).errorLen);
    assert s[v..][n..] == s[v + n..];
    ConcatAssoc(s[..v], REPLACEMENT, Repair(After(s)));
  }

  // ---- columns and offsets reported to the user ----

  /** `to_source_columns`: both ends of a 1-based column are mapped before subtracting. */
  function ToSourceColumns(columns: seq<nat>, lineOffset: nat, shifts: seq<Shift>): seq<int>
    requires forall k :: 0 <= k < |columns| ==> columns[k] >= 1
  {
    if shifts == [] then columns
    else seq(|columns|, i requires 0 <= i < |columns| =>
           ToSourceOffset(shifts, lineOffset + columns[i] - 1) - ToSourceOffset(shifts, lineOffset) + 1)
  }

  /** Mapped columns count source bytes from the start of the source line and never go below 1. */
  lemma SourceColumns(s: seq<byte>, columns: seq<nat>, lineOffset: nat)
    requires forall k :: 0 <= k < |columns| ==> columns[k] >= 1
    ensures var mapped := ToSourceColumns(columns, lineOffset, Shifts(s, 0, 0));
            && |mapped| == |columns|
            && forall k :: 0 <= k < |columns| ==>
                 && mapped[k] == SourceOffset(s, lineOffset + columns[k] - 1) - SourceOffset(s, lineOffset) + 1
                 && mapped[k] >= 1
  {
    hide FromUtf8, ToSourceOffset;
    forall k | 0 <= k < |columns|
      ensures ToSourceOffset(Shifts(s, 0, 0), lineOffset + columns[k] - 1) == SourceOffset(s, lineOffset + columns[k] - 1)
      ensures SourceOffset(s, lineOffset + columns[k] - 1) >= SourceOffset(s, lineOffset)
    {
      ToSourceOffsetInverts(s, lineOffset + columns[k] - 1);
      SourceOffsetMonotone(s, lineOffset, lineOffset + columns[k] - 1);
    }
    ToSourceOffsetInverts(s, lineOffset);
  }

  // ---- decoding modes ----

  datatype Encoding = UTF_8 | UTF_16LE | UTF_16BE | Other(id: nat)

  datatype EncodingMode = Auto | NoSniffing | Explicit(encoding: Encoding)

  /** `Cow`: whether decoding hands back part of its input or a new buffer. */
  datatype Cow = Borrowed(body: seq<byte>) | Owned(body: seq<byte>)

  datatype Decoded = Decoded(text: seq<byte>, shifts: seq<Shift>)

  /** The transcoder of the encoding library; its output is a string. */
  type Transcoder = (Encoding, seq<byte>) -> seq<byte>

  ghost predicate YieldsStrings(transcode: Transcoder) {
    forall e: Encoding, b: seq<byte> :: WellFormed(transcode(e, b))
  }

  function ForBom(bytes: seq<byte>): (r: Option<(Encoding, nat)>)
    ensures r.Some? ==> 0 < r.value.1 <= |bytes|
  {
    if |bytes| >= 3 && bytes[..3] == [0xEF, 0xBB, 0xBF] then Some((UTF_8, 3))
    else if |bytes| >= 2 && bytes[..2] == [0xFF, 0xFE] then Some((UTF_16LE, 2))
    else if |bytes| >= 2 && bytes[..2] == [0xFE, 0xFF] then Some((UTF_16BE, 2))
    else None
  }

  function DecodeBytes(bytes: seq<byte>, mode: EncodingMode, transcode: Transcoder): Cow {
    if mode.NoSniffing? || (mode.Auto? && ForBom(bytes).None?) then Borrowed(bytes)
    else
      var (enc, body) :=
        match ForBom(bytes)
        case Some((bomEnc, bomLen)) => (bomEnc, bytes[bomLen..])
        case None => (if mode.Explicit? then mode.encoding else UTF_8, bytes);
      if enc == UTF_8 then Borrowed(body) else Owned(transcode(enc, body))
  }

  function LossyUtf8(body: seq<byte>): Decoded {
    Decoded(Repair(body), Shifts(body, 0, 0))
  }

  function DecodeWithFixups(bytes: seq<byte>, mode: EncodingMode, transcode: Transcoder): Decoded {
    match DecodeBytes(bytes, mode, transcode)
    case Borrowed(body) => LossyUtf8(body)
    case Owned(body) => Decoded(if FromUtf8(body).Valid? then body else Repair(body), [])
  }

  predicate BorrowsWholeInput(bytes: seq<byte>, mode: EncodingMode) {
    match mode
    case NoSniffing => true
    case Auto => ForBom(bytes).None?
    case Explicit(enc) => ForBom(bytes).None? && enc == UTF_8
  }

  function DecodeOwnedWithFixups(bytes: seq<byte>, mode: EncodingMode, transcode: Transcoder): Decoded {
    if !BorrowsWholeInput(bytes, mode) then DecodeWithFixups(bytes, mode, transcode)
    else if FromUtf8(bytes).Valid? then Decoded(bytes, [])
    else LossyUtf8(bytes)
  }

  function DecodeForIndex(bytes: seq<byte>, transcode: Transcoder, isBinary: seq<byte> -> bool): seq<byte> {
    match DecodeBytes(bytes, Auto, transcode)
    case Owned(body) => body
    case Borrowed(body) =>
      if FromUtf8(body).Valid? || isBinary(body) then body else Repair(body)
  }

  /** The byte-order mark: U+FEFF in the encoding it announces. */
  function MarkOf(e: Encoding): seq<byte> {
    match e
    case UTF_8 => EncodeScalar(0xFEFF)
    case UTF_16LE => [0xFEFF % 256, 0xFEFF / 256]
    case UTF_16BE => [0xFEFF / 256, 0xFEFF % 256]
    case Other(_) => []
  }

  predicate StartsWithMark(bytes: seq<byte>, e: Encoding) {
    !e.Other? && MarkOf(e) <= bytes
  }

  lemma MarkBytes()
    ensures MarkOf(UTF_8) == [0xEF, 0xBB, 0xBF] && MarkOf(UTF_16LE) == [0xFF, 0xFE] && MarkOf(UTF_16BE) == [0xFE, 0xFF]
  {
  }

  /** A mark is found exactly where the bytes start with it, and at most one does. */
  lemma ForBomFindsMarks(bytes: seq<byte>, e: Encoding)
    ensures StartsWithMark(bytes, e) <==> ForBom(bytes).Some? && ForBom(bytes).value.0 == e
    ensures StartsWithMark(bytes, e) ==> ForBom(bytes).value.1 == |MarkOf(e)|
  {
    hide MarkOf;
    MarkBytes();
    StartsWith(bytes, MarkOf(UTF_8));
    StartsWith(bytes, MarkOf(UTF_16LE));
    StartsWith(bytes, MarkOf(UTF_16BE));
    assert |bytes| >= 3 ==> bytes[..3][0] == bytes[0];
    assert |bytes| >= 2 ==> bytes[..2][0] == bytes[0];
  }

  lemma StartsWith(bytes: seq<byte>, mark: seq<byte>)
    ensures mark <= bytes <==> |bytes| >= |mark| && bytes[..|mark|] == mark
  {
  }

  lemma NoMark(bytes: seq<byte>)
    ensures ForBom(bytes).None? <==> forall e: Encoding :: !StartsWithMark(bytes, e)
  {
    hide StartsWithMark, ForBom;
    if ForBom(bytes).Some? {
      ForBomFindsMarks(bytes, ForBom(bytes).value.0);
    }
    forall e: Encoding
      ensures StartsWithMark(bytes, e) <==> ForBom(bytes).Some? && ForBom(bytes).value.0 == e
    {
      ForBomFindsMarks(bytes, e);
    }
  }

  /** What `body` decodes to in encoding `e`: UTF-8 is repaired, the rest transcoded. */
  function TextIn(e: Encoding, body: seq<byte>, transcode: Transcoder): Decoded {
    if e.UTF_8? then Decoded(Repair(body), Shifts(body, 0, 0)) else Decoded(transcode(e, body), [])
  }

  /**
   * A mark decides the encoding and is trimmed off; without one a named encoding counts, and UTF-8
   * otherwise. Without sniffing the bytes are UTF-8, mark and all.
   */
  lemma DecodesAs(bytes: seq<byte>, mode: EncodingMode, transcode: Transcoder)
    requires YieldsStrings(transcode)
    ensures var decoded := DecodeWithFixups(bytes, mode, transcode);
            && (mode.NoSniffing? ==> decoded == TextIn(UTF_8, bytes, transcode))
            && (forall e: Encoding :: !mode.NoSniffing? && StartsWithMark(bytes, e) ==>
                  |MarkOf(e)| <= |bytes| && decoded == TextIn(e, bytes[|MarkOf(e)|..], transcode))
            && (!mode.NoSniffing? && (forall e: Encoding :: !StartsWithMark(bytes, e)) ==>
                  decoded == TextIn(if mode.Explicit? then mode.encoding else UTF_8, bytes, transcode))
  {
    hide FromUtf8, Repair, Shifts, StartsWithMark, MarkOf, ForBom, WellFormed;
    NoMark(bytes);
    forall e: Encoding, body: seq<byte>
      ensures FromUtf8(transcode(e, body)).Valid?
    {
      FromUtf8Accepts(transcode(e, body));
    }
    forall e: Encoding | !mode.NoSniffing? && StartsWithMark(bytes, e)
      ensures |MarkOf(e)| <= |bytes|
      ensures DecodeWithFixups(bytes, mode, transcode) == TextIn(e, bytes[|MarkOf(e)|..], transcode)
    {
      ForBomFindsMarks(bytes, e);
    }
  }

  /** A byte-order mark wins over a named encoding; without one, UTF-8 is what `Auto` assumes. */
  lemma BomWins(bytes: seq<byte>, encoding: Encoding, transcode: Transcoder)
    ensures ForBom(bytes).Some? ==>
              DecodeBytes(bytes, Explicit(encoding), transcode) == DecodeBytes(bytes, Auto, transcode)
    ensures ForBom(bytes).None? ==>
              DecodeBytes(bytes, Auto, transcode) == DecodeBytes(bytes, Explicit(UTF_8), transcode)
  {
  }

  /** Reusing the buffer never changes what is decoded: the whole-input test is exact. */
  lemma OwnedDecodingAgrees(bytes: seq<byte>, mode: EncodingMode, transcode: Transcoder)
    ensures DecodeOwnedWithFixups(bytes, mode, transcode) == DecodeWithFixups(bytes, mode, transcode)
    ensures BorrowsWholeInput(bytes, mode) <==> DecodeBytes(bytes, mode, transcode) == Borrowed(bytes)
  {
    hide FromUtf8;
    var bom := ForBom(bytes);
    if bom.Some? {
      assert |bytes[bom.value.1..]| < |bytes|;
    }
  }

  /**
   * In `Auto` mode the index holds exactly the bytes a later search reads, unless the body is
   * ill-formed and classified binary: then, and only then, they differ.
   */
  lemma IndexBytesAreSearchBytes(bytes: seq<byte>, transcode: Transcoder, isBinary: seq<byte> -> bool)
    requires YieldsStrings(transcode)
    ensures var body := DecodeBytes(bytes, Auto, transcode);
            DecodeForIndex(bytes, transcode, isBinary) == DecodeWithFixups(bytes, Auto, transcode).text
            <==> (body.Owned? || WellFormed(body.body) || !isBinary(body.body))
  {
    hide FromUtf8, WellFormed, Repair, ForBom, IsChar;
    var body := DecodeBytes(bytes, Auto, transcode).body;
    FromUtf8Accepts(body);
    RepairIsWellFormed(body);
  }
}
