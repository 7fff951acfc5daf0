/** Appending a live overlay of new files to an index, and its agreement with the delta merge. */
module Overlay {
  import opened Bytes
  import opened OnDisk
  import opened IndexImage
  import opened Merging
  import opened MergeMeaning
  import opened StreamingMerge
  import Writers
  import MergeRuns

  /** The no-filter masks overlay postings carry. */
  const ALL_ONES: u8 := 0xFF

  /** Overlay file indices as postings behind `base` files; ids are cut to `u32`. */
  function OverlayList(ks: seq<u32>, base: nat): (ps: seq<Posting>)
    ensures |ps| == |ks|
  {
    seq(|ks|, i requires 0 <= i < |ks| => Posting((base + ks[i]) % (U32_MAX + 1), ALL_ONES, ALL_ONES))
  }

  function ListOf(overlay: map<u32, seq<u32>>, t: u32): seq<u32> {
    if t in overlay then overlay[t] else []
  }

  /** The overlay as a trigram stream in ascending order. */
  function OverlayGroups(overlay: map<u32, seq<u32>>, base: nat): (gs: seq<Group>)
    ensures |gs| == |Writers.KeysFrom(overlay.Keys, 0)|
  {
    var keys := Writers.KeysFrom(overlay.Keys, 0);
    seq(|keys|, i requires 0 <= i < |keys| => Group(keys[i], OverlayList(ListOf(overlay, keys[i]), base)))
  }

  /** The merged index: existing files keep their ids, overlay files follow. */
  function Appended(r: Index, paths: seq<Path>, overlay: map<u32, seq<u32>>): Index {
    Index(r.paths + paths, Zip(r.groups, OverlayGroups(overlay, |r.paths|)))
  }

  predicate IdsFit(ks: seq<u32>, base: nat) {
    forall i :: 0 <= i < |ks| ==> base + ks[i] <= U32_MAX
  }

  predicate OverlayIdsFit(overlay: map<u32, seq<u32>>, base: nat) {
    forall t :: t in overlay ==> IdsFit(overlay[t], base)
  }

  /** Exactly when an append succeeds. */
  ghost predicate AppendAccepts(reader: Reader, paths: seq<Path>, overlay: map<u32, seq<u32>>)
    requires Aligned(reader)
  {
    && |reader.paths| <= U32_MAX && Readable(reader)
    && OverlayIdsFit(overlay, |reader.paths|)
    && ListsFit(Appended(RawIndex(reader), paths, overlay).groups)
    && PathsFit(reader.paths + paths)
  }

  ghost function AppendResult(reader: Reader, paths: seq<Path>, overlay: map<u32, seq<u32>>): Result<Image>
    requires Aligned(reader)
  {
    if AppendAccepts(reader, paths, overlay) then Ok(Encode(Appended(RawIndex(reader), paths, overlay))) else Err
  }

  /** Encode overlay indices with full masks, ids offset by `base`. */
  method OverlayBytes(ks: seq<u32>, base: nat) returns (r: Result<seq<byte>>)
    ensures r == if IdsFit(ks, base) then Ok(EncodePostings(OverlayList(ks, base))) else Err
  {
    hide EncodePostings, OverlayList, IdsFit;
    var out: seq<byte> := [];
    EncodeNothing();
    OverlayNothing(base);
    for i := 0 to |ks|
      invariant out == EncodePostings(OverlayList(ks[..i], base))
      invariant IdsFit(ks[..i], base)
    {
      OverlayOneMore(ks, i, base);
      if base + ks[i] > U32_MAX {
        return Err;
      }
      var entry := Posting(base + ks[i], ALL_ONES, ALL_ONES);
      EncodeOneMore(OverlayList(ks[..i], base), entry);
      out := out + EncodePosting(entry);
    }
    assert ks[..|ks|] == ks;
    return Ok(out);
  }

  lemma OverlayNothing(base: nat)
    ensures OverlayList([], base) == [] && IdsFit([], base)
  {
  }

  lemma OverlayOneMore(ks: seq<u32>, i: nat, base: nat)
    requires i < |ks|
    ensures base + ks[i] > U32_MAX ==> !IdsFit(ks, base)
    ensures base + ks[i] <= U32_MAX && IdsFit(ks[..i], base) ==>
              && IdsFit(ks[..i + 1], base)
              && OverlayList(ks[..i + 1], base)
                 == OverlayList(ks[..i], base) + [Posting(base + ks[i], ALL_ONES, ALL_ONES)]
  {
    assert ks[..i + 1] == ks[..i] + [ks[i]];
  }

  /** Write one trigram: the reader's bytes verbatim, then the overlay's postings. */
  method WriteOverlayTrigram(trigram: u32, readerBytes: Option<seq<byte>>, ks: seq<u32>, base: nat, out: Sinks,
                             ghost done: seq<Group>)
    returns (r: Result<Sinks>)
    requires readerBytes.Some? ==> |readerBytes.value| % POSTING_ENTRY_SIZE == 0
    requires Wrote(done, out)
    ensures var g := Group(trigram, DeltaShare(readerBytes) + OverlayList(ks, base));
            && (r.Ok? <==> |g.postings| <= U32_MAX && IdsFit(ks, base))
            && (r.Ok? ==> Wrote(done + Emit(g), r.value))
  {
    hide DecodePostings, EncodePostings, WriteList, Wrote;
    ghost var list := DeltaShare(readerBytes);
    ghost var g := Group(trigram, list + OverlayList(ks, base));
    EncodePostingsConcat(list, OverlayList(ks, base));
    EncodeNothing();
    var readerLen := if readerBytes.None? then 0 else |readerBytes.value| / POSTING_ENTRY_SIZE;
    var length := readerLen + |ks|;
    if length > U32_MAX {
      return Err;
    }
    if length == 0 {
      assert done + Emit(g) == done;
      return Ok(out);
    }
    WroteOneMore(done, out, g);
    var bytes: seq<byte> := [];
    if readerBytes.Some? {
      PostingsBytesRoundTrip(readerBytes.value);
      bytes := readerBytes.value;
    }
    var overlayOut := OverlayBytes(ks, base);
    if overlayOut.Err? {
      return Err;
    }
    return Ok(WriteList(out, trigram, bytes + overlayOut.value, length));
  }

  /** The first `n` overlay trigrams have ids that fit. */
  ghost predicate CheckedOverlay(keys: seq<u32>, overlay: map<u32, seq<u32>>, n: nat, base: nat) {
    n <= |keys| && forall i :: 0 <= i < n ==> IdsFit(ListOf(overlay, keys[i]), base)
  }

  lemma CheckedWholeOverlay(overlay: map<u32, seq<u32>>, base: nat)
    ensures var keys := Writers.KeysFrom(overlay.Keys, 0);
            CheckedOverlay(keys, overlay, |keys|, base) <==> OverlayIdsFit(overlay, base)
  {
    hide Writers.KeysFrom, IdsFit;
    var keys := Writers.KeysFrom(overlay.Keys, 0);
    Writers.KeysFromListsKeys(overlay.Keys, 0);
    assert forall i :: 0 <= i < |keys| ==> keys[i] in keys;
    if CheckedOverlay(keys, overlay, |keys|, base) {
      forall t | t in overlay
        ensures IdsFit(overlay[t], base)
      {
        var i :| 0 <= i < |keys| && keys[i] == t;
      }
    }
  }

  lemma OverlayCheckFails(keys: seq<u32>, overlay: map<u32, seq<u32>>, i: nat, base: nat)
    requires keys == Writers.KeysFrom(overlay.Keys, 0)
    requires i < |keys| && !IdsFit(ListOf(overlay, keys[i]), base)
    ensures !OverlayIdsFit(overlay, base)
  {
    hide Writers.KeysFrom, IdsFit, OverlayIdsFit;
    CheckedWholeOverlay(overlay, base);
  }

  lemma OverlayStart(keys: seq<u32>, overlay: map<u32, seq<u32>>, base: nat)
    ensures CheckedOverlay(keys, overlay, 0, base)
  {
  }

  lemma CheckedOverlayOneMore(keys: seq<u32>, overlay: map<u32, seq<u32>>, n: nat, base: nat)
    requires CheckedOverlay(keys, overlay, n, base) && n < |keys| && IdsFit(ListOf(overlay, keys[n]), base)
    ensures CheckedOverlay(keys, overlay, n + 1, base)
  {
  }

  /** Why a trigram could not be written decides why the append is refused. */
  lemma RejectOverlayTrigram(reader: Reader, paths: seq<Path>, overlay: map<u32, seq<u32>>, keys: seq<u32>,
                             ri: nat, oi: nat, oi': nat, g: Group, done: seq<Group>)
    requires Aligned(reader) && keys == Writers.KeysFrom(overlay.Keys, 0)
    requires MergedSoFar(RawIndex(reader).groups, OverlayGroups(overlay, |reader.paths|), ri, oi', done + Emit(g))
    requires |g.postings| > U32_MAX || (oi < |keys| && !IdsFit(ListOf(overlay, keys[oi]), |reader.paths|))
    ensures AppendResult(reader, paths, overlay).Err?
  {
    hide MergedSoFar, IdsFit, OverlayIdsFit, OverlayGroups, RawIndex, Writers.KeysFrom, ListsFit, Zip;
    if oi < |keys| && !IdsFit(ListOf(overlay, keys[oi]), |reader.paths|) {
      OverlayCheckFails(keys, overlay, oi, |reader.paths|);
    } else {
      EmittedIsMerged(RawIndex(reader).groups, OverlayGroups(overlay, |reader.paths|), ri, oi', done, g);
      assert RawIndex(reader).paths == reader.paths by { RawPaths(reader); }
    }
  }

  lemma RawPaths(reader: Reader)
    requires Aligned(reader)
    ensures RawIndex(reader).paths == reader.paths
  {
  }

  lemma OverlayTrigrams(reader: Reader, overlay: map<u32, seq<u32>>, base: nat)
    requires Aligned(reader)
    ensures var a, b := RawIndex(reader).groups, OverlayGroups(overlay, base);
            var keys := Writers.KeysFrom(overlay.Keys, 0);
            && |a| == |reader.entries| && (forall i :: 0 <= i < |a| ==> a[i].trigram == reader.entries[i].trigram)
            && |b| == |keys| && (forall i :: 0 <= i < |b| ==> b[i].trigram == keys[i])
  {
    hide DecodePostings, OverlayList, Writers.KeysFrom;
  }

  /** The group a step emits, in terms of the bytes and the overlay list it reads. */
  lemma JoinedOverlay(reader: Reader, overlay: map<u32, seq<u32>>, base: nat, ri: nat, oi: nat,
                      takeReader: bool, takeOverlay: bool)
    requires Aligned(reader) && (takeReader || takeOverlay)
    requires takeReader ==> ri < |reader.entries| && reader.entries[ri].bytes.Some?
    requires takeOverlay ==> oi < |Writers.KeysFrom(overlay.Keys, 0)|
    requires var keys := Writers.KeysFrom(overlay.Keys, 0);
             takeReader && takeOverlay ==> reader.entries[ri].trigram == keys[oi]
    ensures var keys := Writers.KeysFrom(overlay.Keys, 0);
            && |RawIndex(reader).groups| == |reader.entries|
            && Joined(RawIndex(reader).groups, OverlayGroups(overlay, base), ri, oi, takeReader, takeOverlay)
               == Group(if takeReader then reader.entries[ri].trigram else keys[oi],
                        DeltaShare(if takeReader then reader.entries[ri].bytes else None)
                        + OverlayList(if takeOverlay then ListOf(overlay, keys[oi]) else [], base))
  {
    hide DecodePostings, Writers.KeysFrom;
    assert OverlayList([], base) == [];
  }

  method AppendOverlayToIndex(reader: Reader, paths: seq<Path>, overlay: map<u32, seq<u32>>)
    returns (result: Result<Image>)
    requires Aligned(reader)
    ensures result == AppendResult(reader, paths, overlay)
  {
    hide Zip, DecodePostings, IndexBytes, LookupBytes, EncodeFiles, FileTable, IdsBelow, Wrote, MergedSoFar;
    hide ListsFit, PathsFit, Checked, RawIndex, Readable, OverlayList, Writers.KeysFrom, IdsFit, CheckedOverlay;
    hide OverlayIdsFit, AppendResult, OverlayGroups, GroupOf, DeltaShare, ListOf;
    if |reader.paths| > U32_MAX {
      AppendFinished(reader, paths, overlay, []);
      return Err;
    }
    var base := |reader.paths|;
    var keys := Writers.KeysFrom(overlay.Keys, 0);
    ghost var a, b := RawIndex(reader).groups, OverlayGroups(overlay, base);
    OverlayTrigrams(reader, overlay, base);
    RawPaths(reader);
    var ri, oi := 0, 0;
    var out := Sinks([], [], 0);
    ghost var done: seq<Group> := [];
    MergeStart(a, b);
    WroteNothing();
    NothingChecked(reader, false);
    OverlayStart(keys, overlay, base);
    OverlayNothing(base);
    while ri < |reader.entries| || oi < |keys|
      invariant 0 <= ri <= |reader.entries| && 0 <= oi <= |keys|
      invariant MergedSoFar(a, b, ri, oi, done)
      invariant Wrote(done, out) && ListsFit(done)
      invariant Checked(reader, ri, false) && CheckedOverlay(keys, overlay, oi, base)
      decreases |reader.entries| - ri + |keys| - oi
    {
      if ri < |reader.entries| && reader.entries[ri].bytes.None? {
        RejectUnreadable(reader, paths, overlay, ri);
        return Err;
      }
      var trigram;
      var readerBytes: Option<seq<byte>>, ks: seq<u32> := None, [];
      ghost var ri0, oi0 := ri, oi;
      if ri < |reader.entries| && (oi == |keys| || reader.entries[ri].trigram < keys[oi]) {
        trigram, readerBytes := reader.entries[ri].trigram, reader.entries[ri].bytes;
        ri := ri + 1;
      } else if ri == |reader.entries| || keys[oi] < reader.entries[ri].trigram {
        trigram, ks := keys[oi], ListOf(overlay, keys[oi]);
        oi := oi + 1;
      } else {
        trigram, readerBytes, ks := reader.entries[ri].trigram, reader.entries[ri].bytes, ListOf(overlay, keys[oi]);
        ri, oi := ri + 1, oi + 1;
      }
      MergeStep(a, b, ri0, oi0, done, readerBytes.Some?, oi > oi0);
      ghost var g := Group(trigram, DeltaShare(readerBytes) + OverlayList(ks, base));
      JoinedOverlay(reader, overlay, base, ri0, oi0, readerBytes.Some?, oi > oi0);
      var wrote := WriteOverlayTrigram(trigram, readerBytes, ks, base, out, done);
      if wrote.Err? {
        RejectOverlayTrigram(reader, paths, overlay, keys, ri, oi0, oi, g, done);
        return Err;
      }
      if readerBytes.Some? {
        CheckedOneMore(reader, ri0, false);
      }
      if oi > oi0 {
        CheckedOverlayOneMore(keys, overlay, oi0, base);
      }
      FitsOneMore(done, g);
      out := wrote.value;
      done := done + Emit(g);
    }
    MergeEnd(a, b, done);
    AppendFinished(reader, paths, overlay, done);
    WroteAll(done, out);
    var files := WriteFiles(reader.paths + paths);
    if files.Err? {
      return Err;
    }
    return Ok(Image(out.index, out.lookup, files.value));
  }

  lemma RejectUnreadable(reader: Reader, paths: seq<Path>, overlay: map<u32, seq<u32>>, i: nat)
    requires Aligned(reader) && i < |reader.entries| && reader.entries[i].bytes.None?
    ensures AppendResult(reader, paths, overlay).Err?
  {
  }

  /** Once every trigram has been written, only the paths can still be refused. */
  lemma AppendFinished(reader: Reader, paths: seq<Path>, overlay: map<u32, seq<u32>>, done: seq<Group>)
    requires Aligned(reader)
    ensures |reader.paths| > U32_MAX ==> AppendResult(reader, paths, overlay).Err?
    ensures var keys := Writers.KeysFrom(overlay.Keys, 0); var base := |reader.paths|;
            && |reader.paths| <= U32_MAX
            && Checked(reader, |reader.entries|, false) && CheckedOverlay(keys, overlay, |keys|, base)
            && done == Zip(RawIndex(reader).groups, OverlayGroups(overlay, base)) && ListsFit(done)
            ==> AppendResult(reader, paths, overlay)
                == if PathsFit(reader.paths + paths)
                   then Ok(Image(IndexBytes(done), LookupBytes(done), EncodeFiles(FileTable(reader.paths + paths))))
                   else Err
  {
    hide Zip, RawIndex, ListsFit, PathsFit, OverlayGroups, OverlayIdsFit, CheckedOverlay, Checked, Readable;
    hide Writers.KeysFrom, IdsKnown;
    RawPaths(reader);
    CheckedAll(reader, false);
    CheckedWholeOverlay(overlay, |reader.paths|);
  }

  /**
   * For any reader: an append is refused for more than 4294967295 reader files, for posting bytes out of
   * range, for an overlay id that does not fit, for more than 4294967295 postings of a trigram, and for
   * a path of more than 65535 bytes; and for nothing else.
   */
  lemma AppendRefuses(reader: Reader, paths: seq<Path>, overlay: map<u32, seq<u32>>)
    requires Aligned(reader)
    ensures var appended := Appended(RawIndex(reader), paths, overlay);
            AppendResult(reader, paths, overlay).Err?
            <==> || |reader.paths| > 4294967295
                 || (exists i :: 0 <= i < |reader.entries| && reader.entries[i].bytes.None?)
                 || (exists t, k :: t in overlay && 0 <= k < |overlay[t]| && |reader.paths| + overlay[t][k] > 4294967295)
                 || (exists i :: 0 <= i < |appended.groups| && |appended.groups[i].postings| > 4294967295)
                 || (exists i :: 0 <= i < |reader.paths + paths| && |(reader.paths + paths)[i]| > 65535)
  {
    hide Appended, RawIndex;
    OverlayIdsMean(overlay, |reader.paths|);
  }

  lemma OverlayIdsMean(overlay: map<u32, seq<u32>>, base: nat)
    ensures OverlayIdsFit(overlay, base)
       <==> !exists t, k :: t in overlay && 0 <= k < |overlay[t]| && base + overlay[t][k] > 4294967295
  {
    if !OverlayIdsFit(overlay, base) {
      var t :| t in overlay && !IdsFit(overlay[t], base);
      var k :| 0 <= k < |overlay[t]| && base + overlay[t][k] > U32_MAX;
      assert t in overlay && 0 <= k < |overlay[t]|;
    }
  }

  // ---- agreement with the delta merge ----

  /** A delta that holds the overlay's postings, zero-based and with full masks. */
  ghost predicate SamePostings(delta: Reader, paths: seq<Path>, overlay: map<u32, seq<u32>>)
    requires Aligned(delta)
  {
    Readable(delta) && RawIndex(delta) == Index(paths, OverlayGroups(overlay, 0))
  }

  lemma ShiftedOverlay(overlay: map<u32, seq<u32>>, base: nat)
    ensures ShiftGroups(OverlayGroups(overlay, 0), base) == OverlayGroups(overlay, base)
  {
    hide Writers.KeysFrom;
    var gs, shifted := OverlayGroups(overlay, 0), OverlayGroups(overlay, base);
    forall i | 0 <= i < |gs|
      ensures Shifted(gs[i].postings, base) == shifted[i].postings
    {
    }
  }

  lemma AppendedIsMerged(r: Index, paths: seq<Path>, overlay: map<u32, seq<u32>>)
    ensures Appended(r, paths, overlay) == Merged(r, Index(paths, OverlayGroups(overlay, 0)), {})
  {
    hide Zip, OverlayGroups, KeptPaths, ShiftGroups;
    NothingRemoved(r.paths);
    ShiftedOverlay(overlay, |r.paths|);
  }

  /**
   * Appending writes the same three files as merging a delta with the same postings and nothing
   * removed. The merge also checks the file count and the delta's ids, and nothing else separates
   * the two.
   */
  lemma AppendAgreesWithMerge(reader: Reader, delta: Reader, paths: seq<Path>, overlay: map<u32, seq<u32>>)
    requires Aligned(reader) && Aligned(delta) && SamePostings(delta, paths, overlay)
    ensures MergeResult(reader, delta, {}).Ok? ==> AppendResult(reader, paths, overlay) == MergeResult(reader, delta, {})
    ensures MergeResult(reader, delta, {}).Ok?
       <==> && AppendResult(reader, paths, overlay).Ok?
            && |reader.paths| + |paths| <= U32_MAX && IdsKnown(RawIndex(delta))
  {
    hide Appended, Merged, ListsFit, PathsFit, OverlayGroups, KeptPaths, Readable;
    hide IdsKnown, OverlayIdsFit, RawIndex, Encode;
    RawPaths(reader);
    RawPaths(delta);
    NothingRemoved(reader.paths);
    AppendedIsMerged(RawIndex(reader), paths, overlay);
    MergedPathList(RawIndex(reader), RawIndex(delta));
    if IdsKnown(RawIndex(delta)) && |reader.paths| + |paths| <= U32_MAX {
      KnownIdsFit(overlay, paths, |reader.paths|);
    }
  }

  lemma MergedPathList(r: Index, d: Index)
    ensures Merged(r, d, {}).paths == r.paths + d.paths
  {
    hide KeptPaths, Zip;
    NothingRemoved(r.paths);
  }

  lemma KnownIdsFit(overlay: map<u32, seq<u32>>, paths: seq<Path>, base: nat)
    requires IdsKnown(Index(paths, OverlayGroups(overlay, 0))) && base + |paths| <= U32_MAX
    ensures OverlayIdsFit(overlay, base)
  {
    hide Writers.KeysFrom;
    var keys, gs := Writers.KeysFrom(overlay.Keys, 0), OverlayGroups(overlay, 0);
    Writers.KeysFromListsKeys(overlay.Keys, 0);
    forall t | t in overlay
      ensures IdsFit(overlay[t], base)
    {
      var i :| 0 <= i < |keys| && keys[i] == t;
      assert IdsBelow(gs[i].postings, |paths|);
      assert forall k :: 0 <= k < |overlay[t]| ==> gs[i].postings[k].fileId == overlay[t][k];
    }
  }

  // ---- what an append means ----

  /** Sorted, zero-based file indices under every trigram, as the caller hands them over. */
  ghost predicate GoodOverlay(overlay: map<u32, seq<u32>>, files: nat) {
    forall t :: t in overlay ==>
      && t < 0x100_0000 && overlay[t] != []
      && (forall i, j :: 0 <= i < j < |overlay[t]| ==> overlay[t][i] < overlay[t][j])
      && (forall i :: 0 <= i < |overlay[t]| ==> overlay[t][i] < files)
  }

  /** The trigrams whose list names file `i`, each with masks that let every query pass. */
  ghost function TrigramsNaming(overlay: map<u32, seq<u32>>, i: nat): map<u32, Masks> {
    map t | t in overlay && i in overlay[t] :: Masks(255, 255)
  }

  /** What the overlay says about its files. */
  ghost function OverlayContents(paths: seq<Path>, overlay: map<u32, seq<u32>>): map<Path, map<u32, Masks>>
    requires Distinct(paths)
  {
    map i | 0 <= i < |paths| :: paths[i] := TrigramsNaming(overlay, i)
  }

  lemma {:induction false} MasksInOverlay(ks: seq<u32>, id: nat)
    requires forall i :: 0 <= i < |ks| ==> ks[i] <= U32_MAX
    ensures MasksIn(OverlayList(ks, 0), id) == if id in ks then Some(Masks(255, 255)) else None
  {
    if ks != [] {
      MasksInOverlay(ks[1..], id);
      assert OverlayList(ks, 0)[1..] == OverlayList(ks[1..], 0);
      assert ks == [ks[0]] + ks[1..];
    }
  }

  lemma OverlayIsInverted(overlay: map<u32, seq<u32>>)
    ensures OverlayGroups(overlay, 0)
         == Writers.HashGroups(map t | t in overlay :: OverlayList(overlay[t], 0))
  {
    hide Writers.KeysFrom, OverlayList;
    var inverted: map<u32, seq<Posting>> := map t | t in overlay :: OverlayList(overlay[t], 0);
    assert inverted.Keys == overlay.Keys;
    var keys := Writers.KeysFrom(overlay.Keys, 0);
    Writers.KeysFromListsKeys(overlay.Keys, 0);
    assert forall i :: 0 <= i < |keys| ==> keys[i] in keys;
  }

  lemma OverlayGroupsHold(overlay: map<u32, seq<u32>>, files: nat)
    requires GoodOverlay(overlay, files)
    ensures GoodGroups(OverlayGroups(overlay, 0), files)
    ensures forall t: u32 ::
              PostingsOf(OverlayGroups(overlay, 0), t) == if t in overlay then OverlayList(overlay[t], 0) else []
  {
    hide GoodGroups, PostingsOf, OverlayGroups, Writers.HashGroups, OverlayList, GoodList, GoodOverlay;
    var inverted: map<u32, seq<Posting>> := map t | t in overlay :: OverlayList(overlay[t], 0);
    OverlayIsInverted(overlay);
    Writers.HashGroupsGood(inverted, files);
    forall t | t in inverted
      ensures t < TRIGRAMS && GoodList(inverted[t], files)
    {
      OverlayListIsGood(overlay, files, t);
    }
  }

  lemma OverlayListIsGood(overlay: map<u32, seq<u32>>, files: nat, t: u32)
    requires GoodOverlay(overlay, files) && t in overlay
    ensures t < TRIGRAMS && GoodList(OverlayList(overlay[t], 0), files)
  {
    var ks, list := overlay[t], OverlayList(overlay[t], 0);
    assert forall i :: 0 <= i < |ks| ==> list[i].fileId == ks[i];
  }

  lemma OverlayTrigramsOf(overlay: map<u32, seq<u32>>, files: nat, i: nat)
    requires GoodOverlay(overlay, files)
    ensures TrigramsOf(OverlayGroups(overlay, 0), i) == TrigramsNaming(overlay, i)
  {
    hide OverlayGroups, PostingsOf, OverlayList, MasksIn, TrigramsOf;
    var gs := OverlayGroups(overlay, 0);
    OverlayGroupsHold(overlay, files);
    OverlayNothing(0);
    forall t: u32
      ensures t in TrigramsOf(gs, i) <==> t in TrigramsNaming(overlay, i)
      ensures t in TrigramsOf(gs, i) ==> TrigramsOf(gs, i)[t] == Masks(255, 255)
    {
      TrigramsOfMember(gs, i, t);
      MasksInOverlay(if t in overlay then overlay[t] else [], i);
    }
  }

  lemma OverlayMeans(paths: seq<Path>, overlay: map<u32, seq<u32>>)
    requires GoodPaths(paths) && GoodOverlay(overlay, |paths|)
    ensures var d := Index(paths, OverlayGroups(overlay, 0));
            WellFormedIndex(d) && Meaning(d) == OverlayContents(paths, overlay)
  {
    hide OverlayGroups, GoodGroups, GoodOverlay, TrigramsOf, TrigramsNaming, Storable, Meaning, OverlayContents;
    var d := Index(paths, OverlayGroups(overlay, 0));
    OverlayGroupsHold(overlay, |paths|);
    KeysOfMeaning(d);
    KeysOfContents(paths, overlay);
    forall p | p in paths
      ensures Meaning(d)[p] == OverlayContents(paths, overlay)[p]
    {
      var i :| 0 <= i < |paths| && paths[i] == p;
      MeaningAt(d, i);
      OverlayTrigramsOf(overlay, |paths|, i);
      ContentsAt(paths, overlay, i);
    }
  }

  lemma KeysOfContents(paths: seq<Path>, overlay: map<u32, seq<u32>>)
    requires Distinct(paths)
    ensures forall p :: p in OverlayContents(paths, overlay) <==> p in paths
  {
  }

  lemma ContentsAt(paths: seq<Path>, overlay: map<u32, seq<u32>>, i: nat)
    requires Distinct(paths) && i < |paths|
    ensures paths[i] in OverlayContents(paths, overlay)
    ensures OverlayContents(paths, overlay)[paths[i]] == TrigramsNaming(overlay, i)
  {
  }

  /**
   * Appending brand-new files changes nothing about the others, and gives each new file exactly the
   * trigrams that name it, with all mask bits set.
   */
  lemma AppendIsMapUpdate(r: Index, paths: seq<Path>, overlay: map<u32, seq<u32>>)
    requires WellFormedIndex(r) && GoodPaths(paths) && GoodOverlay(overlay, |paths|)
    requires |r.paths| + |paths| <= U32_MAX
    requires forall p :: p in r.paths ==> p !in paths
    ensures WellFormedIndex(Appended(r, paths, overlay))
    ensures Meaning(Appended(r, paths, overlay)) == Meaning(r) + OverlayContents(paths, overlay)
  {
    hide Appended, Merged, OverlayGroups, KeptPaths, Meaning, GoodGroups, GoodOverlay, OverlayContents, Storable;
    var d := Index(paths, OverlayGroups(overlay, 0));
    OverlayMeans(paths, overlay);
    AppendedIsMerged(r, paths, overlay);
    NothingRemoved(r.paths);
    assert Covers(r, d, {});
    MergeIsMapUpdate(r, d, {});
    assert Meaning(r) - {} == Meaning(r);
  }

  /** From image to image: appending to a written index succeeds and writes what it should mean. */
  lemma AppendOfImage(r: Index, paths: seq<Path>, overlay: map<u32, seq<u32>>)
    requires WellFormedIndex(r) && GoodPaths(paths) && GoodOverlay(overlay, |paths|)
    requires |r.paths| + |paths| <= U32_MAX
    requires forall p :: p in r.paths ==> p !in paths
    ensures Aligned(ReaderOf(r)) && Open(Encode(r)) == Ok(ReaderOf(r))
    ensures exists ix ::
              && WellFormedIndex(ix) && AppendResult(ReaderOf(r), paths, overlay) == Ok(Encode(ix))
              && ix.paths == r.paths + paths && Meaning(ix) == Meaning(r) + OverlayContents(paths, overlay)
  {
    hide Open, ReaderOf, Encode, Appended, Meaning, OverlayContents, GoodGroups, GoodOverlay, Storable, Readable;
    hide ListsFit, PathsFit, OverlayIdsFit, RawIndex;
    OpenEncode(r);
    MergeRuns.RawIndexReadsBack(r);
    AppendIsMapUpdate(r, paths, overlay);
    var ix := Appended(r, paths, overlay);
    AppendedPaths(r, paths, overlay);
    RawPaths(ReaderOf(r));
    MergeRuns.GoodListsFit(ix.groups, |ix.paths|);
    StorableFit(ix.paths);
    GoodIdsFit(overlay, |paths|, |r.paths|);
    assert AppendResult(ReaderOf(r), paths, overlay) == Ok(Encode(ix));
  }

  lemma AppendedPaths(r: Index, paths: seq<Path>, overlay: map<u32, seq<u32>>)
    ensures Appended(r, paths, overlay).paths == r.paths + paths
  {
  }

  lemma StorableFit(paths: seq<Path>)
    requires GoodPaths(paths)
    ensures PathsFit(paths)
  {
    assert forall i :: 0 <= i < |paths| ==> Storable(paths[i]);
  }

  lemma GoodIdsFit(overlay: map<u32, seq<u32>>, files: nat, base: nat)
    requires GoodOverlay(overlay, files) && base + files <= U32_MAX
    ensures OverlayIdsFit(overlay, base)
  {
  }
}
