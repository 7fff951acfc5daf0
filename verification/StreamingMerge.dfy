/** The streaming merge of a delta into an index, record by record over the bytes of both. */
module StreamingMerge {
  import opened Bytes
  import opened OnDisk
  import opened IndexImage
  import opened Merging

  // ---- what a reader's bytes stand for ----

  function GroupOf(e: RawEntry): Group
    requires e.bytes.Some? ==> |e.bytes.value| % POSTING_ENTRY_SIZE == 0
  {
    Group(e.trigram, if e.bytes.None? then [] else DecodePostings(e.bytes.value))
  }

  function RawIndex(rd: Reader): Index
    requires Aligned(rd)
  {
    Index(rd.paths, seq(|rd.entries|, i requires 0 <= i < |rd.entries| => GroupOf(rd.entries[i])))
  }

  predicate Readable(rd: Reader) {
    forall i :: 0 <= i < |rd.entries| ==> rd.entries[i].bytes.Some?
  }

  ghost predicate IdsKnown(ix: Index) {
    forall i :: 0 <= i < |ix.groups| ==> IdsBelow(ix.groups[i].postings, |ix.paths|)
  }

  ghost predicate ListsFit(gs: seq<Group>) {
    forall i :: 0 <= i < |gs| ==> |gs[i].postings| <= U32_MAX
  }

  /** Exactly when a merge succeeds. */
  ghost predicate Accepts(reader: Reader, delta: Reader, removed: set<Path>)
    requires Aligned(reader) && Aligned(delta)
  {
    var r, d := RawIndex(reader), RawIndex(delta);
    && |KeptPaths(r.paths, removed)| + |d.paths| <= U32_MAX
    && Readable(reader) && Readable(delta)
    && (removed != {} ==> IdsKnown(r)) && IdsKnown(d)
    && ListsFit(Merged(r, d, removed).groups)
    && PathsFit(Merged(r, d, removed).paths)
  }

  ghost function MergeResult(reader: Reader, delta: Reader, removed: set<Path>): Result<Image>
    requires Aligned(reader) && Aligned(delta)
  {
    if Accepts(reader, delta, removed)
    then Ok(Encode(Merged(RawIndex(reader), RawIndex(delta), removed)))
    else Err
  }

  /**
   * For any two readers: a merge is refused for more than 4294967295 files, for posting bytes out of
   * range, for a file id of the delta, or of the reader when files are removed, that names no file, for
   * more than 4294967295 postings of a trigram, and for a path of more than 65535 bytes; and for nothing else.
   */
  lemma MergeRefuses(reader: Reader, delta: Reader, removed: set<Path>)
    requires Aligned(reader) && Aligned(delta)
    ensures var kept := KeptPaths(reader.paths, removed);
            var merged := Merged(RawIndex(reader), RawIndex(delta), removed);
            MergeResult(reader, delta, removed).Err?
            <==> || |kept| + |delta.paths| > 4294967295
                 || (exists i :: 0 <= i < |reader.entries| && reader.entries[i].bytes.None?)
                 || (exists i :: 0 <= i < |delta.entries| && delta.entries[i].bytes.None?)
                 || (removed != {} && exists i, k :: NamesNoFile(reader, i, k))
                 || (exists i, k :: NamesNoFile(delta, i, k))
                 || (exists i :: 0 <= i < |merged.groups| && |merged.groups[i].postings| > 4294967295)
                 || (exists i :: 0 <= i < |merged.paths| && |merged.paths[i]| > 65535)
  {
    hide KeptPaths, Merged, DecodePostings, NamesNoFile;
    IdsKnownMeans(reader);
    IdsKnownMeans(delta);
  }

  /** Posting `k` of entry `i` names a file the reader does not have. */
  ghost predicate NamesNoFile(rd: Reader, i: int, k: int)
    requires Aligned(rd)
  {
    && 0 <= i < |rd.entries| && rd.entries[i].bytes.Some?
    && var ps := DecodePostings(rd.entries[i].bytes.value);
    0 <= k < |ps| && ps[k].fileId >= |rd.paths|
  }

  lemma IdsKnownMeans(rd: Reader)
    requires Aligned(rd)
    ensures IdsKnown(RawIndex(rd)) <==> forall i, k :: !NamesNoFile(rd, i, k)
  {
    hide DecodePostings;
    var gs := RawIndex(rd).groups;
    if !IdsKnown(RawIndex(rd)) {
      var i :| 0 <= i < |gs| && !IdsBelow(gs[i].postings, |rd.paths|);
      var k :| 0 <= k < |gs[i].postings| && gs[i].postings[k].fileId >= |rd.paths|;
      assert NamesNoFile(rd, i, k);
    }
    forall i, k | NamesNoFile(rd, i, k)
      ensures !IdsKnown(RawIndex(rd))
    {
      assert gs[i].postings[k].fileId >= |rd.paths|;
    }
  }

  // ---- the id map ----

  lemma NoFiles(removed: set<Path>)
    ensures KeptPaths([], removed) == [] && IdMap([], removed) == []
  {
  }

  lemma IdMapOneMore(paths: seq<Path>, removed: set<Path>)
    requires paths != []
    ensures var n := |paths| - 1; var kept := |KeptPaths(paths[..n], removed)|;
            if paths[n] in removed
            then IdMap(paths, removed) == IdMap(paths[..n], removed) + [DROPPED] && |KeptPaths(paths, removed)| == kept
            else IdMap(paths, removed) == IdMap(paths[..n], removed) + [kept] && |KeptPaths(paths, removed)| == kept + 1
  {
  }

  method BuildIdMap(paths: seq<Path>, removed: set<Path>) returns (r: Result<seq<u32>>, base: nat)
    ensures r == if |KeptPaths(paths, removed)| <= U32_MAX then Ok(IdMap(paths, removed)) else Err
    ensures r.Ok? ==> base == |KeptPaths(paths, removed)|
  {
    hide KeptPaths, IdMap;
    var nextId: nat := 0;
    var ids: seq<u32> := [];
    NoFiles(removed);
    for i := 0 to |paths|
      invariant ids == IdMap(paths[..i], removed)
      invariant nextId == |KeptPaths(paths[..i], removed)| <= U32_MAX
    {
      assert paths[..i + 1][..i] == paths[..i];
      IdMapOneMore(paths[..i + 1], removed);
      if paths[i] in removed {
        ids := ids + [DROPPED];
      } else {
        ids := ids + [nextId];
        if nextId + 1 > U32_MAX {
          KeptPathsGrow(paths, removed, i + 1);
          return Err, 0;
        }
        nextId := nextId + 1;
      }
    }
    assert paths[..|paths|] == paths;
    return Ok(ids), nextId;
  }

  // ---- posting bytes, record by record ----

  lemma {:induction false} DecodePostingsAt(b: seq<byte>, k: nat)
    requires |b| % POSTING_ENTRY_SIZE == 0 && POSTING_ENTRY_SIZE * k < |b|
    ensures DecodePostings(b)[k] == DecodePosting(b[POSTING_ENTRY_SIZE * k..POSTING_ENTRY_SIZE * (k + 1)])
    decreases k
  {
    hide DecodePosting;
    if k > 0 {
      var tail := b[POSTING_ENTRY_SIZE..];
      DecodePostingsAt(tail, k - 1);
      assert tail == b[POSTING_ENTRY_SIZE..|b|];
      SliceOfSlice(b, POSTING_ENTRY_SIZE, |b|, POSTING_ENTRY_SIZE * (k - 1), POSTING_ENTRY_SIZE * k);
    }
  }

  /** First pass over a reader list: check every id, count the postings that survive. */
  method CountLive(bytes: seq<byte>, ids: seq<u32>) returns (r: Result<nat>)
    requires |bytes| % POSTING_ENTRY_SIZE == 0
    ensures r == if IdsBelow(DecodePostings(bytes), |ids|) then Ok(|Remapped(DecodePostings(bytes), ids)|) else Err
  {
    hide DecodePosting, DecodePostings;
    ghost var ps := DecodePostings(bytes);
    var live := 0;
    var n := |bytes| / POSTING_ENTRY_SIZE;
    for k := 0 to n
      invariant live == |Remapped(ps[..k], ids)|
      invariant IdsBelow(ps[..k], |ids|)
    {
      DecodePostingsAt(bytes, k);
      assert ps[..k + 1][..k] == ps[..k];
      var oldId := DecodePosting(bytes[POSTING_ENTRY_SIZE * k..POSTING_ENTRY_SIZE * (k + 1)]).fileId;
      if oldId >= |ids| {
        return Err;
      }
      if ids[oldId] != DROPPED {
        live := live + 1;
      }
    }
    assert ps[..n] == ps;
    return Ok(live);
  }

  lemma {:induction false} EncodeOneMore(ps: seq<Posting>, p: Posting)
    ensures EncodePostings(ps + [p]) == EncodePostings(ps) + EncodePosting(p)
  {
    EncodePostingsConcat(ps, [p]);
    assert EncodePostings([p]) == EncodePosting(p) + [];
  }

  /** Second pass: write the surviving postings under their new ids. */
  method RemapBytes(bytes: seq<byte>, ids: seq<u32>) returns (out: seq<byte>)
    requires |bytes| % POSTING_ENTRY_SIZE == 0
    requires IdsBelow(DecodePostings(bytes), |ids|)
    ensures out == EncodePostings(Remapped(DecodePostings(bytes), ids))
  {
    hide DecodePosting, DecodePostings, EncodePostings;
    ghost var ps := DecodePostings(bytes);
    out := [];
    EncodeNothing();
    var n := |bytes| / POSTING_ENTRY_SIZE;
    for k := 0 to n
      invariant out == EncodePostings(Remapped(ps[..k], ids))
    {
      DecodePostingsAt(bytes, k);
      assert ps[..k + 1][..k] == ps[..k];
      var raw := DecodePosting(bytes[POSTING_ENTRY_SIZE * k..POSTING_ENTRY_SIZE * (k + 1)]);
      var newId := ids[raw.fileId];
      if newId != DROPPED {
        EncodeOneMore(Remapped(ps[..k], ids), Posting(newId, raw.locMask, raw.nextMask));
        out := out + (Le(4, newId) + [raw.locMask, raw.nextMask]);
      } else {
        assert Remapped(ps[..k + 1], ids) == Remapped(ps[..k], ids);
      }
    }
    assert ps[..n] == ps;
  }

  lemma EncodeNothing()
    ensures EncodePostings([]) == []
  {
  }

  /** Write the delta's postings behind the reader's files. */
  method ShiftBytes(bytes: seq<byte>, base: nat, files: nat) returns (r: Result<seq<byte>>)
    requires |bytes| % POSTING_ENTRY_SIZE == 0 && base + files <= U32_MAX
    ensures r == if IdsBelow(DecodePostings(bytes), files)
                 then Ok(EncodePostings(Shifted(DecodePostings(bytes), base))) else Err
  {
    hide DecodePosting, DecodePostings, EncodePostings;
    ghost var ps := DecodePostings(bytes);
    var out: seq<byte> := [];
    EncodeNothing();
    var n := |bytes| / POSTING_ENTRY_SIZE;
    for k := 0 to n
      invariant out == EncodePostings(Shifted(ps[..k], base))
      invariant IdsBelow(ps[..k], files)
    {
      DecodePostingsAt(bytes, k);
      assert ps[..k + 1] == ps[..k] + [ps[k]];
      var raw := DecodePosting(bytes[POSTING_ENTRY_SIZE * k..POSTING_ENTRY_SIZE * (k + 1)]);
      if raw.fileId >= files {
        return Err;
      }
      var fileId := base + raw.fileId;
      assert Shifted(ps[..k + 1], base) == Shifted(ps[..k], base) + [Posting(fileId, raw.locMask, raw.nextMask)];
      EncodeOneMore(Shifted(ps[..k], base), Posting(fileId, raw.locMask, raw.nextMask));
      out := out + (Le(4, fileId) + [raw.locMask, raw.nextMask]);
    }
    assert ps[..n] == ps;
    return Ok(out);
  }

  // ---- the output files ----

  /** The two sinks and the running `u64` offset. */
  datatype Sinks = Sinks(index: seq<byte>, lookup: seq<byte>, offset: u64)

  /** The sinks after the groups `done`. */
  ghost predicate Wrote(done: seq<Group>, out: Sinks) {
    && out.index == IndexBytes(done) && out.lookup == LookupBytes(done)
    && out.offset == Offset(done) % (U64_MAX + 1)
  }

  lemma WroteNothing()
    ensures Wrote([], Sinks([], [], 0)) && ListsFit([])
  {
  }

  lemma WroteAll(done: seq<Group>, out: Sinks)
    requires Wrote(done, out)
    ensures out.index == IndexBytes(done) && out.lookup == LookupBytes(done)
  {
  }

  /** The sinks after one more list; its length is cast to `u32`. */
  function WriteList(out: Sinks, trigram: u32, bytes: seq<byte>, length: nat): Sinks {
    Sinks(out.index + bytes,
          out.lookup + EncodeLookup(LookupEntry(trigram, out.offset, length % (U32_MAX + 1))),
          (out.offset + length % (U32_MAX + 1) * POSTING_ENTRY_SIZE) % (U64_MAX + 1))
  }

  lemma WroteOneMore(done: seq<Group>, out: Sinks, g: Group)
    requires Wrote(done, out)
    ensures Wrote(done + [g], WriteList(out, g.trigram, EncodePostings(g.postings), |g.postings|))
  {
    hide EncodePostings, EncodeLookup;
    assert (done + [g])[..|done|] == done;
    AddMod(Offset(done), |g.postings| % (U32_MAX + 1) * POSTING_ENTRY_SIZE);
  }

  lemma AddMod(x: nat, y: nat)
    ensures (x % (U64_MAX + 1) + y) % (U64_MAX + 1) == (x + y) % (U64_MAX + 1)
  {
    var m := U64_MAX + 1;
    var q, s := x / m, (x % m + y) / m;
    assert x + y == m * (q + s) + (x % m + y) % m;
    ModOf(q + s, (x % m + y) % m);
  }

  lemma ModOf(q: nat, r: nat)
    requires r <= U64_MAX
    ensures ((U64_MAX + 1) * q + r) % (U64_MAX + 1) == r
  {
  }

  // ---- one step of the 2-way merge ----

  /** After `ri` reader groups and `di` delta groups, `done` has been written and the rest is to come. */
  ghost predicate MergedSoFar(a: seq<Group>, b: seq<Group>, ri: nat, di: nat, done: seq<Group>) {
    ri <= |a| && di <= |b| && Zip(a, b) == done + Zip(a[ri..], b[di..])
  }

  lemma MergeStart(a: seq<Group>, b: seq<Group>)
    ensures MergedSoFar(a, b, 0, 0, [])
  {
    assert a[0..] == a && b[0..] == b;
  }

  lemma MergeEnd(a: seq<Group>, b: seq<Group>, done: seq<Group>)
    requires MergedSoFar(a, b, |a|, |b|, done)
    ensures Zip(a, b) == done
  {
    assert a[|a|..] == [] && b[|b|..] == [];
  }

  /** The group written when the merge takes the reader's, the delta's or both heads. */
  function Joined(a: seq<Group>, b: seq<Group>, ri: nat, di: nat, takeA: bool, takeB: bool): Group
    requires takeA ==> ri < |a|
    requires takeB ==> di < |b|
    requires takeA || takeB
  {
    Group(if takeA then a[ri].trigram else b[di].trigram,
          (if takeA then a[ri].postings else []) + (if takeB then b[di].postings else []))
  }

  lemma MergeStep(a: seq<Group>, b: seq<Group>, ri: nat, di: nat, done: seq<Group>, takeA: bool, takeB: bool)
    requires MergedSoFar(a, b, ri, di, done) && (ri < |a| || di < |b|)
    requires takeA <==> ri < |a| && (di == |b| || a[ri].trigram <= b[di].trigram)
    requires takeB <==> di < |b| && (ri == |a| || b[di].trigram <= a[ri].trigram)
    ensures MergedSoFar(a, b, if takeA then ri + 1 else ri, if takeB then di + 1 else di,
                        done + Emit(Joined(a, b, ri, di, takeA, takeB)))
  {
    var g := Joined(a, b, ri, di, takeA, takeB);
    var ri', di' := if takeA then ri + 1 else ri, if takeB then di + 1 else di;
    assert ri < |a| ==> a[ri..][1..] == a[ri + 1..] && a[ri..][0] == a[ri];
    assert di < |b| ==> b[di..][1..] == b[di + 1..] && b[di..][0] == b[di];
    assert takeA && !takeB ==> a[ri].postings + [] == a[ri].postings;
    assert takeB && !takeA ==> [] + b[di].postings == b[di].postings;
    assert Zip(a[ri..], b[di..]) == Emit(g) + Zip(a[ri'..], b[di'..]);
    ConcatAssoc(done, Emit(g), Zip(a[ri'..], b[di'..]));
  }

  /** Every group a step emits is one of the merge's groups. */
  lemma EmittedIsMerged(a: seq<Group>, b: seq<Group>, ri: nat, di: nat, done: seq<Group>, g: Group)
    requires MergedSoFar(a, b, ri, di, done + Emit(g)) && |g.postings| > U32_MAX
    ensures !ListsFit(Zip(a, b))
  {
    hide Zip;
    assert Zip(a, b)[|done|] == g;
  }

  // ---- the merge ----

  /** The reader's share of a list: verbatim when nothing is removed, remapped otherwise. */
  function ReaderShare(bytes: Option<seq<byte>>, appendOnly: bool, ids: seq<u32>): seq<Posting>
    requires bytes.Some? ==> |bytes.value| % POSTING_ENTRY_SIZE == 0
  {
    if bytes.None? then []
    else if appendOnly then DecodePostings(bytes.value)
    else Remapped(DecodePostings(bytes.value), ids)
  }

  method ReaderLength(bytes: Option<seq<byte>>, appendOnly: bool, ids: seq<u32>) returns (r: Result<nat>)
    requires bytes.Some? ==> |bytes.value| % POSTING_ENTRY_SIZE == 0
    ensures r == if bytes.Some? && !appendOnly && !IdsBelow(DecodePostings(bytes.value), |ids|) then Err
                 else Ok(|ReaderShare(bytes, appendOnly, ids)|)
  {
    hide DecodePostings, Remapped;
    if bytes.None? {
      return Ok(0);
    }
    if appendOnly {
      return Ok(|bytes.value| / POSTING_ENTRY_SIZE);
    }
    r := CountLive(bytes.value, ids);
  }

  method ReaderBytes(bytes: Option<seq<byte>>, appendOnly: bool, ids: seq<u32>) returns (out: seq<byte>)
    requires bytes.Some? ==> |bytes.value| % POSTING_ENTRY_SIZE == 0
    requires bytes.Some? && !appendOnly ==> IdsBelow(DecodePostings(bytes.value), |ids|)
    ensures out == EncodePostings(ReaderShare(bytes, appendOnly, ids))
  {
    hide DecodePostings, Remapped, EncodePostings;
    if bytes.None? {
      EncodeNothing();
      return [];
    }
    if appendOnly {
      PostingsBytesRoundTrip(bytes.value);
      return bytes.value;
    }
    out := RemapBytes(bytes.value, ids);
  }

  /** The first `n` entries of a reader are readable and, where it matters, name known files. */
  ghost predicate Checked(rd: Reader, n: nat, checkIds: bool)
    requires Aligned(rd)
  {
    n <= |rd.entries| &&
    forall i :: 0 <= i < n ==>
      && rd.entries[i].bytes.Some?
      && (checkIds ==> IdsBelow(GroupOf(rd.entries[i]).postings, |rd.paths|))
  }

  lemma CheckedAll(rd: Reader, checkIds: bool)
    requires Aligned(rd)
    ensures Checked(rd, |rd.entries|, checkIds) <==> Readable(rd) && (checkIds ==> IdsKnown(RawIndex(rd)))
  {
    hide GroupOf, IdsBelow;
    var gs := RawIndex(rd).groups;
    assert forall i :: 0 <= i < |gs| ==> gs[i] == GroupOf(rd.entries[i]);
  }

  lemma CheckFails(rd: Reader, i: nat, checkIds: bool)
    requires Aligned(rd) && i < |rd.entries|
    requires rd.entries[i].bytes.None? || (checkIds && !IdsBelow(GroupOf(rd.entries[i]).postings, |rd.paths|))
    ensures !(Readable(rd) && (checkIds ==> IdsKnown(RawIndex(rd))))
  {
    CheckedAll(rd, checkIds);
  }

  /** The streams the merge walks: the reader's groups as they will be written, and the delta's. */
  function ReaderStream(reader: Reader, removed: set<Path>): seq<Group>
    requires Aligned(reader)
  {
    var r := RawIndex(reader);
    if removed == {} then r.groups else RemapGroups(r.groups, IdMap(r.paths, removed))
  }

  function DeltaStream(delta: Reader, base: nat): seq<Group>
    requires Aligned(delta)
  {
    ShiftGroups(RawIndex(delta).groups, base)
  }

  lemma StreamsAt(reader: Reader, delta: Reader, removed: set<Path>, ids: seq<u32>, base: nat)
    requires Aligned(reader) && Aligned(delta) && ids == IdMap(reader.paths, removed)
    ensures |ReaderStream(reader, removed)| == |reader.entries| && |DeltaStream(delta, base)| == |delta.entries|
    ensures forall i :: 0 <= i < |reader.entries| ==>
              ReaderStream(reader, removed)[i]
              == Group(reader.entries[i].trigram, ReaderShare(reader.entries[i].bytes, removed == {}, ids))
    ensures forall i :: 0 <= i < |delta.entries| ==>
              DeltaStream(delta, base)[i]
              == Group(delta.entries[i].trigram, Shifted(GroupOf(delta.entries[i]).postings, base))
  {
    hide DecodePostings, Remapped, Shifted, IdMap;
    RemappedNothing(ids);
  }

  lemma RemappedNothing(ids: seq<nat>)
    ensures Remapped([], ids) == []
  {
  }

  lemma MergedStreams(reader: Reader, delta: Reader, removed: set<Path>)
    requires Aligned(reader) && Aligned(delta)
    ensures var kept := KeptPaths(reader.paths, removed);
            Merged(RawIndex(reader), RawIndex(delta), removed)
            == Index(kept + delta.paths, Zip(ReaderStream(reader, removed), DeltaStream(delta, |kept|)))
  {
    hide Zip, KeptPaths, IdMap, RemapGroups, ShiftGroups;
  }

  lemma RejectCount(reader: Reader, delta: Reader, removed: set<Path>)
    requires Aligned(reader) && Aligned(delta)
    requires |KeptPaths(reader.paths, removed)| + |delta.paths| > U32_MAX
    ensures MergeResult(reader, delta, removed).Err?
  {
  }

  lemma RejectReader(reader: Reader, delta: Reader, removed: set<Path>, i: nat)
    requires Aligned(reader) && Aligned(delta) && i < |reader.entries|
    requires reader.entries[i].bytes.None?
          || (removed != {} && !IdsBelow(GroupOf(reader.entries[i]).postings, |reader.paths|))
    ensures MergeResult(reader, delta, removed).Err?
  {
    hide KeptPaths, Merged, IdsBelow, GroupOf, IdsKnown, Readable;
    CheckFails(reader, i, removed != {});
  }

  lemma RejectDelta(reader: Reader, delta: Reader, removed: set<Path>, i: nat)
    requires Aligned(reader) && Aligned(delta) && i < |delta.entries|
    requires delta.entries[i].bytes.None? || !IdsBelow(GroupOf(delta.entries[i]).postings, |delta.paths|)
    ensures MergeResult(reader, delta, removed).Err?
  {
    hide KeptPaths, Merged, IdsBelow, GroupOf, IdsKnown, Readable;
    CheckFails(delta, i, true);
  }

  lemma RejectLength(reader: Reader, delta: Reader, removed: set<Path>)
    requires Aligned(reader) && Aligned(delta)
    requires !ListsFit(Zip(ReaderStream(reader, removed), DeltaStream(delta, |KeptPaths(reader.paths, removed)|)))
    ensures MergeResult(reader, delta, removed).Err?
  {
    hide ListsFit, Merged, Zip;
    MergedStreams(reader, delta, removed);
  }

  /** Once every entry has been merged, only the paths can still be refused. */
  lemma MergeFinished(reader: Reader, delta: Reader, removed: set<Path>, done: seq<Group>)
    requires Aligned(reader) && Aligned(delta)
    requires |KeptPaths(reader.paths, removed)| + |delta.paths| <= U32_MAX
    requires Checked(reader, |reader.entries|, removed != {}) && Checked(delta, |delta.entries|, true)
    requires done == Zip(ReaderStream(reader, removed), DeltaStream(delta, |KeptPaths(reader.paths, removed)|))
    requires ListsFit(done)
    ensures var paths := KeptPaths(reader.paths, removed) + delta.paths;
            MergeResult(reader, delta, removed)
            == if PathsFit(paths) then Ok(Image(IndexBytes(done), LookupBytes(done), EncodeFiles(FileTable(paths)))) else Err
  {
    hide ListsFit, Merged, Zip, Checked, IdsKnown, Readable, PathsFit, KeptPaths, ReaderStream, DeltaStream;
    MergedStreams(reader, delta, removed);
    CheckedAll(reader, removed != {});
    CheckedAll(delta, true);
  }

  lemma NothingChecked(rd: Reader, checkIds: bool)
    requires Aligned(rd)
    ensures Checked(rd, 0, checkIds)
  {
  }

  lemma CheckedOneMore(rd: Reader, n: nat, checkIds: bool)
    requires Aligned(rd) && Checked(rd, n, checkIds) && n < |rd.entries|
    requires rd.entries[n].bytes.Some?
    requires checkIds ==> IdsBelow(GroupOf(rd.entries[n]).postings, |rd.paths|)
    ensures Checked(rd, n + 1, checkIds)
  {
  }

  lemma EmptyIdsBelow(ps: seq<Posting>, files: nat)
    requires ps == []
    ensures IdsBelow(ps, files)
  {
  }

  /** The list of one merged trigram is the reader's share followed by the delta's. */
  lemma JoinedList(rs: seq<Posting>, ds: seq<Posting>, base: nat)
    ensures |rs + Shifted(ds, base)| == |rs| + |ds|
    ensures EncodePostings(rs + Shifted(ds, base)) == EncodePostings(rs) + EncodePostings(Shifted(ds, base))
    ensures Shifted([], base) == []
  {
    EncodePostingsConcat(rs, Shifted(ds, base));
  }

  lemma FitsOneMore(done: seq<Group>, g: Group)
    requires ListsFit(done) && |g.postings| <= U32_MAX
    ensures ListsFit(done + Emit(g))
  {
  }

  method FilterPaths(paths: seq<Path>, removed: set<Path>) returns (kept: seq<Path>)
    ensures kept == KeptPaths(paths, removed)
  {
    kept := [];
    for i := 0 to |paths|
      invariant kept == KeptPaths(paths[..i], removed)
    {
      assert paths[..i + 1][..i] == paths[..i];
      if paths[i] !in removed {
        kept := kept + [paths[i]];
      }
    }
    assert paths[..|paths|] == paths;
  }

  function DeltaShare(bytes: Option<seq<byte>>): seq<Posting>
    requires bytes.Some? ==> |bytes.value| % POSTING_ENTRY_SIZE == 0
  {
    if bytes.None? then [] else DecodePostings(bytes.value)
  }

  /** The reader's ids are checked only when they are remapped. */
  ghost predicate ReaderIdsKnown(bytes: Option<seq<byte>>, appendOnly: bool, files: nat)
    requires bytes.Some? ==> |bytes.value| % POSTING_ENTRY_SIZE == 0
  {
    bytes.Some? && !appendOnly ==> IdsBelow(DecodePostings(bytes.value), files)
  }

  method DeltaBytes(bytes: Option<seq<byte>>, base: nat, deltaFiles: nat) returns (r: Result<seq<byte>>)
    requires bytes.Some? ==> |bytes.value| % POSTING_ENTRY_SIZE == 0
    requires base + deltaFiles <= U32_MAX
    ensures r.Ok? <==> IdsBelow(DeltaShare(bytes), deltaFiles)
    ensures r.Ok? ==> r.value == EncodePostings(Shifted(DeltaShare(bytes), base))
  {
    hide DecodePostings, EncodePostings, IdsBelow;
    if bytes.None? {
      EncodeNothing();
      EmptyIdsBelow([], deltaFiles);
      return Ok([]);
    }
    r := ShiftBytes(bytes.value, base, deltaFiles);
  }

  /** Write one merged trigram: its lookup entry, the reader's share and the delta's. */
  method WriteTrigram(trigram: u32, readerBytes: Option<seq<byte>>, deltaBytes: Option<seq<byte>>, appendOnly: bool,
                      ids: seq<u32>, base: nat, deltaFiles: nat, out: Sinks, ghost done: seq<Group>)
    returns (r: Result<Sinks>)
    requires readerBytes.Some? ==> |readerBytes.value| % POSTING_ENTRY_SIZE == 0
    requires deltaBytes.Some? ==> |deltaBytes.value| % POSTING_ENTRY_SIZE == 0
    requires base + deltaFiles <= U32_MAX && Wrote(done, out)
    ensures var g := Group(trigram, ReaderShare(readerBytes, appendOnly, ids) + Shifted(DeltaShare(deltaBytes), base));
            && (r.Ok? <==> && ReaderIdsKnown(readerBytes, appendOnly, |ids|)
                           && |g.postings| <= U32_MAX
                           && IdsBelow(DeltaShare(deltaBytes), deltaFiles))
            && (r.Ok? ==> Wrote(done + Emit(g), r.value))
  {
    hide Remapped, Shifted, DecodePostings, EncodePostings, WriteList, Wrote, ReaderShare, IdsBelow;
    ghost var deltaList := DeltaShare(deltaBytes);
    ghost var readerList := ReaderShare(readerBytes, appendOnly, ids);
    ghost var g := Group(trigram, readerList + Shifted(deltaList, base));
    JoinedList(readerList, deltaList, base);
    var readerLen := ReaderLength(readerBytes, appendOnly, ids);
    if readerLen.Err? {
      return Err;
    }
    var deltaLen := if deltaBytes.None? then 0 else |deltaBytes.value| / POSTING_ENTRY_SIZE;
    var length := readerLen.value + deltaLen;
    if length > U32_MAX {
      return Err;
    }
    if length == 0 {
      EmptyIdsBelow(deltaList, deltaFiles);
      assert done + Emit(g) == done;
      return Ok(out);
    }
    WroteOneMore(done, out, g);
    var readerOut := ReaderBytes(readerBytes, appendOnly, ids);
    var deltaOut := DeltaBytes(deltaBytes, base, deltaFiles);
    if deltaOut.Err? {
      return Err;
    }
    return Ok(WriteList(out, trigram, readerOut + deltaOut.value, length));
  }

  /** Why a trigram could not be written decides why the merge is refused. */
  lemma RejectTrigram(reader: Reader, delta: Reader, removed: set<Path>, ri: nat, di: nat, takeA: bool, takeB: bool,
                      g: Group, done: seq<Group>)
    requires Aligned(reader) && Aligned(delta)
    requires takeA ==> ri < |reader.entries|
    requires takeB ==> di < |delta.entries|
    requires var a := ReaderStream(reader, removed);
             var b := DeltaStream(delta, |KeptPaths(reader.paths, removed)|);
             MergedSoFar(a, b, if takeA then ri + 1 else ri, if takeB then di + 1 else di, done + Emit(g))
    requires || (takeA && removed != {} && !IdsBelow(GroupOf(reader.entries[ri]).postings, |reader.paths|))
             || |g.postings| > U32_MAX
             || (takeB && !IdsBelow(GroupOf(delta.entries[di]).postings, |delta.paths|))
    ensures MergeResult(reader, delta, removed).Err?
  {
    hide ReaderStream, DeltaStream, KeptPaths, MergedSoFar, IdsBelow, GroupOf, MergeResult;
    if takeA && removed != {} && !IdsBelow(GroupOf(reader.entries[ri]).postings, |reader.paths|) {
      RejectReader(reader, delta, removed, ri);
    } else if takeB && !IdsBelow(GroupOf(delta.entries[di]).postings, |delta.paths|) {
      RejectDelta(reader, delta, removed, di);
    } else {
      EmittedIsMerged(ReaderStream(reader, removed), DeltaStream(delta, |KeptPaths(reader.paths, removed)|),
                      if takeA then ri + 1 else ri, if takeB then di + 1 else di, done, g);
      RejectLength(reader, delta, removed);
    }
  }

  method MergeIndexWithDelta(reader: Reader, delta: Reader, removed: set<Path>) returns (result: Result<Image>)
    requires Aligned(reader) && Aligned(delta)
    ensures result == MergeResult(reader, delta, removed)
  {
    hide Zip, Remapped, Shifted, DecodePostings, IndexBytes, LookupBytes, MergeResult;
    hide KeptPaths, IdMap, EncodeFiles, FileTable, IdsBelow, Wrote, MergedSoFar;
    hide ListsFit, PathsFit, ReaderStream, DeltaStream, Checked, ReaderShare;
    var appendOnly := removed == {};
    var idMap, deltaBase := BuildIdMap(reader.paths, removed);
    if idMap.Err? || deltaBase + |delta.paths| > U32_MAX {
      RejectCount(reader, delta, removed);
      return Err;
    }
    var ids := idMap.value;
    ghost var a, b := ReaderStream(reader, removed), DeltaStream(delta, deltaBase);
    StreamsAt(reader, delta, removed, ids, deltaBase);
    var ri, di := 0, 0;
    var out := Sinks([], [], 0);
    ghost var done: seq<Group> := [];
    MergeStart(a, b);
    WroteNothing();
    NothingChecked(reader, !appendOnly);
    NothingChecked(delta, true);
    while ri < |reader.entries| || di < |delta.entries|
      invariant 0 <= ri <= |reader.entries| && 0 <= di <= |delta.entries|
      invariant MergedSoFar(a, b, ri, di, done)
      invariant Wrote(done, out) && ListsFit(done)
      invariant Checked(reader, ri, !appendOnly) && Checked(delta, di, true)
      decreases |reader.entries| - ri + |delta.entries| - di
    {
      if ri < |reader.entries| && reader.entries[ri].bytes.None? {
        RejectReader(reader, delta, removed, ri);
        return Err;
      }
      if di < |delta.entries| && delta.entries[di].bytes.None? {
        RejectDelta(reader, delta, removed, di);
        return Err;
      }
      var trigram;
      var readerBytes: Option<seq<byte>>, deltaBytes: Option<seq<byte>> := None, None;
      ghost var ri0, di0 := ri, di;
      if ri < |reader.entries| && (di == |delta.entries| || reader.entries[ri].trigram < delta.entries[di].trigram) {
        trigram, readerBytes := reader.entries[ri].trigram, reader.entries[ri].bytes;
        ri := ri + 1;
      } else if ri == |reader.entries| || delta.entries[di].trigram < reader.entries[ri].trigram {
        trigram, deltaBytes := delta.entries[di].trigram, delta.entries[di].bytes;
        di := di + 1;
      } else {
        trigram, readerBytes, deltaBytes :=
          reader.entries[ri].trigram, reader.entries[ri].bytes, delta.entries[di].bytes;
        ri, di := ri + 1, di + 1;
      }
      MergeStep(a, b, ri0, di0, done, readerBytes.Some?, deltaBytes.Some?);
      ghost var g := Joined(a, b, ri0, di0, readerBytes.Some?, deltaBytes.Some?);
      JoinedShares(a, b, ri0, di0, reader, delta, appendOnly, ids, deltaBase, trigram, readerBytes, deltaBytes);
      var wrote := WriteTrigram(trigram, readerBytes, deltaBytes, appendOnly, ids, deltaBase, |delta.paths|, out, done);
      if wrote.Err? {
        EmptyIdsBelow([], |delta.paths|);
        RejectTrigram(reader, delta, removed, ri0, di0, readerBytes.Some?, deltaBytes.Some?, g, done);
        return Err;
      }
      if readerBytes.Some? {
        CheckedOneMore(reader, ri0, !appendOnly);
      }
      if deltaBytes.Some? {
        CheckedOneMore(delta, di0, true);
      }
      FitsOneMore(done, g);
      out := wrote.value;
      done := done + Emit(g);
    }
    MergeEnd(a, b, done);
    MergeFinished(reader, delta, removed, done);
    WroteAll(done, out);
    var kept := FilterPaths(reader.paths, removed);
    var files := WriteFiles(kept + delta.paths);
    if files.Err? {
      return Err;
    }
    return Ok(Image(out.index, out.lookup, files.value));
  }

  /** The group a step emits, in terms of the bytes it reads. */
  lemma JoinedShares(a: seq<Group>, b: seq<Group>, ri: nat, di: nat, reader: Reader, delta: Reader, appendOnly: bool,
                     ids: seq<u32>, base: nat, trigram: u32, readerBytes: Option<seq<byte>>, deltaBytes: Option<seq<byte>>)
    requires Aligned(reader) && Aligned(delta)
    requires readerBytes.Some? ==>
               && ri < |reader.entries| == |a| && readerBytes == reader.entries[ri].bytes
               && a[ri] == Group(trigram, ReaderShare(readerBytes, appendOnly, ids))
    requires deltaBytes.Some? ==>
               && di < |delta.entries| == |b| && deltaBytes == delta.entries[di].bytes
               && b[di] == Group(trigram, Shifted(GroupOf(delta.entries[di]).postings, base))
    requires readerBytes.Some? || deltaBytes.Some?
    ensures Joined(a, b, ri, di, readerBytes.Some?, deltaBytes.Some?)
         == Group(trigram, ReaderShare(readerBytes, appendOnly, ids) + Shifted(DeltaShare(deltaBytes), base))
  {
    hide DecodePostings, Remapped;
    assert Shifted([], base) == [];
  }
}
