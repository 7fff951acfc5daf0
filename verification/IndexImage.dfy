/** The three files of an index as one value, how they are read back, and what they mean. */
module IndexImage {
  import opened Bytes
  import opened OnDisk

  type Path = seq<byte>

  /** One trigram and its posting list. */
  datatype Group = Group(trigram: u32, postings: seq<Posting>)

  /** An index before it becomes bytes: file ids are positions in `paths`. */
  datatype Index = Index(paths: seq<Path>, groups: seq<Group>)

  /** `index.bin`, `lookup.bin` and `files.bin`. */
  datatype Image = Image(index: seq<byte>, lookup: seq<byte>, files: seq<byte>)

  /** Number of distinct trigrams: three packed bytes. */
  const TRIGRAMS := 0x100_0000

  // ---- writing ----

  function IndexBytes(gs: seq<Group>): seq<byte> {
    if gs == [] then [] else IndexBytes(gs[..|gs| - 1]) + EncodePostings(gs[|gs| - 1].postings)
  }

  /** The running offset: lengths are cast to `u32` before they are added up. */
  function Offset(gs: seq<Group>): nat {
    if gs == [] then 0
    else Offset(gs[..|gs| - 1]) + |gs[|gs| - 1].postings| % (U32_MAX + 1) * POSTING_ENTRY_SIZE
  }

  /** The lookup entry of `g` when the groups `before` precede it. */
  function EntryAfter(before: seq<Group>, g: Group): LookupEntry {
    LookupEntry(g.trigram, Offset(before) % (U64_MAX + 1), |g.postings| % (U32_MAX + 1))
  }

  function LookupBytes(gs: seq<Group>): (b: seq<byte>)
    ensures |b| == LOOKUP_ENTRY_SIZE * |gs|
  {
    if gs == [] then []
    else LookupBytes(gs[..|gs| - 1]) + EncodeLookup(EntryAfter(gs[..|gs| - 1], gs[|gs| - 1]))
  }

  /** The records of `files.bin`; positions are cast to `u32`. */
  function FileTable(paths: seq<Path>): (es: seq<FileEntry>)
    ensures |es| == |paths|
  {
    seq(|paths|, i requires 0 <= i < |paths| => FileEntry(i % (U32_MAX + 1), paths[i]))
  }

  function Encode(ix: Index): Image {
    Image(IndexBytes(ix.groups), LookupBytes(ix.groups), EncodeFiles(FileTable(ix.paths)))
  }

  predicate PathsFit(paths: seq<Path>) {
    forall i :: 0 <= i < |paths| ==> |paths[i]| <= MAX_PATH_LEN
  }

  method WriteFiles(paths: seq<Path>) returns (r: Result<seq<byte>>)
    ensures r == if PathsFit(paths) then Ok(EncodeFiles(FileTable(paths))) else Err
  {
    hide EncodeFile;
    var sink: seq<byte> := [];
    for id := 0 to |paths|
      invariant sink == EncodeFiles(FileTable(paths[..id]))
      invariant PathsFit(paths[..id])
    {
      assert paths[..id + 1] == paths[..id] + [paths[id]];
      var w := WriteFileEntry(sink, id % (U32_MAX + 1), paths[id]);
      if w.Err? {
        return Err;
      }
      var entry := FileEntry(id % (U32_MAX + 1), paths[id]);
      assert FileTable(paths[..id + 1]) == FileTable(paths[..id]) + [entry];
      EncodeFilesConcat(FileTable(paths[..id]), [entry]);
      assert EncodeFiles([entry]) == EncodeFile(entry) + [];
      sink := w.value;
    }
    assert paths[..|paths|] == paths;
    return Ok(sink);
  }

  // ---- well-formedness ----

  ghost predicate StrictlyAscending(ps: seq<Posting>) {
    forall i, j :: 0 <= i < j < |ps| ==> ps[i].fileId < ps[j].fileId
  }

  ghost predicate AscendingTrigrams(gs: seq<Group>) {
    forall i, j :: 0 <= i < j < |gs| ==> gs[i].trigram < gs[j].trigram
  }

  ghost predicate IdsBelow(ps: seq<Posting>, files: nat) {
    forall i :: 0 <= i < |ps| ==> ps[i].fileId < files
  }

  /** No empty list, ascending ids, every id names a file. */
  ghost predicate GoodList(ps: seq<Posting>, files: nat) {
    ps != [] && StrictlyAscending(ps) && IdsBelow(ps, files)
  }

  ghost predicate GoodGroups(gs: seq<Group>, files: nat) {
    && AscendingTrigrams(gs)
    && forall i :: 0 <= i < |gs| ==> gs[i].trigram < TRIGRAMS && GoodList(gs[i].postings, files)
  }

  ghost predicate Distinct(paths: seq<Path>) {
    forall i, j :: 0 <= i < j < |paths| ==> paths[i] != paths[j]
  }

  ghost predicate GoodPaths(paths: seq<Path>) {
    && |paths| <= U32_MAX && Distinct(paths)
    && forall i :: 0 <= i < |paths| ==> Storable(paths[i])
  }

  ghost predicate WellFormedIndex(ix: Index) {
    GoodPaths(ix.paths) && GoodGroups(ix.groups, |ix.paths|)
  }

  /** An ascending list of ids below `files` is no longer than `files`. */
  lemma {:induction false} AscendingIsShort(ps: seq<Posting>, files: nat)
    requires StrictlyAscending(ps) && IdsBelow(ps, files)
    ensures |ps| <= files
  {
    if ps != [] {
      var last := ps[|ps| - 1];
      forall i | 0 <= i < |ps| - 1
        ensures ps[i].fileId < last.fileId
      {
      }
      AscendingIsShort(ps[..|ps| - 1], last.fileId);
    }
  }

  lemma {:induction false} AscendingTrigramsAreFew(gs: seq<Group>, bound: nat)
    requires AscendingTrigrams(gs)
    requires forall i :: 0 <= i < |gs| ==> gs[i].trigram < bound
    ensures |gs| <= bound
  {
    if gs != [] {
      AscendingTrigramsAreFew(gs[..|gs| - 1], gs[|gs| - 1].trigram);
    }
  }

  lemma GoodGroupsPrefix(gs: seq<Group>, files: nat, n: nat)
    requires GoodGroups(gs, files) && n <= |gs|
    ensures GoodGroups(gs[..n], files)
  {
  }

  /** No length is truncated and no offset wraps: the running offset is the size of the bytes so far. */
  lemma {:induction false} OffsetIsSize(gs: seq<Group>, files: nat)
    requires GoodGroups(gs, files) && files <= U32_MAX
    ensures Offset(gs) == |IndexBytes(gs)|
    ensures Offset(gs) <= |gs| * 0x5_FFFF_FFFA <= U64_MAX
  {
    hide GoodGroups, EncodePostings, Offset, IndexBytes;
    if gs == [] {
      SizesOfNothing();
    } else {
      var n := |gs| - 1;
      GoodGroupsPrefix(gs, files, n);
      OffsetIsSize(gs[..n], files);
      ListLength(gs, files, n);
      SizesOfOneMore(gs, n);
    }
    GroupsAreFew(gs, files);
  }

  lemma SizesOfNothing()
    ensures Offset([]) == 0 && IndexBytes([]) == []
  {
  }

  lemma SizesOfOneMore(gs: seq<Group>, n: nat)
    requires |gs| == n + 1 && |gs[n].postings| <= U32_MAX
    ensures Offset(gs) == Offset(gs[..n]) + POSTING_ENTRY_SIZE * |gs[n].postings|
    ensures |IndexBytes(gs)| == |IndexBytes(gs[..n])| + POSTING_ENTRY_SIZE * |gs[n].postings|
  {
    hide EncodePostings;
    assert |gs[n].postings| % (U32_MAX + 1) == |gs[n].postings|;
  }

  lemma ListLength(gs: seq<Group>, files: nat, n: nat)
    requires GoodGroups(gs, files) && n < |gs|
    ensures 0 < |gs[n].postings| <= files
  {
    AscendingIsShort(gs[n].postings, files);
  }

  lemma GroupsAreFew(gs: seq<Group>, files: nat)
    requires GoodGroups(gs, files)
    ensures |gs| <= TRIGRAMS
  {
    AscendingTrigramsAreFew(gs, TRIGRAMS);
  }

  // ---- reading ----

  /** A lookup entry as a reader serves it; `None` when its posting bytes are out of range. */
  datatype RawEntry = RawEntry(trigram: u32, bytes: Option<seq<byte>>)

  datatype Reader = Reader(paths: seq<Path>, entries: seq<RawEntry>)

  function NthTrigramRaw(lookup: seq<byte>, index: seq<byte>, i: nat): RawEntry
    requires LOOKUP_ENTRY_SIZE * (i + 1) <= |lookup|
  {
    var at := LOOKUP_ENTRY_SIZE * i;
    var e := DecodeLookup(lookup[at..at + LOOKUP_ENTRY_SIZE]);
    var end := e.offset + e.length * POSTING_ENTRY_SIZE;
    RawEntry(e.trigram, if end > U64_MAX || end > |index| then None else Some(index[e.offset..end]))
  }

  /** File ids must be dense in `0..n` without repetition. */
  predicate DenseIds(es: seq<FileEntry>) {
    && (forall i :: 0 <= i < |es| ==> es[i].id < |es|)
    && (forall i, j :: 0 <= i < j < |es| ==> es[i].id != es[j].id)
  }

  function PathOf(es: seq<FileEntry>, id: nat): Path {
    if es == [] then []
    else if es[|es| - 1].id == id then es[|es| - 1].path
    else PathOf(es[..|es| - 1], id)
  }

  function Open(image: Image): Result<Reader> {
    var empty := |image.lookup| == 0 || |image.index| == 0;
    if !empty && |image.lookup| % LOOKUP_ENTRY_SIZE != 0 then Err
    else
      match DecodeFiles(image.files)
      case Err => Err
      case Ok(es) =>
        if !DenseIds(es) then Err
        else
          var n := if empty then 0 else |image.lookup| / LOOKUP_ENTRY_SIZE;
          Ok(Reader(seq(|es|, i requires 0 <= i < |es| => PathOf(es, i)),
                    seq(n, i requires 0 <= i < n => NthTrigramRaw(image.lookup, image.index, i))))
  }

  /** Posting bytes served by a reader are whole records. */
  predicate Aligned(rd: Reader) {
    forall i :: 0 <= i < |rd.entries| && rd.entries[i].bytes.Some? ==>
                  |rd.entries[i].bytes.value| % POSTING_ENTRY_SIZE == 0
  }

  lemma OpenIsAligned(image: Image)
    requires Open(image).Ok?
    ensures Aligned(Open(image).value)
  {
    hide DecodeLookup, DecodeFiles, DenseIds;
    var rd := Open(image).value;
    forall i | 0 <= i < |rd.entries| && rd.entries[i].bytes.Some?
      ensures |rd.entries[i].bytes.value| % POSTING_ENTRY_SIZE == 0
    {
      var at := LOOKUP_ENTRY_SIZE * i;
      var e := DecodeLookup(image.lookup[at..at + LOOKUP_ENTRY_SIZE]);
      assert |rd.entries[i].bytes.value| == e.length * POSTING_ENTRY_SIZE;
    }
  }

  /** What a reader of a well-formed index serves. */
  function ReaderOf(ix: Index): Reader {
    Reader(ix.paths,
           seq(|ix.groups|, i requires 0 <= i < |ix.groups| =>
             RawEntry(ix.groups[i].trigram, Some(EncodePostings(ix.groups[i].postings)))))
  }

  lemma {:induction false} LookupBytesAt(gs: seq<Group>, i: nat)
    requires i < |gs|
    ensures var at := LOOKUP_ENTRY_SIZE * i;
            LookupBytes(gs)[at..at + LOOKUP_ENTRY_SIZE] == EncodeLookup(EntryAfter(gs[..i], gs[i]))
  {
    hide EncodeLookup, EntryAfter;
    var n := |gs| - 1;
    var at := LOOKUP_ENTRY_SIZE * i;
    if i < n {
      LookupBytesAt(gs[..n], i);
      assert gs[..n][..i] == gs[..i];
      assert LookupBytes(gs)[at..at + LOOKUP_ENTRY_SIZE] == LookupBytes(gs[..n])[at..at + LOOKUP_ENTRY_SIZE];
    }
  }

  lemma {:induction false} IndexBytesPrefix(gs: seq<Group>, i: nat)
    requires i <= |gs|
    ensures IndexBytes(gs[..i]) <= IndexBytes(gs)
  {
    hide EncodePostings;
    if i == |gs| {
      assert gs[..i] == gs;
    } else {
      var n := |gs| - 1;
      IndexBytesPrefix(gs[..n], i);
      assert gs[..n][..i] == gs[..i];
    }
  }

  lemma IndexBytesAt(gs: seq<Group>, i: nat)
    requires i < |gs|
    ensures var start := |IndexBytes(gs[..i])|; var bytes := EncodePostings(gs[i].postings);
            && start + |bytes| == |IndexBytes(gs[..i + 1])| <= |IndexBytes(gs)|
            && IndexBytes(gs)[start..start + |bytes|] == bytes
  {
    hide EncodePostings;
    IndexBytesPrefix(gs, i + 1);
    assert gs[..i + 1][..i] == gs[..i];
    assert IndexBytes(gs[..i + 1]) == IndexBytes(gs[..i]) + EncodePostings(gs[i].postings);
  }

  /**
   * The layout of a written index: entry `i` holds its trigram, an offset that is the size of all
   * lists before it, and its list's length, and the bytes there are the list.
   */
  lemma Layout(ix: Index, i: nat)
    requires WellFormedIndex(ix) && i < |ix.groups|
    ensures var g := ix.groups[i]; var image := Encode(ix);
            var at := LOOKUP_ENTRY_SIZE * i;
            var start := |IndexBytes(ix.groups[..i])|;
            var end := start + POSTING_ENTRY_SIZE * |g.postings|;
            && at + LOOKUP_ENTRY_SIZE <= |image.lookup|
            && start <= U64_MAX && |g.postings| <= U32_MAX
            && DecodeLookup(image.lookup[at..at + LOOKUP_ENTRY_SIZE])
               == LookupEntry(g.trigram, start, |g.postings|)
            && end == |IndexBytes(ix.groups[..i + 1])| <= |image.index|
            && image.index[start..end] == EncodePostings(g.postings)
            && (i + 1 == |ix.groups| ==> end == |image.index|)
  {
    hide DecodeLookup, EncodeLookup, IndexBytes, LookupBytes, Offset, GoodGroups, EncodePostings;
    var gs := ix.groups;
    LookupBytesAt(gs, i);
    IndexBytesAt(gs, i);
    LookupRoundTrip(EntryAfter(gs[..i], gs[i]));
    GoodGroupsPrefix(gs, |ix.paths|, i);
    OffsetIsSize(gs[..i], |ix.paths|);
    ListLength(gs, |ix.paths|, i);
    if i + 1 == |gs| {
      assert gs[..i + 1] == gs;
    }
  }

  /** How many postings the groups hold. */
  function PostingCount(gs: seq<Group>): nat {
    if gs == [] then 0 else PostingCount(gs[..|gs| - 1]) + |gs[|gs| - 1].postings|
  }

  lemma {:induction false} SixBytesEach(gs: seq<Group>)
    ensures |IndexBytes(gs)| == 6 * PostingCount(gs)
  {
    hide EncodePostings;
    if gs != [] {
      SixBytesEach(gs[..|gs| - 1]);
    }
  }

  lemma {:induction false} PostingAt(ps: seq<Posting>, k: nat)
    requires k < |ps|
    ensures EncodePostings(ps)[6 * k..6 * k + 6] == EncodePosting(ps[k])
    decreases k
  {
    hide EncodePosting;
    var head, tail := EncodePosting(ps[0]), EncodePostings(ps[1..]);
    assert EncodePostings(ps) == head + tail;
    if k == 0 {
      assert (head + tail)[0..6] == head;
    } else {
      PostingAt(ps[1..], k - 1);
      assert (head + tail)[6 * k..6 * k + 6] == tail[6 * (k - 1)..6 * (k - 1) + 6];
    }
  }

  /**
   * `lookup.bin` byte for byte: entry `i` has the trigram, the offset that six bytes for every posting
   * before it make, and the number of its postings.
   */
  lemma LookupImageBytes(ix: Index, i: nat)
    requires WellFormedIndex(ix) && i < |ix.groups|
    ensures var lookup, g := Encode(ix).lookup, ix.groups[i];
            && |lookup| == 16 * |ix.groups|
            && IsU32(lookup[16 * i..16 * i + 4], g.trigram)
            && IsU64(lookup[16 * i + 4..16 * i + 12], 6 * PostingCount(ix.groups[..i]))
            && IsU32(lookup[16 * i + 12..16 * i + 16], |g.postings|)
  {
    hide EncodePostings, DecodeLookup, IndexBytes, LookupBytes, GoodGroups, IsU32, IsU64, PostingCount;
    hide EncodeFiles, FileTable;
    var lookup := Encode(ix).lookup;
    Layout(ix, i);
    SixBytesEach(ix.groups[..i]);
    LookupInside(lookup, 16 * i);
  }

  lemma LookupInside(lookup: seq<byte>, at: nat)
    requires at + 16 <= |lookup|
    ensures var e := DecodeLookup(lookup[at..at + 16]);
            && IsU32(lookup[at..at + 4], e.trigram) && IsU64(lookup[at + 4..at + 12], e.offset)
            && IsU32(lookup[at + 12..at + 16], e.length)
  {
    hide DecodeLookup, IsU32, IsU64;
    LookupEntryOfBytes(lookup[at..at + 16]);
    SliceOfSlice(lookup, at, at + 16, 0, 4);
    SliceOfSlice(lookup, at, at + 16, 4, 12);
    SliceOfSlice(lookup, at, at + 16, 12, 16);
  }

  /** `index.bin` byte for byte: the postings of all groups one after the other, six bytes each. */
  lemma IndexImageBytes(ix: Index, i: nat, k: nat)
    requires i < |ix.groups| && k < |ix.groups[i].postings|
    ensures var index, p := Encode(ix).index, ix.groups[i].postings[k];
            var at := 6 * (PostingCount(ix.groups[..i]) + k);
            && |index| == 6 * PostingCount(ix.groups) && at + 6 <= |index|
            && IsU32(index[at..at + 4], p.fileId) && index[at + 4] == p.locMask && index[at + 5] == p.nextMask
  {
    hide EncodePostings, EncodePosting, IndexBytes, LookupBytes, IsU32, PostingCount, EncodeFiles, FileTable;
    var index, ps := Encode(ix).index, ix.groups[i].postings;
    IndexBytesAt(ix.groups, i);
    SixBytesEach(ix.groups[..i]);
    SixBytesEach(ix.groups);
    PostingAt(ps, k);
    var start := 6 * PostingCount(ix.groups[..i]);
    SliceOfSlice(index, start, start + 6 * |ps|, 6 * k, 6 * k + 6);
    PostingInside(index, start + 6 * k, ps[k]);
  }

  lemma PostingInside(index: seq<byte>, at: nat, p: Posting)
    requires at + 6 <= |index| && index[at..at + 6] == EncodePosting(p)
    ensures IsU32(index[at..at + 4], p.fileId) && index[at + 4] == p.locMask && index[at + 5] == p.nextMask
  {
    hide EncodePosting, IsU32;
    PostingBytes(p);
    SliceOfSlice(index, at, at + 6, 0, 4);
    assert index[at..at + 6][4] == index[at + 4] && index[at..at + 6][5] == index[at + 5];
  }

  lemma {:induction false} PathOfTable(es: seq<FileEntry>, i: nat)
    requires i < |es|
    requires forall k :: 0 <= k < |es| ==> es[k].id == k
    ensures PathOf(es, i) == es[i].path
  {
    if i < |es| - 1 {
      PathOfTable(es[..|es| - 1], i);
    }
  }

  /** `files.bin` gives back the path list. */
  lemma FilesReadBack(paths: seq<Path>)
    requires GoodPaths(paths)
    ensures var es := FileTable(paths);
            && DecodeFiles(EncodeFiles(es)) == Ok(es) && DenseIds(es)
            && seq(|es|, i requires 0 <= i < |es| => PathOf(es, i)) == paths
  {
    hide Storable, DecodeFiles, EncodeFiles, PathOf;
    var es := FileTable(paths);
    FilesRoundTrip(es);
    forall i | 0 <= i < |es|
      ensures PathOf(es, i) == paths[i]
    {
      PathOfTable(es, i);
    }
  }

  /** Opening what was written serves exactly the index that was written. */
  lemma OpenEncode(ix: Index)
    requires WellFormedIndex(ix)
    ensures Open(Encode(ix)) == Ok(ReaderOf(ix)) && Aligned(ReaderOf(ix))
  {
    hide DecodeLookup, IndexBytes, LookupBytes, Offset, GoodGroups, GoodPaths, EncodePostings;
    hide DecodeFiles, EncodeFiles, PathOf, DenseIds, FileTable;
    var image, gs := Encode(ix), ix.groups;
    FilesReadBack(ix.paths);
    if gs == [] {
      NoBytes();
    } else {
      NonEmptyIndex(ix);
      forall i | 0 <= i < |gs|
        ensures NthTrigramRaw(image.lookup, image.index, i) == ReaderOf(ix).entries[i]
      {
        Layout(ix, i);
        SizesFit(ix, i);
      }
    }
    assert Open(image).value.entries == ReaderOf(ix).entries;
  }

  lemma NoBytes()
    ensures IndexBytes([]) == [] && LookupBytes([]) == []
  {
  }

  lemma NonEmptyIndex(ix: Index)
    requires WellFormedIndex(ix) && ix.groups != []
    ensures |IndexBytes(ix.groups)| > 0
  {
    hide EncodePostings, IndexBytes;
    Layout(ix, 0);
    assert GoodList(ix.groups[0].postings, |ix.paths|);
  }

  lemma SizesFit(ix: Index, i: nat)
    requires WellFormedIndex(ix) && i < |ix.groups|
    ensures |IndexBytes(ix.groups[..i])| + POSTING_ENTRY_SIZE * |ix.groups[i].postings| <= U64_MAX
  {
    hide EncodePostings, IndexBytes, Offset, GoodGroups;
    IndexBytesAt(ix.groups, i);
    GoodGroupsPrefix(ix.groups, |ix.paths|, i + 1);
    OffsetIsSize(ix.groups[..i + 1], |ix.paths|);
  }

  // ---- opening any files ----

  lemma {:induction false} PathOfRecord(es: seq<FileEntry>, k: nat)
    requires k < |es| && forall i, j :: 0 <= i < j < |es| ==> es[i].id != es[j].id
    ensures PathOf(es, es[k].id) == es[k].path
  {
    if k < |es| - 1 {
      assert es[|es| - 1].id != es[k].id;
      PathOfRecord(es[..|es| - 1], k);
    }
  }

  /** Files are opened exactly when lookup.bin holds whole entries and the records number the files densely. */
  lemma OpenAccepts(image: Image)
    ensures Open(image).Ok?
       <==> && (image.lookup == [] || image.index == [] || |image.lookup| % 16 == 0)
            && DecodeFiles(image.files).Ok?
            && var es := DecodeFiles(image.files).value;
            && (forall i :: 0 <= i < |es| ==> es[i].id < |es|)
            && (forall i, j :: 0 <= i < j < |es| ==> es[i].id != es[j].id)
  {
    hide DecodeFiles, DecodeLookup;
  }

  /** A reader serves every record's path under its id. */
  lemma OpenServesRecords(image: Image, k: nat)
    requires Open(image).Ok? && DecodeFiles(image.files).Ok? && k < |DecodeFiles(image.files).value|
    ensures var rd, es := Open(image).value, DecodeFiles(image.files).value;
            |rd.paths| == |es| && es[k].id < |es| && rd.paths[es[k].id] == es[k].path
  {
    hide DecodeFiles, DecodeLookup, PathOf;
    PathOfRecord(DecodeFiles(image.files).value, k);
  }

  /**
   * A reader serves every lookup entry's trigram, and the bytes of its postings as far as they exist: six
   * for each, from its offset on.
   */
  lemma OpenServesEntries(image: Image, i: nat, trigram: nat, offset: nat, length: nat)
    requires Open(image).Ok? && image.lookup != [] && image.index != [] && |image.index| <= U64_MAX
    requires 16 * i + 16 <= |image.lookup|
    requires IsU32(image.lookup[16 * i..16 * i + 4], trigram) && IsU64(image.lookup[16 * i + 4..16 * i + 12], offset)
    requires IsU32(image.lookup[16 * i + 12..16 * i + 16], length)
    ensures var entries := Open(image).value.entries;
            && |entries| == |image.lookup| / 16 && i < |entries| && entries[i].trigram == trigram
            && entries[i].bytes == if offset + 6 * length <= |image.index|
                                   then Some(image.index[offset..offset + 6 * length]) else None
  {
    hide DecodeFiles, DecodeLookup, PathOf, DenseIds;
    LookupInside(image.lookup, 16 * i);
  }

  lemma NothingToServe(image: Image)
    requires Open(image).Ok? && (image.lookup == [] || image.index == [])
    ensures Open(image).value.entries == []
  {
    hide DecodeFiles, PathOf, DenseIds;
  }

  // ---- meaning ----

  datatype Masks = Masks(loc: u8, next: u8)

  /** The masks a posting list records for a file. */
  function MasksIn(ps: seq<Posting>, id: nat): Option<Masks> {
    if ps == [] then None
    else if ps[0].fileId == id then Some(Masks(ps[0].locMask, ps[0].nextMask))
    else MasksIn(ps[1..], id)
  }

  /** The posting list of a trigram; empty when it has none. */
  function PostingsOf(gs: seq<Group>, trigram: u32): seq<Posting> {
    if gs == [] then []
    else if gs[0].trigram == trigram then gs[0].postings
    else PostingsOf(gs[1..], trigram)
  }

  /** Everything the index records about one file. */
  function TrigramsOf(gs: seq<Group>, id: nat): map<u32, Masks> {
    map g <- gs | MasksIn(PostingsOf(gs, g.trigram), id).Some?
        :: g.trigram := MasksIn(PostingsOf(gs, g.trigram), id).value
  }

  /** What an index says: for every file, its trigrams and their masks. */
  ghost function Meaning(ix: Index): map<Path, map<u32, Masks>>
    requires Distinct(ix.paths)
  {
    map i | 0 <= i < |ix.paths| :: ix.paths[i] := TrigramsOf(ix.groups, i)
  }
}
