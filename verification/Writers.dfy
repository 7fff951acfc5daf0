/** The two full writers of an index, from a hash map and from sorted postings, and the in-memory build. */
module Writers {
  import opened Bytes
  import opened OnDisk
  import opened IndexImage
  import opened Merging
  import opened MergeMeaning
  import opened StreamingMerge

  // ---- from an inverted hash map ----

  /** The keys from `lo` on, in ascending order. */
  function KeysFrom(keys: set<u32>, lo: nat): seq<u32>
    decreases U32_MAX + 1 - lo
  {
    if lo > U32_MAX then []
    else (if lo in keys then [lo] else []) + KeysFrom(keys, lo + 1)
  }

  /** `r` lists the keys from `lo` on in ascending order. */
  ghost predicate Lists(r: seq<u32>, keys: set<u32>, lo: nat) {
    && (forall k: u32 :: k in r <==> k in keys && lo <= k)
    && (forall i, j :: 0 <= i < j < |r| ==> r[i] < r[j])
  }

  lemma ListsOneMore(rest: seq<u32>, keys: set<u32>, lo: u32)
    requires Lists(rest, keys, lo + 1)
    ensures Lists((if lo in keys then [lo] else []) + rest, keys, lo)
  {
    if lo in keys {
      var r := [lo] + rest;
      forall i, j | 0 <= i < j < |r|
        ensures r[i] < r[j]
      {
        assert r[j] == rest[j - 1] && rest[j - 1] in rest;
      }
      forall k: u32
        ensures k in r <==> k in keys && lo <= k
      {
        assert k in r <==> k == lo || k in rest;
      }
    } else {
      assert [] + rest == rest;
    }
  }

  lemma {:induction false} KeysFromListsKeys(keys: set<u32>, lo: nat)
    ensures Lists(KeysFrom(keys, lo), keys, lo)
    decreases U32_MAX + 1 - lo
  {
    hide KeysFrom;
    KeysFromStep(keys, lo);
    if lo <= U32_MAX {
      KeysFromListsKeys(keys, lo + 1);
      ListsOneMore(KeysFrom(keys, lo + 1), keys, lo);
    }
  }

  lemma KeysFromStep(keys: set<u32>, lo: nat)
    ensures KeysFrom(keys, lo)
         == if lo > U32_MAX then [] else (if lo in keys then [lo] else []) + KeysFrom(keys, lo + 1)
  {
  }

  /** The groups a hash map stands for, in ascending trigram order. */
  function HashGroups(inverted: map<u32, seq<Posting>>): (gs: seq<Group>)
    ensures |gs| == |KeysFrom(inverted.Keys, 0)|
  {
    var keys := KeysFrom(inverted.Keys, 0);
    seq(|keys|, i requires 0 <= i < |keys| =>
      Group(keys[i], if keys[i] in inverted then inverted[keys[i]] else []))
  }

  method WriteIndexFiles(paths: seq<Path>, inverted: map<u32, seq<Posting>>) returns (r: Result<Image>)
    ensures r == if PathsFit(paths) then Ok(Encode(Index(paths, HashGroups(inverted)))) else Err
  {
    hide Wrote, KeysFrom, EncodePostings, EncodeFiles, FileTable, IndexBytes, LookupBytes, WriteList;
    var keys := KeysFrom(inverted.Keys, 0);
    ghost var gs := HashGroups(inverted);
    var out := Sinks([], [], 0);
    WroteNothing();
    for i := 0 to |keys|
      invariant Wrote(gs[..i], out)
    {
      KeysFromListsKeys(inverted.Keys, 0);
      assert keys[i] in keys;
      var list := inverted[keys[i]];
      WroteOneMore(gs[..i], out, gs[i]);
      assert gs[..i + 1] == gs[..i] + [gs[i]];
      out := WriteList(out, keys[i], EncodePostings(list), |list|);
    }
    assert gs[..|keys|] == gs;
    WroteAll(gs, out);
    var files := WriteFiles(paths);
    if files.Err? {
      return Err;
    }
    return Ok(Image(out.index, out.lookup, files.value));
  }

  /** The written groups are well formed exactly when every list of the map is. */
  lemma HashGroupsGood(inverted: map<u32, seq<Posting>>, files: nat)
    ensures GoodGroups(HashGroups(inverted), files)
       <==> forall k :: k in inverted ==> k < TRIGRAMS && GoodList(inverted[k], files)
    ensures forall t: u32 :: PostingsOf(HashGroups(inverted), t) == if t in inverted then inverted[t] else []
  {
    hide KeysFrom, GoodList, PostingsOf;
    var keys, gs := KeysFrom(inverted.Keys, 0), HashGroups(inverted);
    KeysFromListsKeys(inverted.Keys, 0);
    assert AscendingTrigrams(gs);
    forall k | k in inverted
      ensures exists i :: 0 <= i < |gs| && gs[i] == Group(k, inverted[k])
    {
      assert k in keys;
      var i :| 0 <= i < |keys| && keys[i] == k;
      assert gs[i] == Group(k, inverted[k]);
    }
    forall i | 0 <= i < |gs|
      ensures gs[i].trigram in inverted && gs[i].postings == inverted[gs[i].trigram]
    {
      assert keys[i] in keys;
    }
    forall t: u32
      ensures PostingsOf(gs, t) == if t in inverted then inverted[t] else []
    {
      if t in inverted {
        var i :| 0 <= i < |gs| && gs[i] == Group(t, inverted[t]);
        PostingsOfGroup(gs, i);
      } else if PostingsOf(gs, t) != [] {
        PostingsOfMember(gs, t);
      }
    }
  }

  // ---- from flat postings ----

  datatype TrigramPosting = TrigramPosting(trigram: u32, entry: Posting)

  /** Neighbouring postings of one trigram form a group. */
  function Runs(ps: seq<TrigramPosting>): seq<Group> {
    if ps == [] then []
    else
      var rest := Runs(ps[1..]);
      if rest != [] && rest[0].trigram == ps[0].trigram
      then [Group(ps[0].trigram, [ps[0].entry] + rest[0].postings)] + rest[1..]
      else [Group(ps[0].trigram, [ps[0].entry])] + rest
  }

  function Entries(ps: seq<TrigramPosting>): (es: seq<Posting>)
    ensures |es| == |ps|
  {
    seq(|ps|, i requires 0 <= i < |ps| => ps[i].entry)
  }

  lemma {:induction false} RunsHead(ps: seq<TrigramPosting>)
    requires ps != []
    ensures Runs(ps) != [] && Runs(ps)[0].trigram == ps[0].trigram
    ensures Runs(ps)[0].postings != [] && Runs(ps)[0].postings[0] == ps[0].entry
  {
  }

  /** A maximal run of one trigram is the first group. */
  lemma {:induction false} FirstRun(ps: seq<TrigramPosting>, n: nat)
    requires 0 < n <= |ps|
    requires forall i :: 0 <= i < n ==> ps[i].trigram == ps[0].trigram
    requires n < |ps| ==> ps[n].trigram != ps[0].trigram
    ensures Runs(ps) == [Group(ps[0].trigram, Entries(ps[..n]))] + Runs(ps[n..])
  {
    var tail := ps[1..];
    if n == 1 {
      assert ps[n..] == tail;
      assert Entries(ps[..1]) == [ps[0].entry];
      if tail != [] {
        RunsHead(tail);
      }
    } else {
      FirstRun(tail, n - 1);
      assert tail[n - 1..] == ps[n..];
      assert Entries(ps[..n]) == [ps[0].entry] + Entries(tail[..n - 1]);
      var rest := Runs(tail);
      assert rest[1..] == Runs(ps[n..]);
    }
  }

  method WriteFlatPostingEntries(ps: seq<TrigramPosting>) returns (bytes: seq<byte>)
    ensures bytes == EncodePostings(Entries(ps))
  {
    hide EncodePostings;
    bytes := [];
    EncodeNothing();
    for i := 0 to |ps|
      invariant bytes == EncodePostings(Entries(ps[..i]))
    {
      var e := ps[i].entry;
      EncodeOneMore(Entries(ps[..i]), e);
      assert Entries(ps[..i + 1]) == Entries(ps[..i]) + [e];
      bytes := bytes + (Le(4, e.fileId) + [e.locMask, e.nextMask]);
    }
    assert ps[..|ps|] == ps;
  }

  method WriteIndexFilesFromPostings(paths: seq<Path>, ps: seq<TrigramPosting>)
    returns (r: Result<Image>, writtenTrigrams: nat)
    ensures r == if PathsFit(paths) then Ok(Encode(Index(paths, Runs(ps)))) else Err
    ensures writtenTrigrams == |Runs(ps)|
  {
    hide Wrote, EncodePostings, EncodeFiles, FileTable, IndexBytes, LookupBytes, WriteList, Runs, Entries;
    var out := Sinks([], [], 0);
    var start := 0;
    writtenTrigrams := 0;
    ghost var done: seq<Group> := [];
    WroteNothing();
    assert ps[0..] == ps;
    while start < |ps|
      invariant 0 <= start <= |ps|
      invariant Wrote(done, out) && writtenTrigrams == |done|
      invariant Runs(ps) == done + Runs(ps[start..])
    {
      var trigram := ps[start].trigram;
      var end := start + 1;
      while end < |ps| && ps[end].trigram == trigram
        invariant start < end <= |ps|
        invariant forall i :: start <= i < end ==> ps[i].trigram == trigram
      {
        end := end + 1;
      }
      var bytes := WriteFlatPostingEntries(ps[start..end]);
      ghost var g := Group(trigram, Entries(ps[start..end]));
      Slices(ps, start, end - start);
      FirstRun(ps[start..], end - start);
      WroteOneMore(done, out, g);
      ConcatAssoc(done, [g], Runs(ps[end..]));
      out := WriteList(out, trigram, bytes, end - start);
      done := done + [g];
      writtenTrigrams := writtenTrigrams + 1;
      start := end;
    }
    assert ps[start..] == [];
    NoRuns();
    assert done + [] == done;
    WroteAll(done, out);
    var files := WriteFiles(paths);
    if files.Err? {
      return Err, writtenTrigrams;
    }
    return Ok(Image(out.index, out.lookup, files.value)), writtenTrigrams;
  }

  lemma NoRuns()
    ensures Runs([]) == []
  {
  }

  /** The separately counted number of trigrams is the number of groups. */
  method CountSortedTrigrams(ps: seq<TrigramPosting>) returns (count: nat)
    ensures count == |Runs(ps)|
  {
    hide Runs;
    count := 0;
    var previous: Option<u32> := None;
    assert ps[0..] == ps;
    for i := 0 to |ps|
      invariant previous == if i == 0 then None else Some(ps[i - 1].trigram)
      invariant |Runs(ps)| == count + |Runs(ps[i..])|
                - if i < |ps| && previous == Some(ps[i].trigram) then 1 else 0
    {
      assert ps[i..][1..] == ps[i + 1..];
      RunsSize(ps[i..]);
      if previous != Some(ps[i].trigram) {
        count := count + 1;
        previous := Some(ps[i].trigram);
      }
    }
    assert ps[|ps|..] == [];
    NoRuns();
  }

  lemma RunsSize(ps: seq<TrigramPosting>)
    requires ps != []
    ensures |Runs(ps)| == |Runs(ps[1..])| + if |ps| > 1 && ps[1].trigram == ps[0].trigram then 0 else 1
  {
    if |ps| > 1 {
      RunsHead(ps[1..]);
    }
  }

  // ---- sorted postings ----

  /** The order of the sort: by trigram, then by file id. */
  predicate Before(a: TrigramPosting, b: TrigramPosting) {
    a.trigram < b.trigram || (a.trigram == b.trigram && a.entry.fileId < b.entry.fileId)
  }

  ghost predicate Sorted(ps: seq<TrigramPosting>) {
    forall i, j :: 0 <= i < j < |ps| ==> Before(ps[i], ps[j])
  }

  predicate SameKey(a: TrigramPosting, b: TrigramPosting) {
    a.trigram == b.trigram && a.entry.fileId == b.entry.fileId
  }

  /** At most one posting for each trigram and file. */
  ghost predicate UniqueKeys(ps: seq<TrigramPosting>) {
    forall i, j :: 0 <= i < j < |ps| ==> !SameKey(ps[i], ps[j])
  }

  function Insert(x: TrigramPosting, ps: seq<TrigramPosting>): seq<TrigramPosting> {
    if ps == [] || Before(x, ps[0]) then [x] + ps else [ps[0]] + Insert(x, ps[1..])
  }

  function Sort(ps: seq<TrigramPosting>): seq<TrigramPosting> {
    if ps == [] then [] else Insert(ps[0], Sort(ps[1..]))
  }

  lemma {:induction false} InsertSorts(x: TrigramPosting, ps: seq<TrigramPosting>)
    requires Sorted(ps) && forall p :: p in ps ==> !SameKey(x, p)
    ensures Sorted(Insert(x, ps))
    ensures forall p :: p in Insert(x, ps) <==> p == x || p in ps
  {
    if ps == [] {
    } else if Before(x, ps[0]) {
      assert Sorted([x] + ps);
    } else {
      assert forall p :: p in ps[1..] ==> p in ps;
      InsertSorts(x, ps[1..]);
      var rest := Insert(x, ps[1..]);
      forall i | 0 <= i < |rest|
        ensures Before(ps[0], rest[i])
      {
        assert rest[i] in rest;
        assert ps[0] in ps;
      }
      assert ps == [ps[0]] + ps[1..];
    }
  }

  lemma {:induction false} SortSorts(ps: seq<TrigramPosting>)
    requires UniqueKeys(ps)
    ensures Sorted(Sort(ps))
    ensures forall p :: p in Sort(ps) <==> p in ps
  {
    if ps != [] {
      SortSorts(ps[1..]);
      forall p | p in Sort(ps[1..])
        ensures !SameKey(ps[0], p)
      {
        var i :| 0 <= i < |ps[1..]| && ps[1..][i] == p;
        assert ps[i + 1] == p;
      }
      InsertSorts(ps[0], Sort(ps[1..]));
      assert ps == [ps[0]] + ps[1..];
    }
  }

  /** Sorted postings group into ascending trigrams with ascending lists. */
  lemma {:induction false} RunsOfSorted(ps: seq<TrigramPosting>, files: nat)
    requires Sorted(ps)
    requires forall p :: p in ps ==> p.trigram < TRIGRAMS && p.entry.fileId < files
    ensures GoodGroups(Runs(ps), files)
  {
    hide GoodGroups, GoodList;
    if ps == [] {
      NoGroups(files);
    } else {
      var tail, rest := ps[1..], Runs(ps[1..]);
      assert ps[0] in ps && forall p :: p in tail ==> p in ps;
      RunsOfSorted(tail, files);
      SingleList(ps[0].entry, files);
      if tail != [] {
        RunsHead(tail);
        assert Before(ps[0], ps[1]);
        GroupsHead(rest, files);
        if rest[0].trigram == ps[0].trigram {
          ExtendList(ps[0].entry, rest[0].postings, files);
          PrependGroup(Group(ps[0].trigram, [ps[0].entry] + rest[0].postings), rest[1..], files);
        } else {
          PrependGroup(Group(ps[0].trigram, [ps[0].entry]), rest, files);
        }
      } else {
        PrependGroup(Group(ps[0].trigram, [ps[0].entry]), rest, files);
      }
    }
  }

  lemma NoGroups(files: nat)
    ensures GoodGroups([], files)
  {
  }

  lemma GroupsHead(gs: seq<Group>, files: nat)
    requires gs != [] && GoodGroups(gs, files)
    ensures GoodList(gs[0].postings, files) && GoodGroups(gs[1..], files)
    ensures |gs| > 1 ==> gs[0].trigram < gs[1].trigram
  {
  }

  lemma PrependGroup(g: Group, gs: seq<Group>, files: nat)
    requires GoodList(g.postings, files) && g.trigram < TRIGRAMS && GoodGroups(gs, files)
    requires gs != [] ==> g.trigram < gs[0].trigram
    ensures GoodGroups([g] + gs, files)
  {
  }

  lemma ExtendList(p: Posting, list: seq<Posting>, files: nat)
    requires GoodList(list, files) && p.fileId < list[0].fileId
    ensures GoodList([p] + list, files)
  {
  }

  lemma SingleList(p: Posting, files: nat)
    requires p.fileId < files
    ensures GoodList([p], files)
  {
  }

  /** A posting is in its trigram's group exactly when it was pushed. */
  lemma {:induction false} RunsHoldPostings(ps: seq<TrigramPosting>, t: u32, p: Posting)
    requires Sorted(ps)
    ensures p in PostingsOf(Runs(ps), t) <==> TrigramPosting(t, p) in ps
  {
    if ps != [] {
      var tail, rest := ps[1..], Runs(ps[1..]);
      RunsHoldPostings(tail, t, p);
      assert ps == [ps[0]] + tail;
      if tail != [] {
        RunsHead(tail);
        assert Runs(ps)[1..] == if rest[0].trigram == ps[0].trigram then rest[1..] else rest;
      }
      if t == ps[0].trigram && (tail == [] || rest[0].trigram != t) {
        assert TrigramPosting(t, p) !in tail by {
          assert tail != [] ==> Before(ps[0], ps[1]);
          assert forall i :: 0 < i < |tail| ==> Before(tail[0], tail[i]);
        }
      }
    }
  }

  lemma {:induction false} MasksInMember(ps: seq<Posting>, id: nat)
    requires StrictlyAscending(ps)
    ensures MasksIn(ps, id).None? ==> forall p :: p in ps ==> p.fileId != id
    ensures MasksIn(ps, id).Some? ==>
              id <= U32_MAX && Posting(id, MasksIn(ps, id).value.loc, MasksIn(ps, id).value.next) in ps
  {
    if ps != [] {
      MasksInMember(ps[1..], id);
      assert ps == [ps[0]] + ps[1..];
    }
  }

  // ---- the in-memory build ----

  /** A file as extraction hands it over: its trigrams and their masks. */
  datatype ExtractedFile = ExtractedFile(path: Path, trigrams: map<u32, Masks>)

  function PostingFor(id: u32, t: u32, m: Masks): TrigramPosting {
    TrigramPosting(t, Posting(id, m.loc, m.next))
  }

  /** `ps` holds exactly one posting for every trigram of each of the first `n` files. */
  ghost predicate Pushed(ps: seq<TrigramPosting>, files: seq<ExtractedFile>, n: nat) {
    && n <= |files| && UniqueKeys(ps)
    && (forall p :: p in ps ==>
          && p.entry.fileId < n && p.trigram in files[p.entry.fileId].trigrams
          && p == PostingFor(p.entry.fileId, p.trigram, files[p.entry.fileId].trigrams[p.trigram]))
    && (forall id: u32, t :: id < n && t in files[id].trigrams ==> PostingFor(id, t, files[id].trigrams[t]) in ps)
  }

  /** Push one file's postings in whatever order its hash map yields them. */
  method PushFile(ps: seq<TrigramPosting>, id: u32, trigrams: map<u32, Masks>) returns (out: seq<TrigramPosting>)
    ensures UniqueKeys(ps) && (forall p :: p in ps ==> p.entry.fileId < id) ==> UniqueKeys(out)
    ensures forall p :: p in out <==>
              p in ps || (p.trigram in trigrams && p == PostingFor(id, p.trigram, trigrams[p.trigram]))
  {
    out := ps;
    ghost var isNew := UniqueKeys(ps) && forall p :: p in ps ==> p.entry.fileId < id;
    var left := trigrams.Keys;
    while left != {}
      invariant left <= trigrams.Keys
      invariant isNew ==> UniqueKeys(out)
      invariant forall p :: p in out <==>
                  p in ps || (p.trigram in trigrams.Keys - left && p == PostingFor(id, p.trigram, trigrams[p.trigram]))
      decreases left
    {
      var t :| t in left;
      var p := PostingFor(id, t, trigrams[t]);
      assert isNew ==> forall i :: 0 <= i < |out| ==> out[i] in out && !SameKey(out[i], p);
      out := out + [p];
      left := left - {t};
    }
  }

  /** What the build is to record. */
  ghost function Extracted(files: seq<ExtractedFile>): map<Path, map<u32, Masks>>
    requires Distinct(Paths(files))
  {
    map i | 0 <= i < |files| :: Paths(files)[i] := files[i].trigrams
  }

  function Paths(files: seq<ExtractedFile>): (paths: seq<Path>)
    ensures |paths| == |files|
  {
    seq(|files|, i requires 0 <= i < |files| => files[i].path)
  }

  ghost predicate TrigramsPacked(files: seq<ExtractedFile>) {
    forall i, t :: 0 <= i < |files| && t in files[i].trigrams ==> t < TRIGRAMS
  }

  lemma BuiltGroups(ps: seq<TrigramPosting>, files: seq<ExtractedFile>)
    requires Pushed(ps, files, |files|) && TrigramsPacked(files)
    ensures Sorted(Sort(ps)) && (forall p :: p in Sort(ps) <==> p in ps)
    ensures GoodGroups(Runs(Sort(ps)), |files|)
  {
    hide Runs, Sort, GoodGroups;
    SortSorts(ps);
    RunsOfSorted(Sort(ps), |files|);
  }

  /** The groups of the sorted postings record exactly the extracted maps. */
  lemma BuiltTrigrams(ps: seq<TrigramPosting>, files: seq<ExtractedFile>, id: nat)
    requires Pushed(ps, files, |files|) && id < |files| <= U32_MAX && TrigramsPacked(files)
    ensures TrigramsOf(Runs(Sort(ps)), id) == files[id].trigrams
  {
    hide Runs, Sort, PostingsOf, TrigramsOf, MasksIn, Pushed, GoodGroups;
    var gs := Runs(Sort(ps));
    BuiltGroups(ps, files);
    forall t: u32
      ensures t in TrigramsOf(gs, id) <==> t in files[id].trigrams
      ensures t in files[id].trigrams ==> t in TrigramsOf(gs, id) && TrigramsOf(gs, id)[t] == files[id].trigrams[t]
    {
      TrigramsOfMember(gs, id, t);
      BuiltMasks(ps, files, id, t);
    }
  }

  lemma BuiltMasks(ps: seq<TrigramPosting>, files: seq<ExtractedFile>, id: nat, t: u32)
    requires Pushed(ps, files, |files|) && id < |files| <= U32_MAX
    requires Sorted(Sort(ps)) && (forall p :: p in Sort(ps) <==> p in ps)
    requires GoodGroups(Runs(Sort(ps)), |files|)
    ensures MasksIn(PostingsOf(Runs(Sort(ps)), t), id)
         == if t in files[id].trigrams then Some(files[id].trigrams[t]) else None
  {
    hide Runs, Sort, PostingsOf, MasksIn, GoodGroups;
    var sorted, gs := Sort(ps), Runs(Sort(ps));
    var list := PostingsOf(gs, t);
    PostingsOfGood(gs, |files|, t);
    MasksInMember(list, id);
    if MasksIn(list, id).Some? {
      var m := MasksIn(list, id).value;
      RunsHoldPostings(sorted, t, Posting(id, m.loc, m.next));
      assert TrigramPosting(t, Posting(id, m.loc, m.next)) in ps;
    }
    if t in files[id].trigrams {
      var p := PostingFor(id, t, files[id].trigrams[t]);
      assert p in ps;
      RunsHoldPostings(sorted, t, p.entry);
    }
  }

  lemma BuiltMeaning(ps: seq<TrigramPosting>, files: seq<ExtractedFile>)
    requires Pushed(ps, files, |files|) && GoodPaths(Paths(files)) && TrigramsPacked(files)
    ensures var ix := Index(Paths(files), Runs(Sort(ps)));
            WellFormedIndex(ix) && Meaning(ix) == Extracted(files)
  {
    hide Runs, Sort, TrigramsOf, Storable, Pushed, GoodGroups, TrigramsPacked;
    BuiltGroups(ps, files);
    forall id | 0 <= id < |files|
      ensures TrigramsOf(Runs(Sort(ps)), id) == files[id].trigrams
    {
      BuiltTrigrams(ps, files, id);
    }
  }

  /**
   * Extract, sort, count and write: the image means exactly what was extracted, as long as the ids of
   * the files, which are cast to `u32`, are different.
   */
  method BuildInMemory(files: seq<ExtractedFile>) returns (r: Result<Image>)
    ensures r.Ok? <==> PathsFit(Paths(files))
    ensures r.Ok? && GoodPaths(Paths(files)) && TrigramsPacked(files) ==>
              exists ix :: WellFormedIndex(ix) && r == Ok(Encode(ix)) && Meaning(ix) == Extracted(files)
  {
    hide Runs, Sort, Encode, Meaning, Extracted, WellFormedIndex, PathsFit;
    var ps: seq<TrigramPosting> := [];
    for id := 0 to |files|
      invariant |files| <= U32_MAX ==> Pushed(ps, files, id)
    {
      ps := PushFile(ps, id % (U32_MAX + 1), files[id].trigrams);
    }
    var sorted := Sort(ps);
    var trigramCount := CountSortedTrigrams(sorted);
    var writtenTrigrams;
    r, writtenTrigrams := WriteIndexFilesFromPostings(Paths(files), sorted);
    // The debug assertion of the writer.
    assert writtenTrigrams == trigramCount;
    if GoodPaths(Paths(files)) && TrigramsPacked(files) {
      BuiltMeaning(ps, files);
    }
  }
}
