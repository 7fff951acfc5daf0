/** From extraction through any run of merges to the answer of a query. */
module EndToEnd {
  import opened Bytes
  import opened OnDisk
  import opened IndexImage
  import opened Merging
  import opened MergeMeaning
  import opened StreamingMerge
  import opened MergeRuns
  import opened Writers
  import opened Query

  /** A file a query names, with the masks it may be filtered by. */
  datatype Answer = Answer(path: Path, masks: Masks)

  /** `answers` are exactly the files that hold the trigram, each with its masks. */
  ghost predicate Answers(answers: seq<Answer>, contents: Contents, trigram: u32) {
    forall path, masks :: Answer(path, masks) in answers
                     <==> path in contents && trigram in contents[path] && contents[path][trigram] == masks
  }

  /** Open two images and merge them. */
  method MergeFiles(base: Image, delta: Image, removed: set<Path>) returns (r: Result<Image>)
    ensures r == MergeImages(base, delta, removed)
  {
    hide Open, MergeResult;
    var reader, additions := Open(base), Open(delta);
    if reader.Err? || additions.Err? {
      return Err;
    }
    OpenIsAligned(base);
    OpenIsAligned(delta);
    r := MergeIndexWithDelta(reader.value, additions.value, removed);
  }

  function AnswerOf(paths: seq<Path>, p: Posting): Answer {
    Answer(if p.fileId < |paths| then paths[p.fileId] else [], Masks(p.locMask, p.nextMask))
  }

  /** Posting `k` of group `g` records these masks for file `i` under the trigram. */
  ghost predicate RecordedAt(ix: Index, g: int, k: int, i: nat, trigram: u32, loc: u8, next: u8) {
    && 0 <= g < |ix.groups| && ix.groups[g].trigram == trigram && 0 <= k < |ix.groups[g].postings|
    && ix.groups[g].postings[k].fileId == i
    && ix.groups[g].postings[k].locMask == loc && ix.groups[g].postings[k].nextMask == next
  }

  lemma RecordedIsListed(ix: Index, g: int, k: int, i: nat, trigram: u32, loc: u8, next: u8)
    requires WellFormedIndex(ix) && RecordedAt(ix, g, k, i, trigram, loc, next)
    ensures MasksIn(PostingsOf(ix.groups, trigram), i) == Some(Masks(loc, next))
  {
    hide PostingsOf, MasksIn;
    PostingsOfGood(ix.groups, |ix.paths|, trigram);
    PostingsOfGroup(ix.groups, g);
    MasksOfPosting(ix.groups[g].postings, k);
  }

  lemma ListedIsRecorded(ix: Index, i: nat, trigram: u32, loc: u8, next: u8) returns (g: nat, k: nat)
    requires WellFormedIndex(ix) && MasksIn(PostingsOf(ix.groups, trigram), i) == Some(Masks(loc, next))
    ensures RecordedAt(ix, g, k, i, trigram, loc, next)
  {
    hide PostingsOf, MasksIn;
    var list := PostingsOf(ix.groups, trigram);
    PostingsOfGood(ix.groups, |ix.paths|, trigram);
    MasksInMember(list, i);
    k :| 0 <= k < |list| && list[k] == Posting(i, loc, next);
    PostingsOfMember(ix.groups, trigram);
    g :| 0 <= g < |ix.groups| && ix.groups[g].trigram == trigram && list == ix.groups[g].postings;
  }

  /** An index holds masks for a file exactly when a posting under the trigram says so, field by field. */
  lemma MeaningIsPostings(ix: Index, i: nat, trigram: u32, loc: u8, next: u8)
    requires WellFormedIndex(ix) && i < |ix.paths|
    ensures ix.paths[i] in Meaning(ix)
    ensures var known := Meaning(ix)[ix.paths[i]];
            (trigram in known && known[trigram].loc == loc && known[trigram].next == next)
            <==> exists g, k :: RecordedAt(ix, g, k, i, trigram, loc, next)
  {
    hide PostingsOf, Meaning, MasksIn, RecordedAt;
    QueryReadsMeaning(ix, i, trigram);
    if MasksIn(PostingsOf(ix.groups, trigram), i) == Some(Masks(loc, next)) {
      var g, k := ListedIsRecorded(ix, i, trigram, loc, next);
    }
    forall g, k | RecordedAt(ix, g, k, i, trigram, loc, next)
      ensures MasksIn(PostingsOf(ix.groups, trigram), i) == Some(Masks(loc, next))
    {
      RecordedIsListed(ix, g, k, i, trigram, loc, next);
    }
  }

  /** Look the trigram up and name the files. */
  method Search(image: Image, trigram: u32, ghost ix: Index) returns (answers: seq<Answer>)
    requires Holds(image, ix)
    ensures Answers(answers, Meaning(ix), trigram)
  {
    hide Open, Encode, PostingsOf, Meaning, GoodGroups, Storable;
    OpenEncode(ix);
    var postings := LookupTrigramWithMasks(image, trigram, ix);
    var paths := Open(image).value.paths;
    answers := [];
    for i := 0 to |postings|
      invariant |answers| == i && forall k :: 0 <= k < i ==> answers[k] == AnswerOf(paths, postings[k])
    {
      answers := answers + [AnswerOf(paths, postings[i])];
    }
    PostingsAnswer(ix, trigram, answers);
  }

  lemma PostingsAnswer(ix: Index, trigram: u32, answers: seq<Answer>)
    requires WellFormedIndex(ix)
    requires var list := PostingsOf(ix.groups, trigram);
             |answers| == |list| && forall k :: 0 <= k < |list| ==> answers[k] == AnswerOf(ix.paths, list[k])
    ensures Answers(answers, Meaning(ix), trigram)
  {
    hide PostingsOf, Meaning, MasksIn, GoodGroups;
    var list := PostingsOf(ix.groups, trigram);
    PostingsOfGood(ix.groups, |ix.paths|, trigram);
    KeysOfMeaning(ix);
    forall k | 0 <= k < |answers|
      ensures var path, masks := answers[k].path, answers[k].masks;
              path in Meaning(ix) && trigram in Meaning(ix)[path] && Meaning(ix)[path][trigram] == masks
    {
      QueryReadsMeaning(ix, list[k].fileId, trigram);
      MasksOfPosting(list, k);
    }
    forall path | path in Meaning(ix) && trigram in Meaning(ix)[path]
      ensures Answer(path, Meaning(ix)[path][trigram]) in answers
    {
      var masks := Meaning(ix)[path][trigram];
      var i :| 0 <= i < |ix.paths| && ix.paths[i] == path;
      QueryReadsMeaning(ix, i, trigram);
      MasksInMember(list, i);
      var k :| 0 <= k < |list| && list[k] == Posting(i, masks.loc, masks.next);
      assert answers[k] == Answer(path, masks);
    }
  }

  lemma MasksOfPosting(list: seq<Posting>, k: nat)
    requires StrictlyAscending(list) && k < |list|
    ensures MasksIn(list, list[k].fileId) == Some(Masks(list[k].locMask, list[k].nextMask))
  {
    hide MasksIn;
    MasksInMember(list, list[k].fileId);
    assert list[k] in list;
  }

  /** Building gives an image of an index that means what was extracted. */
  method Build(files: seq<ExtractedFile>) returns (image: Image, ghost ix: Index)
    requires GoodPaths(Paths(files)) && TrigramsPacked(files)
    ensures Holds(image, ix) && Meaning(ix) == Extracted(files)
  {
    hide GoodGroups, Storable, Encode, Meaning, Extracted;
    StorablePathsFit(Paths(files));
    var built := BuildInMemory(files);
    image := built.value;
    ix :| WellFormedIndex(ix) && built == Ok(Encode(ix)) && Meaning(ix) == Extracted(files);
  }

  lemma StorablePathsFit(paths: seq<Path>)
    requires GoodPaths(paths)
    ensures PathsFit(paths)
  {
    assert forall i :: 0 <= i < |paths| ==> Storable(paths[i]);
  }

  lemma ReplayStep(m: Contents, us: seq<Update>)
    requires WellFormedRun(us) && us != [] && CoveredRun(m, us)
    ensures WellFormedIndex(us[0].delta) && WellFormedRun(us[1..])
    ensures forall p :: p in m && p in us[0].delta.paths ==> p in us[0].removed
    ensures var next := Apply(m, us[0]);
            && CoveredRun(next, us[1..]) && Replay(m, us) == Replay(next, us[1..])
            && (CountableRun(m, us) <==> |next| <= U32_MAX && CountableRun(next, us[1..]))
  {
    hide WellFormedIndex, Apply;
  }

  /**
   * Build an index, merge any run of updates into it and search the result: the merges succeed exactly
   * when the files can be numbered all along, and the answers are those of the replayed map.
   */
  method SearchAfterRun(files: seq<ExtractedFile>, us: seq<Update>, trigram: u32) returns (r: Result<seq<Answer>>)
    requires GoodPaths(Paths(files)) && TrigramsPacked(files)
    requires WellFormedRun(us) && CoveredRun(Extracted(files), us)
    ensures r.Ok? <==> CountableRun(Extracted(files), us)
    ensures r.Ok? ==> Answers(r.value, Replay(Extracted(files), us), trigram)
  {
    hide GoodGroups, Storable, Encode, Meaning, Extracted, Merged, MergeImages, Countable;
    hide Apply, Replay, CoveredRun, CountableRun, Answers;
    var image, ix := Build(files);
    ghost var start := Extracted(files);
    assert us[0..] == us;
    for i := 0 to |us|
      invariant Holds(image, ix)
      invariant WellFormedRun(us[i..]) && CoveredRun(Meaning(ix), us[i..])
      invariant CountableRun(start, us) <==> CountableRun(Meaning(ix), us[i..])
      invariant Replay(start, us) == Replay(Meaning(ix), us[i..])
    {
      assert us[i..][0] == us[i] && us[i..][1..] == us[i + 1..];
      ReplayStep(Meaning(ix), us[i..]);
      StepReplays(ix, us[i]);
      var merged := MergeFiles(image, Encode(us[i].delta), us[i].removed);
      if merged.Err? {
        return Err;
      }
      image := merged.value;
      ix := Merged(ix, us[i].delta, us[i].removed);
    }
    assert us[|us|..] == [];
    EndOfRun(Meaning(ix));
    var answers := Search(image, trigram, ix);
    return Ok(answers);
  }

  lemma EndOfRun(m: Contents)
    ensures Replay(m, []) == m && CountableRun(m, [])
  {
  }
}
