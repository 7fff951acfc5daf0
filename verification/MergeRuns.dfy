/** Any run of merges, from image bytes to image bytes, replays the map updates it stands for. */
module MergeRuns {
  import opened Bytes
  import opened OnDisk
  import opened IndexImage
  import opened Merging
  import opened MergeMeaning
  import opened StreamingMerge

  /** Open both images and merge them. */
  ghost function MergeImages(base: Image, delta: Image, removed: set<Path>): Result<Image> {
    match (Open(base), Open(delta))
    case (Ok(r), Ok(d)) => OpenIsAligned(base); OpenIsAligned(delta); MergeResult(r, d, removed)
    case _ => Err
  }

  lemma RawIndexReadsBack(ix: Index)
    ensures Aligned(ReaderOf(ix)) && RawIndex(ReaderOf(ix)) == ix && Readable(ReaderOf(ix))
  {
    hide DecodePostings, EncodePostings;
    var rd := ReaderOf(ix);
    forall i | 0 <= i < |ix.groups|
      ensures GroupOf(rd.entries[i]) == ix.groups[i]
    {
      PostingsRoundTrip(ix.groups[i].postings);
    }
    assert RawIndex(rd).groups == ix.groups;
  }

  lemma IdsKnownWhenWellFormed(ix: Index)
    requires WellFormedIndex(ix)
    ensures IdsKnown(ix)
  {
    forall i | 0 <= i < |ix.groups|
      ensures IdsBelow(ix.groups[i].postings, |ix.paths|)
    {
      assert GoodList(ix.groups[i].postings, |ix.paths|);
    }
  }

  lemma GoodListsFit(gs: seq<Group>, files: nat)
    requires GoodGroups(gs, files) && files <= U32_MAX
    ensures ListsFit(gs)
  {
    forall i | 0 <= i < |gs|
      ensures |gs[i].postings| <= U32_MAX
    {
      ListLength(gs, files, i);
    }
  }

  lemma MergedPathsFit(r: Index, d: Index, removed: set<Path>)
    requires WellFormedIndex(r) && WellFormedIndex(d)
    ensures PathsFit(Merged(r, d, removed).paths)
  {
    hide KeptPaths, Merged;
    var paths := Merged(r, d, removed).paths;
    MergedPaths(r, d, removed);
    forall i | 0 <= i < |paths|
      ensures |paths[i]| <= MAX_PATH_LEN
    {
      assert paths[i] in paths;
      assert forall k :: 0 <= k < |r.paths| ==> Storable(r.paths[k]);
      assert forall k :: 0 <= k < |d.paths| ==> Storable(d.paths[k]);
    }
  }

  /** On well-formed images a merge fails only when the files no longer fit a `u32`. */
  lemma MergeOfImages(r: Index, d: Index, removed: set<Path>)
    requires WellFormedIndex(r) && WellFormedIndex(d)
    ensures MergeImages(Encode(r), Encode(d), removed)
         == if Countable(r, d, removed) then Ok(Encode(Merged(r, d, removed))) else Err
  {
    hide KeptPaths, Merged, Encode, Open, ReaderOf, IdsKnown, ListsFit, PathsFit, GoodGroups;
    OpenEncode(r);
    OpenEncode(d);
    RawIndexReadsBack(r);
    RawIndexReadsBack(d);
    IdsKnownWhenWellFormed(r);
    IdsKnownWhenWellFormed(d);
    MergedPathsFit(r, d, removed);
    if Countable(r, d, removed) {
      MergedGroupsGood(r, d, removed);
      GoodListsFit(Merged(r, d, removed).groups, |KeptPaths(r.paths, removed)| + |d.paths|);
    }
  }

  // ---- runs ----

  /** One merge of a run: the files it adds or replaces, and the paths it removes. */
  datatype Update = Update(delta: Index, removed: set<Path>)

  type Contents = map<Path, map<u32, Masks>>

  /** The run over image bytes. */
  ghost function Run(image: Image, us: seq<Update>): Result<Image>
    decreases |us|
  {
    if us == [] then Ok(image)
    else
      match MergeImages(image, Encode(us[0].delta), us[0].removed)
      case Err => Err
      case Ok(next) => Run(next, us[1..])
  }

  ghost predicate WellFormedRun(us: seq<Update>) {
    forall i :: 0 <= i < |us| ==> WellFormedIndex(us[i].delta)
  }

  ghost function Apply(m: Contents, u: Update): Contents
    requires Distinct(u.delta.paths)
  {
    (m - u.removed) + Meaning(u.delta)
  }

  /** The same run over the abstract map. */
  ghost function Replay(m: Contents, us: seq<Update>): Contents
    requires WellFormedRun(us)
    decreases |us|
  {
    if us == [] then m else Replay(Apply(m, us[0]), us[1..])
  }

  /** Every replaced path is listed as removed. */
  ghost predicate CoveredRun(m: Contents, us: seq<Update>)
    requires WellFormedRun(us)
    decreases |us|
  {
    us == [] || ((forall p :: p in m && p in us[0].delta.paths ==> p in us[0].removed)
                 && CoveredRun(Apply(m, us[0]), us[1..]))
  }

  /** Every map along the way can be numbered with `u32` ids. */
  ghost predicate CountableRun(m: Contents, us: seq<Update>)
    requires WellFormedRun(us)
    decreases |us|
  {
    us == [] || (|Apply(m, us[0])| <= U32_MAX && CountableRun(Apply(m, us[0]), us[1..]))
  }

  lemma {:induction false} DistinctCardinality(paths: seq<Path>)
    requires Distinct(paths)
    ensures |set p | p in paths| == |paths|
  {
    if paths != [] {
      var n := |paths| - 1;
      DistinctCardinality(paths[..n]);
      assert (set p | p in paths) == (set p | p in paths[..n]) + {paths[n]};
    }
  }

  lemma FileCount(r: Index, u: Update)
    requires WellFormedIndex(r) && WellFormedIndex(u.delta) && Covers(r, u.delta, u.removed)
    ensures |Apply(Meaning(r), u)| == |KeptPaths(r.paths, u.removed)| + |u.delta.paths|
  {
    hide Meaning, KeptPaths, Merged;
    var m := Merged(r, u.delta, u.removed);
    MergedPaths(r, u.delta, u.removed);
    DistinctIffCovered(r, u.delta, u.removed);
    DistinctCardinality(m.paths);
    KeysOfMeaning(r);
    KeysOfMeaning(u.delta);
    assert Apply(Meaning(r), u).Keys == set p | p in m.paths;
  }

  /**
   * Every run that lists its replaced paths as removed succeeds exactly when the files can be
   * numbered all along, and its final image is a well-formed index that means the replayed map.
   */
  lemma {:induction false} RunReplays(ix: Index, us: seq<Update>) returns (final: Index)
    requires WellFormedIndex(ix) && WellFormedRun(us) && CoveredRun(Meaning(ix), us)
    ensures Run(Encode(ix), us).Ok? <==> CountableRun(Meaning(ix), us)
    ensures Run(Encode(ix), us).Ok? ==>
              && WellFormedIndex(final)
              && Run(Encode(ix), us) == Ok(Encode(final))
              && Meaning(final) == Replay(Meaning(ix), us)
    decreases |us|
  {
    hide WellFormedIndex, Meaning, Encode, Merged, MergeImages, Countable;
    final := ix;
    if us != [] {
      var u := us[0];
      StepReplays(ix, u);
      if Countable(ix, u.delta, u.removed) {
        final := RunReplays(Merged(ix, u.delta, u.removed), us[1..]);
      }
    }
  }

  lemma StepReplays(ix: Index, u: Update)
    requires WellFormedIndex(ix) && WellFormedIndex(u.delta)
    requires forall p :: p in Meaning(ix) && p in u.delta.paths ==> p in u.removed
    ensures Countable(ix, u.delta, u.removed) <==> |Apply(Meaning(ix), u)| <= U32_MAX
    ensures MergeImages(Encode(ix), Encode(u.delta), u.removed)
         == if Countable(ix, u.delta, u.removed) then Ok(Encode(Merged(ix, u.delta, u.removed))) else Err
    ensures Countable(ix, u.delta, u.removed) ==>
              && WellFormedIndex(Merged(ix, u.delta, u.removed))
              && Meaning(Merged(ix, u.delta, u.removed)) == Apply(Meaning(ix), u)
  {
    hide Meaning, Encode, Merged, MergeImages, GoodGroups, KeptPaths;
    KeysOfMeaning(ix);
    assert Covers(ix, u.delta, u.removed);
    FileCount(ix, u);
    MergeOfImages(ix, u.delta, u.removed);
    if Countable(ix, u.delta, u.removed) {
      MergeIsMapUpdate(ix, u.delta, u.removed);
    }
  }
}
