/** A merge is one update of the abstract map from paths to trigrams to masks; a run of merges replays them. */
module MergeMeaning {
  import opened Bytes
  import opened OnDisk
  import opened IndexImage
  import opened Merging

  /** Every path the two indexes share is among the removed ones. */
  ghost predicate Covers(r: Index, d: Index, removed: set<Path>) {
    forall p :: p in r.paths && p in d.paths ==> p in removed
  }

  ghost predicate Countable(r: Index, d: Index, removed: set<Path>) {
    |KeptPaths(r.paths, removed)| + |d.paths| <= U32_MAX
  }

  /** The part of the merge that comes from the reader, for every removed set. */
  function ReaderPart(r: Index, removed: set<Path>): seq<Group> {
    RemapGroups(r.groups, IdMap(r.paths, removed))
  }

  lemma MergedGroups(r: Index, d: Index, removed: set<Path>)
    requires WellFormedIndex(r)
    ensures Merged(r, d, removed).groups
         == Zip(ReaderPart(r, removed), ShiftGroups(d.groups, |KeptPaths(r.paths, removed)|))
  {
    hide IdMap, Zip, RemapGroups, KeptPaths;
    if removed == {} {
      forall i | 0 <= i < |r.groups|
        ensures IdsBelow(r.groups[i].postings, |r.paths|)
      {
        assert GoodList(r.groups[i].postings, |r.paths|);
      }
      VerbatimIsRemap(r);
    }
  }

  /** The merged list of a trigram: the reader's, renumbered, then the delta's, shifted. */
  lemma MergedPostings(r: Index, d: Index, removed: set<Path>, t: u32)
    requires WellFormedIndex(r) && WellFormedIndex(d)
    ensures PostingsOf(Merged(r, d, removed).groups, t)
         == Remapped(PostingsOf(r.groups, t), IdMap(r.paths, removed))
            + Shifted(PostingsOf(d.groups, t), |KeptPaths(r.paths, removed)|)
    ensures AscendingTrigrams(Merged(r, d, removed).groups)
  {
    var ids, base := IdMap(r.paths, removed), |KeptPaths(r.paths, removed)|;
    hide IdMap, Zip, KeptPaths, Remapped, Shifted, Merged, PostingsOf;
    MergedGroups(r, d, removed);
    ZipPostings(RemapGroups(r.groups, ids), ShiftGroups(d.groups, base), t);
    ZipAscending(RemapGroups(r.groups, ids), ShiftGroups(d.groups, base), -1);
    PostingsOfRemapped(r.groups, ids, t);
    PostingsOfShifted(d.groups, base, t);
  }

  lemma PostingsOfGood(gs: seq<Group>, files: nat, t: u32)
    requires GoodGroups(gs, files)
    ensures StrictlyAscending(PostingsOf(gs, t)) && IdsBelow(PostingsOf(gs, t), files)
  {
    hide PostingsOf;
    if PostingsOf(gs, t) != [] {
      PostingsOfMember(gs, t);
      var i :| 0 <= i < |gs| && gs[i].trigram == t && PostingsOf(gs, t) == gs[i].postings;
      assert GoodList(gs[i].postings, files);
    }
  }

  /** Every merged list is ascending and names only merged files. */
  lemma MergedListGood(r: Index, d: Index, removed: set<Path>, t: u32)
    requires WellFormedIndex(r) && WellFormedIndex(d) && Countable(r, d, removed)
    ensures var ps := PostingsOf(Merged(r, d, removed).groups, t);
            StrictlyAscending(ps) && IdsBelow(ps, |KeptPaths(r.paths, removed)| + |d.paths|)
  {
    hide IdMap, KeptPaths, Remapped, Shifted, Merged, PostingsOf, GoodGroups;
    var base := |KeptPaths(r.paths, removed)|;
    MergedPostings(r, d, removed, t);
    var rp, dp := PostingsOf(r.groups, t), PostingsOf(d.groups, t);
    PostingsOfGood(r.groups, |r.paths|, t);
    PostingsOfGood(d.groups, |d.paths|, t);
    RemappedAscending(rp, r.paths, removed);
    RemappedBelow(rp, r.paths, removed, |r.paths|);
    assert r.paths[..|r.paths|] == r.paths;
    ShiftedIds(dp, base, |d.paths|);
  }

  lemma MergedTrigramsFit(r: Index, d: Index, removed: set<Path>)
    requires WellFormedIndex(r) && WellFormedIndex(d)
    ensures forall g :: g in Merged(r, d, removed).groups ==> g.postings != [] && g.trigram < TRIGRAMS
  {
    var a := ReaderPart(r, removed);
    var b := ShiftGroups(d.groups, |KeptPaths(r.paths, removed)|);
    hide IdMap, Zip, KeptPaths, Remapped, Shifted, Merged;
    MergedGroups(r, d, removed);
    ZipNonEmpty(a, b);
    forall t | t in Trigrams(a) || t in Trigrams(b)
      ensures t < TRIGRAMS
    {
      assert forall i :: 0 <= i < |a| ==> a[i].trigram == r.groups[i].trigram;
      assert forall i :: 0 <= i < |b| ==> b[i].trigram == d.groups[i].trigram;
    }
  }

  lemma MergedGroupsGood(r: Index, d: Index, removed: set<Path>)
    requires WellFormedIndex(r) && WellFormedIndex(d) && Countable(r, d, removed)
    ensures GoodGroups(Merged(r, d, removed).groups, |KeptPaths(r.paths, removed)| + |d.paths|)
  {
    hide WellFormedIndex, KeptPaths, Merged, PostingsOf;
    var gs := Merged(r, d, removed).groups;
    MergedPostings(r, d, removed, 0);
    MergedTrigramsFit(r, d, removed);
    forall i | 0 <= i < |gs|
      ensures gs[i].trigram < TRIGRAMS && GoodList(gs[i].postings, |KeptPaths(r.paths, removed)| + |d.paths|)
    {
      assert gs[i] in gs;
      PostingsOfGroup(gs, i);
      MergedListGood(r, d, removed, gs[i].trigram);
    }
  }

  lemma {:induction false} KeptPathsDistinct(paths: seq<Path>, removed: set<Path>)
    requires Distinct(paths)
    ensures Distinct(KeptPaths(paths, removed))
    ensures forall p :: p in KeptPaths(paths, removed) <==> p in paths && p !in removed
  {
    if paths != [] {
      var n := |paths| - 1;
      KeptPathsDistinct(paths[..n], removed);
      assert paths == paths[..n] + [paths[n]];
      assert paths[n] !in paths[..n];
    }
  }

  /** The merged paths are distinct exactly when the removed set covers what both sides share. */
  lemma DistinctIffCovered(r: Index, d: Index, removed: set<Path>)
    requires Distinct(r.paths) && Distinct(d.paths)
    ensures Distinct(Merged(r, d, removed).paths) <==> Covers(r, d, removed)
  {
    hide KeptPaths, Zip, IdMap;
    var kept := KeptPaths(r.paths, removed);
    var all := kept + d.paths;
    KeptPathsDistinct(r.paths, removed);
    if Distinct(all) {
      forall p | p in r.paths && p in d.paths
        ensures p in removed
      {
        var j :| 0 <= j < |d.paths| && d.paths[j] == p;
        assert all[|kept| + j] == p;
        assert forall i :: 0 <= i < |kept| ==> all[i] == kept[i] && all[i] != all[|kept| + j];
      }
    }
    if Covers(r, d, removed) {
      forall i, j | 0 <= i < j < |all|
        ensures all[i] != all[j]
      {
        if i < |kept| <= j {
          assert kept[i] in kept;
        }
      }
    }
  }

  /** Merging well-formed indexes gives a well-formed index. */
  lemma MergePreservesWellFormedness(r: Index, d: Index, removed: set<Path>)
    requires WellFormedIndex(r) && WellFormedIndex(d)
    requires Countable(r, d, removed) && Covers(r, d, removed)
    ensures WellFormedIndex(Merged(r, d, removed))
  {
    hide KeptPaths, Zip, IdMap, Storable, GoodGroups;
    var m := Merged(r, d, removed);
    MergedGroupsGood(r, d, removed);
    DistinctIffCovered(r, d, removed);
    KeptPathsDistinct(r.paths, removed);
    forall i | 0 <= i < |m.paths|
      ensures Storable(m.paths[i])
    {
      assert m.paths[i] in m.paths;
    }
  }

  /** Membership in the per-file map, through posting lists. */
  lemma TrigramsOfMember(gs: seq<Group>, id: nat, t: u32)
    ensures t in TrigramsOf(gs, id) <==> MasksIn(PostingsOf(gs, t), id).Some?
    ensures t in TrigramsOf(gs, id) ==> TrigramsOf(gs, id)[t] == MasksIn(PostingsOf(gs, t), id).value
  {
    hide PostingsOf;
    if MasksIn(PostingsOf(gs, t), id).Some? {
      PostingsOfMember(gs, t);
    }
  }

  lemma SameTrigrams(a: seq<Group>, i: nat, b: seq<Group>, j: nat)
    requires forall t: u32 :: MasksIn(PostingsOf(a, t), i) == MasksIn(PostingsOf(b, t), j)
    ensures TrigramsOf(a, i) == TrigramsOf(b, j)
  {
    hide PostingsOf, TrigramsOf, MasksIn;
    var m, n := TrigramsOf(a, i), TrigramsOf(b, j);
    forall t: u32
      ensures t in m <==> t in n
      ensures t in m ==> m[t] == n[t]
    {
      TrigramsOfMember(a, i, t);
      TrigramsOfMember(b, j, t);
      assert MasksIn(PostingsOf(a, t), i) == MasksIn(PostingsOf(b, t), j);
    }
  }

  /** A kept file keeps everything the reader recorded about it. */
  lemma KeptFileUnchanged(r: Index, d: Index, removed: set<Path>, i: nat, j: nat)
    requires WellFormedIndex(r) && WellFormedIndex(d) && Countable(r, d, removed)
    requires KeptAs(r.paths, removed, i, j)
    ensures TrigramsOf(Merged(r, d, removed).groups, j) == TrigramsOf(r.groups, i)
  {
    hide IdMap, KeptPaths, Remapped, Merged, PostingsOf, TrigramsOf, MasksIn, GoodGroups;
    var gs, base := Merged(r, d, removed).groups, |KeptPaths(r.paths, removed)|;
    forall t: u32
      ensures MasksIn(PostingsOf(gs, t), j) == MasksIn(PostingsOf(r.groups, t), i)
    {
      var rp, dp := PostingsOf(r.groups, t), PostingsOf(d.groups, t);
      MergedPostings(r, d, removed, t);
      MasksInConcat(Remapped(rp, IdMap(r.paths, removed)), Shifted(dp, base), j);
      RemappedMasks(rp, r.paths, removed, i, j);
      PostingsOfGood(d.groups, |d.paths|, t);
      ShiftedIds(dp, base, |d.paths|);
      NoMasksOutside(Shifted(dp, base), j);
    }
    SameTrigrams(gs, j, r.groups, i);
  }

  /** A delta file brings everything the delta recorded about it. */
  lemma DeltaFileUnchanged(r: Index, d: Index, removed: set<Path>, i: nat)
    requires WellFormedIndex(r) && WellFormedIndex(d) && Countable(r, d, removed)
    requires i < |d.paths|
    ensures TrigramsOf(Merged(r, d, removed).groups, |KeptPaths(r.paths, removed)| + i)
         == TrigramsOf(d.groups, i)
  {
    hide IdMap, KeptPaths, Remapped, Shifted, Merged, PostingsOf, TrigramsOf, MasksIn, GoodGroups;
    var gs, base := Merged(r, d, removed).groups, |KeptPaths(r.paths, removed)|;
    forall t: u32
      ensures MasksIn(PostingsOf(gs, t), base + i) == MasksIn(PostingsOf(d.groups, t), i)
    {
      var rp, dp := PostingsOf(r.groups, t), PostingsOf(d.groups, t);
      MergedPostings(r, d, removed, t);
      MasksInConcat(Remapped(rp, IdMap(r.paths, removed)), Shifted(dp, base), base + i);
      PostingsOfGood(r.groups, |r.paths|, t);
      RemappedBelow(rp, r.paths, removed, |r.paths|);
      assert r.paths[..|r.paths|] == r.paths;
      NoMasksOutside(Remapped(rp, IdMap(r.paths, removed)), base + i);
      PostingsOfGood(d.groups, |d.paths|, t);
      ShiftedMasks(dp, base, |d.paths|, i);
    }
    SameTrigrams(gs, base + i, d.groups, i);
  }

  lemma KeysOfMeaning(ix: Index)
    requires Distinct(ix.paths)
    ensures forall p :: p in Meaning(ix) <==> p in ix.paths
  {
  }

  lemma MeaningAt(ix: Index, i: nat)
    requires Distinct(ix.paths) && i < |ix.paths|
    ensures ix.paths[i] in Meaning(ix) && Meaning(ix)[ix.paths[i]] == TrigramsOf(ix.groups, i)
  {
  }

  lemma MergedPaths(r: Index, d: Index, removed: set<Path>)
    requires Distinct(r.paths)
    ensures Merged(r, d, removed).paths == KeptPaths(r.paths, removed) + d.paths
    ensures forall p :: p in Merged(r, d, removed).paths <==> (p in r.paths && p !in removed) || p in d.paths
  {
    hide KeptPaths, Zip, IdMap;
    KeptPathsDistinct(r.paths, removed);
  }

  /** What the merged index says about its `j`-th file. */
  lemma MergedMeaningAt(r: Index, d: Index, removed: set<Path>, j: nat)
    requires WellFormedIndex(r) && WellFormedIndex(d)
    requires Countable(r, d, removed) && Covers(r, d, removed)
    requires WellFormedIndex(Merged(r, d, removed)) && j < |Merged(r, d, removed).paths|
    ensures var m := Merged(r, d, removed); var p := m.paths[j];
            && p in Meaning(m)
            && (p in Meaning(d) ==> Meaning(m)[p] == Meaning(d)[p])
            && (p !in Meaning(d) ==> p in Meaning(r) && Meaning(m)[p] == Meaning(r)[p])
  {
    hide IdMap, KeptPaths, Merged, TrigramsOf, Meaning, GoodGroups;
    var m, kept := Merged(r, d, removed), KeptPaths(r.paths, removed);
    MergedPaths(r, d, removed);
    MeaningAt(m, j);
    KeysOfMeaning(d);
    KeysOfMeaning(r);
    if j < |kept| {
      var i := KeptFrom(r.paths, removed, j);
      KeptFileUnchanged(r, d, removed, i, j);
      MeaningAt(r, i);
    } else {
      DeltaFileUnchanged(r, d, removed, j - |kept|);
      MeaningAt(d, j - |kept|);
    }
  }

  /** One merge is one map update: drop the removed paths, then let the delta win. */
  lemma MergeIsMapUpdate(r: Index, d: Index, removed: set<Path>)
    requires WellFormedIndex(r) && WellFormedIndex(d)
    requires Countable(r, d, removed) && Covers(r, d, removed)
    ensures WellFormedIndex(Merged(r, d, removed))
    ensures Meaning(Merged(r, d, removed)) == (Meaning(r) - removed) + Meaning(d)
  {
    hide IdMap, KeptPaths, Merged, TrigramsOf, Meaning, GoodGroups;
    MergePreservesWellFormedness(r, d, removed);
    var m := Merged(r, d, removed);
    var update := (Meaning(r) - removed) + Meaning(d);
    MergedPaths(r, d, removed);
    KeysOfMeaning(m);
    KeysOfMeaning(r);
    KeysOfMeaning(d);
    assert Meaning(m).Keys == update.Keys;
    forall p | p in Meaning(m)
      ensures Meaning(m)[p] == update[p]
    {
      var j :| 0 <= j < |m.paths| && m.paths[j] == p;
      MergedMeaningAt(r, d, removed, j);
    }
  }
}
