/** The merged index: the id remap, the 2-way walk over trigrams, and what each trigram ends up with. */
module Merging {
  import opened Bytes
  import opened OnDisk
  import opened IndexImage

  /** Marks a reader file that is not carried over. */
  const DROPPED: u32 := U32_MAX

  // ---- the file-id remap ----

  /** The reader paths that are carried over, in order. */
  function KeptPaths(paths: seq<Path>, removed: set<Path>): (kept: seq<Path>)
    ensures |kept| <= |paths|
  {
    if paths == [] then []
    else
      var last := paths[|paths| - 1];
      KeptPaths(paths[..|paths| - 1], removed) + if last in removed then [] else [last]
  }

  /** New id of every reader file: its position among the kept ones, or the sentinel. */
  function IdMap(paths: seq<Path>, removed: set<Path>): (ids: seq<nat>)
    ensures |ids| == |paths|
  {
    if paths == [] then []
    else
      var init := paths[..|paths| - 1];
      IdMap(init, removed) + [if paths[|paths| - 1] in removed then DROPPED else |KeptPaths(init, removed)|]
  }

  /** A reader file that is carried over under id `j`. */
  ghost predicate KeptAs(paths: seq<Path>, removed: set<Path>, i: nat, j: nat) {
    && i < |paths| && paths[i] !in removed
    && IdMap(paths, removed)[i] == j < |KeptPaths(paths, removed)|
    && KeptPaths(paths, removed)[j] == paths[i]
  }

  ghost predicate Reached(paths: seq<Path>, removed: set<Path>, j: nat) {
    exists i :: KeptAs(paths, removed, i, j)
  }

  lemma {:induction false} IdMapAt(paths: seq<Path>, removed: set<Path>, i: nat)
    requires i < |paths|
    ensures IdMap(paths, removed)[i]
         == if paths[i] in removed then DROPPED else |KeptPaths(paths[..i], removed)|
    ensures paths[i] !in removed ==> KeptAs(paths, removed, i, IdMap(paths, removed)[i])
  {
    var n := |paths| - 1;
    if i < n {
      IdMapAt(paths[..n], removed, i);
      assert paths[..n][..i] == paths[..i];
    }
  }

  lemma {:induction false} KeptFrom(paths: seq<Path>, removed: set<Path>, j: nat) returns (i: nat)
    requires j < |KeptPaths(paths, removed)|
    ensures KeptAs(paths, removed, i, j)
  {
    var n := |paths| - 1;
    if j < |KeptPaths(paths[..n], removed)| {
      i := KeptFrom(paths[..n], removed, j);
    } else {
      i := n;
    }
  }

  lemma {:induction false} KeptPathsGrow(paths: seq<Path>, removed: set<Path>, i: nat)
    requires i <= |paths|
    ensures |KeptPaths(paths[..i], removed)| <= |KeptPaths(paths, removed)|
  {
    if i < |paths| {
      var n := |paths| - 1;
      KeptPathsGrow(paths[..n], removed, i);
      assert paths[..n][..i] == paths[..i];
    } else {
      assert paths[..i] == paths;
    }
  }

  /**
   * The remap is a strictly increasing bijection from the kept files onto `0..base`, and no live
   * id is the sentinel as long as the kept files can be counted in a `u32`.
   */
  lemma RemapIsBijection(paths: seq<Path>, removed: set<Path>)
    requires |KeptPaths(paths, removed)| <= U32_MAX
    ensures var ids := IdMap(paths, removed); var base := |KeptPaths(paths, removed)|;
            && (forall i :: 0 <= i < |paths| ==>
                  if paths[i] in removed then ids[i] == DROPPED else ids[i] < base && ids[i] != DROPPED)
            && (forall i, k :: 0 <= i < k < |paths| && paths[i] !in removed && paths[k] !in removed ==>
                  ids[i] < ids[k])
            && (forall j :: 0 <= j < base ==> Reached(paths, removed, j))
  {
    hide KeptPaths, IdMap;
    var ids, base := IdMap(paths, removed), |KeptPaths(paths, removed)|;
    forall i | 0 <= i < |paths|
      ensures if paths[i] in removed then ids[i] == DROPPED else ids[i] < base && ids[i] != DROPPED
    {
      IdMapAt(paths, removed, i);
    }
    forall i, k | 0 <= i < k < |paths| && paths[i] !in removed && paths[k] !in removed
      ensures ids[i] < ids[k]
    {
      RemapIncreases(paths, removed, i, k);
    }
    forall j | 0 <= j < base
      ensures Reached(paths, removed, j)
    {
      var i := KeptFrom(paths, removed, j);
    }
  }

  lemma RemapIncreases(paths: seq<Path>, removed: set<Path>, i: nat, k: nat)
    requires i < k < |paths| && paths[i] !in removed && paths[k] !in removed
    ensures IdMap(paths, removed)[i] < IdMap(paths, removed)[k]
  {
    hide IdMap;
    IdMapAt(paths, removed, i);
    IdMapAt(paths, removed, k);
    KeptPathsGrow(paths[..k], removed, i + 1);
    assert paths[..k][..i + 1] == paths[..i + 1];
    assert paths[..i + 1][..i] == paths[..i];
  }

  // ---- posting lists ----

  /** New id of a posting; an id without a file counts as dropped. */
  function NewId(ids: seq<nat>, id: nat): nat {
    if id < |ids| then ids[id] else DROPPED
  }

  /** Drop the postings of removed files and renumber the others. */
  function Remapped(ps: seq<Posting>, ids: seq<nat>): (out: seq<Posting>)
    ensures |out| <= |ps|
  {
    if ps == [] then []
    else
      var last := ps[|ps| - 1];
      var id := NewId(ids, last.fileId);
      Remapped(ps[..|ps| - 1], ids)
      + if id >= DROPPED then [] else [Posting(id, last.locMask, last.nextMask)]
  }

  /** Renumber postings to follow `base` files; ids are cut to `u32`. */
  function Shifted(ps: seq<Posting>, base: nat): (out: seq<Posting>)
    ensures |out| == |ps|
  {
    seq(|ps|, i requires 0 <= i < |ps| =>
      Posting((base + ps[i].fileId) % (U32_MAX + 1), ps[i].locMask, ps[i].nextMask))
  }

  function RemapGroups(gs: seq<Group>, ids: seq<nat>): (out: seq<Group>)
    ensures |out| == |gs|
  {
    seq(|gs|, i requires 0 <= i < |gs| => Group(gs[i].trigram, Remapped(gs[i].postings, ids)))
  }

  function ShiftGroups(gs: seq<Group>, base: nat): (out: seq<Group>)
    ensures |out| == |gs|
  {
    seq(|gs|, i requires 0 <= i < |gs| => Group(gs[i].trigram, Shifted(gs[i].postings, base)))
  }

  /** A trigram left without postings is not written. */
  function Emit(g: Group): seq<Group> {
    if g.postings == [] then [] else [g]
  }

  /** The 2-way merge of two trigram streams; equal trigrams join their lists. */
  function Zip(a: seq<Group>, b: seq<Group>): seq<Group>
    decreases |a| + |b|
  {
    if a == [] && b == [] then []
    else if b == [] || (a != [] && a[0].trigram < b[0].trigram) then Emit(a[0]) + Zip(a[1..], b)
    else if a == [] || b[0].trigram < a[0].trigram then Emit(b[0]) + Zip(a, b[1..])
    else Emit(Group(a[0].trigram, a[0].postings + b[0].postings)) + Zip(a[1..], b[1..])
  }

  /** The merged index. With nothing removed, reader lists are taken over as they are. */
  function Merged(r: Index, d: Index, removed: set<Path>): Index {
    var kept := KeptPaths(r.paths, removed);
    Index(kept + d.paths,
          Zip(if removed == {} then r.groups else RemapGroups(r.groups, IdMap(r.paths, removed)),
              ShiftGroups(d.groups, |kept|)))
  }

  // ---- facts about the 2-way merge ----

  ghost predicate TrigramsAbove(gs: seq<Group>, t: int) {
    forall i :: 0 <= i < |gs| ==> t < gs[i].trigram
  }

  lemma {:induction false} NoPostingsBelow(gs: seq<Group>, t: u32)
    requires TrigramsAbove(gs, t)
    ensures PostingsOf(gs, t) == []
  {
    if gs != [] {
      NoPostingsBelow(gs[1..], t);
    }
  }

  lemma AscendingTail(gs: seq<Group>)
    requires gs != [] && AscendingTrigrams(gs)
    ensures AscendingTrigrams(gs[1..]) && TrigramsAbove(gs[1..], gs[0].trigram)
  {
  }

  /** The merge stays ascending and adds no trigram below both streams. */
  lemma {:induction false} ZipAscending(a: seq<Group>, b: seq<Group>, t: int)
    requires AscendingTrigrams(a) && AscendingTrigrams(b)
    requires TrigramsAbove(a, t) && TrigramsAbove(b, t)
    ensures AscendingTrigrams(Zip(a, b)) && TrigramsAbove(Zip(a, b), t)
    decreases |a| + |b|
  {
    hide AscendingTrigrams;
    if a == [] && b == [] {
    } else if b == [] || (a != [] && a[0].trigram < b[0].trigram) {
      TailsAbove(a, a[1..], a[0].trigram);
      TailsAbove(b, b, a[0].trigram);
      ZipAscending(a[1..], b, a[0].trigram);
      EmitAscending(a[0], Zip(a[1..], b), t);
    } else if a == [] || b[0].trigram < a[0].trigram {
      TailsAbove(a, a, b[0].trigram);
      TailsAbove(b, b[1..], b[0].trigram);
      ZipAscending(a, b[1..], b[0].trigram);
      EmitAscending(b[0], Zip(a, b[1..]), t);
    } else {
      TailsAbove(a, a[1..], a[0].trigram);
      TailsAbove(b, b[1..], a[0].trigram);
      ZipAscending(a[1..], b[1..], a[0].trigram);
      EmitAscending(Group(a[0].trigram, a[0].postings + b[0].postings), Zip(a[1..], b[1..]), t);
    }
  }

  lemma EmitAscending(g: Group, gs: seq<Group>, t: int)
    requires AscendingTrigrams(gs) && TrigramsAbove(gs, g.trigram) && t < g.trigram
    ensures AscendingTrigrams(Emit(g) + gs) && TrigramsAbove(Emit(g) + gs, t)
  {
  }

  lemma PostingsOfEmit(g: Group, gs: seq<Group>, t: u32)
    requires TrigramsAbove(gs, g.trigram)
    ensures PostingsOf(Emit(g) + gs, t) == if t == g.trigram then g.postings else PostingsOf(gs, t)
  {
    NoPostingsBelow(gs, g.trigram);
    if g.postings == [] {
      assert Emit(g) + gs == gs;
    } else {
      assert (Emit(g) + gs)[1..] == gs;
    }
  }

  /** For every trigram the merge holds the reader's list followed by the delta's. */
  lemma {:induction false} ZipPostings(a: seq<Group>, b: seq<Group>, t: u32)
    requires AscendingTrigrams(a) && AscendingTrigrams(b)
    ensures PostingsOf(Zip(a, b), t) == PostingsOf(a, t) + PostingsOf(b, t)
    decreases |a| + |b|
  {
    hide AscendingTrigrams;
    if a == [] && b == [] {
    } else if b == [] || (a != [] && a[0].trigram < b[0].trigram) {
      ZipStepPostings(a, b, t, a[0], a[1..], b);
    } else if a == [] || b[0].trigram < a[0].trigram {
      ZipStepPostings(a, b, t, b[0], a, b[1..]);
    } else {
      ZipStepPostings(a, b, t, Group(a[0].trigram, a[0].postings + b[0].postings), a[1..], b[1..]);
    }
  }

  lemma {:induction false} ZipStepPostings(a: seq<Group>, b: seq<Group>, t: u32, g: Group, a': seq<Group>,
                                           b': seq<Group>)
    requires AscendingTrigrams(a) && AscendingTrigrams(b)
    requires a' == a || (a != [] && a' == a[1..] && g.trigram == a[0].trigram)
    requires b' == b || (b != [] && b' == b[1..] && g.trigram == b[0].trigram)
    requires a' == a && a != [] ==> g.trigram < a[0].trigram
    requires b' == b && b != [] ==> g.trigram < b[0].trigram
    requires |a'| + |b'| < |a| + |b|
    requires g.postings == (if a' == a then [] else a[0].postings) + (if b' == b then [] else b[0].postings)
    ensures PostingsOf(Emit(g) + Zip(a', b'), t) == PostingsOf(a, t) + PostingsOf(b, t)
    decreases |a| + |b|, 0
  {
    hide Zip;
    TailsAbove(a, a', g.trigram);
    TailsAbove(b, b', g.trigram);
    ZipAscending(a', b', g.trigram);
    PostingsOfEmit(g, Zip(a', b'), t);
    if t == g.trigram {
      NoPostingsBelow(a', t);
      NoPostingsBelow(b', t);
    } else {
      ZipPostings(a', b', t);
    }
  }

  lemma TailsAbove(gs: seq<Group>, gs': seq<Group>, t: u32)
    requires AscendingTrigrams(gs)
    requires gs' == gs || (gs != [] && gs' == gs[1..] && t == gs[0].trigram)
    requires gs' == gs && gs != [] ==> t < gs[0].trigram
    ensures AscendingTrigrams(gs') && TrigramsAbove(gs', t)
  {
  }

  /** The merge writes no empty list, and every list it writes is the one its trigram stands for. */
  lemma {:induction false} ZipNonEmpty(a: seq<Group>, b: seq<Group>)
    ensures forall g :: g in Zip(a, b) ==> g.postings != [] && (g.trigram in Trigrams(a) || g.trigram in Trigrams(b))
    decreases |a| + |b|
  {
    if a == [] && b == [] {
    } else if b == [] || (a != [] && a[0].trigram < b[0].trigram) {
      ZipNonEmpty(a[1..], b);
    } else if a == [] || b[0].trigram < a[0].trigram {
      ZipNonEmpty(a, b[1..]);
    } else {
      ZipNonEmpty(a[1..], b[1..]);
    }
  }

  ghost function Trigrams(gs: seq<Group>): set<u32> {
    set g <- gs :: g.trigram
  }

  lemma {:induction false} PostingsOfGroup(gs: seq<Group>, i: nat)
    requires AscendingTrigrams(gs) && i < |gs|
    ensures PostingsOf(gs, gs[i].trigram) == gs[i].postings
  {
    if i > 0 {
      AscendingTail(gs);
      PostingsOfGroup(gs[1..], i - 1);
    }
  }

  lemma {:induction false} PostingsOfMember(gs: seq<Group>, t: u32)
    requires PostingsOf(gs, t) != []
    ensures exists i :: 0 <= i < |gs| && gs[i].trigram == t && PostingsOf(gs, t) == gs[i].postings
  {
    if gs[0].trigram != t {
      PostingsOfMember(gs[1..], t);
      var i :| 0 <= i < |gs[1..]| && gs[1..][i].trigram == t && PostingsOf(gs, t) == gs[1..][i].postings;
      assert gs[i + 1].trigram == t;
    } else {
      assert gs[0].trigram == t;
    }
  }

  // ---- facts about remapped and shifted lists ----

  lemma {:induction false} MasksInConcat(a: seq<Posting>, b: seq<Posting>, id: nat)
    ensures MasksIn(a + b, id) == if MasksIn(a, id).Some? then MasksIn(a, id) else MasksIn(b, id)
  {
    if a == [] {
      assert a + b == b;
    } else {
      SlicesOfConcat(a, b, 1);
      MasksInConcat(a[1..], b, id);
    }
  }

  lemma {:induction false} NoMasksOutside(ps: seq<Posting>, id: nat)
    requires forall i :: 0 <= i < |ps| ==> ps[i].fileId != id
    ensures MasksIn(ps, id).None?
  {
    if ps != [] {
      NoMasksOutside(ps[1..], id);
    }
  }

  /** Postings of the first `m` files land below the number of those files that are kept. */
  lemma {:induction false} RemappedBelow(ps: seq<Posting>, paths: seq<Path>, removed: set<Path>, m: nat)
    requires m <= |paths| && IdsBelow(ps, m)
    ensures IdsBelow(Remapped(ps, IdMap(paths, removed)), |KeptPaths(paths[..m], removed)|)
  {
    hide KeptPaths, IdMap;
    if ps != [] {
      var id := ps[|ps| - 1].fileId;
      RemappedBelow(ps[..|ps| - 1], paths, removed, m);
      IdMapAt(paths, removed, id);
      if paths[id] !in removed {
        KeptOneMore(paths, removed, id, m);
      }
    }
  }

  lemma KeptOneMore(paths: seq<Path>, removed: set<Path>, i: nat, m: nat)
    requires i < m <= |paths| && paths[i] !in removed
    ensures |KeptPaths(paths[..i], removed)| < |KeptPaths(paths[..m], removed)|
  {
    KeptPathsGrow(paths[..m], removed, i + 1);
    assert paths[..m][..i + 1] == paths[..i + 1];
    assert paths[..i + 1][..i] == paths[..i];
  }

  lemma {:induction false} RemappedAscending(ps: seq<Posting>, paths: seq<Path>, removed: set<Path>)
    requires StrictlyAscending(ps) && IdsBelow(ps, |paths|)
    ensures StrictlyAscending(Remapped(ps, IdMap(paths, removed)))
  {
    hide KeptPaths, IdMap;
    if ps != [] {
      var n := |ps| - 1;
      var id := ps[n].fileId;
      RemappedAscending(ps[..n], paths, removed);
      RemappedBelow(ps[..n], paths, removed, id);
      IdMapAt(paths, removed, id);
    }
  }

  lemma {:induction false} RemappedMasks(ps: seq<Posting>, paths: seq<Path>, removed: set<Path>, i: nat, j: nat)
    requires |KeptPaths(paths, removed)| <= U32_MAX && KeptAs(paths, removed, i, j)
    ensures MasksIn(Remapped(ps, IdMap(paths, removed)), j) == MasksIn(ps, i)
  {
    hide KeptPaths, IdMap, MasksIn;
    if ps != [] {
      var n := |ps| - 1;
      var p, ids := ps[n], IdMap(paths, removed);
      RemappedMasks(ps[..n], paths, removed, i, j);
      SameFile(paths, removed, i, j, p.fileId);
      assert ps == ps[..n] + [p];
      var tail := Remapped(ps, ids)[|Remapped(ps[..n], ids)|..];
      assert Remapped(ps, ids) == Remapped(ps[..n], ids) + tail;
      MasksInConcat(ps[..n], [p], i);
      MasksInConcat(Remapped(ps[..n], ids), tail, j);
      if NewId(ids, p.fileId) < DROPPED {
        assert tail == [Posting(NewId(ids, p.fileId), p.locMask, p.nextMask)];
        MasksInOne(tail[0], j);
      } else {
        assert tail == [];
        NoMasksOutside(tail, j);
      }
      MasksInOne(p, i);
    } else {
      NoMasksOutside(ps, i);
      NoMasksOutside(ps, j);
    }
  }

  lemma MasksInOne(p: Posting, id: nat)
    ensures MasksIn([p], id) == if p.fileId == id then Some(Masks(p.locMask, p.nextMask)) else None
  {
    assert [p][1..] == [];
  }

  /** A posting is renumbered to `j` exactly when it names the file carried over as `j`. */
  lemma SameFile(paths: seq<Path>, removed: set<Path>, i: nat, j: nat, id: nat)
    requires |KeptPaths(paths, removed)| <= U32_MAX && KeptAs(paths, removed, i, j)
    ensures NewId(IdMap(paths, removed), id) == j <==> id == i
    ensures NewId(IdMap(paths, removed), i) < DROPPED
  {
    hide KeptPaths, IdMap;
    if id < |paths| {
      IdMapAt(paths, removed, id);
      if id != i && paths[id] !in removed {
        if id < i {
          RemapIncreases(paths, removed, id, i);
        } else {
          RemapIncreases(paths, removed, i, id);
        }
      }
    }
  }

  lemma ShiftedIds(ps: seq<Posting>, base: nat, files: nat)
    requires IdsBelow(ps, files) && base + files <= U32_MAX
    ensures forall i :: 0 <= i < |ps| ==> Shifted(ps, base)[i].fileId == base + ps[i].fileId
    ensures StrictlyAscending(ps) ==> StrictlyAscending(Shifted(ps, base))
    ensures IdsBelow(Shifted(ps, base), base + files)
  {
    forall i | 0 <= i < |ps|
      ensures Shifted(ps, base)[i].fileId == base + ps[i].fileId
    {
      assert ps[i].fileId < files;
    }
  }

  lemma {:induction false} ShiftedMasks(ps: seq<Posting>, base: nat, files: nat, i: nat)
    requires IdsBelow(ps, files) && base + files <= U32_MAX
    ensures MasksIn(Shifted(ps, base), base + i) == MasksIn(ps, i)
  {
    ShiftedIds(ps, base, files);
    if ps != [] {
      assert Shifted(ps, base)[1..] == Shifted(ps[1..], base);
      ShiftedMasks(ps[1..], base, files, i);
    }
  }

  lemma {:induction false} PostingsOfRemapped(gs: seq<Group>, ids: seq<nat>, t: u32)
    ensures PostingsOf(RemapGroups(gs, ids), t) == Remapped(PostingsOf(gs, t), ids)
  {
    if gs != [] {
      assert RemapGroups(gs, ids)[1..] == RemapGroups(gs[1..], ids);
      PostingsOfRemapped(gs[1..], ids, t);
    }
  }

  lemma {:induction false} PostingsOfShifted(gs: seq<Group>, base: nat, t: u32)
    ensures PostingsOf(ShiftGroups(gs, base), t) == Shifted(PostingsOf(gs, t), base)
  {
    if gs != [] {
      assert ShiftGroups(gs, base)[1..] == ShiftGroups(gs[1..], base);
      PostingsOfShifted(gs[1..], base, t);
    }
  }

  // ---- nothing removed: the verbatim path is the general path ----

  lemma {:induction false} NothingRemoved(paths: seq<Path>)
    ensures KeptPaths(paths, {}) == paths
    ensures forall i :: 0 <= i < |paths| ==> IdMap(paths, {})[i] == i
  {
    if paths != [] {
      NothingRemoved(paths[..|paths| - 1]);
    }
  }

  lemma {:induction false} RemapNothing(ps: seq<Posting>, paths: seq<Path>)
    requires IdsBelow(ps, |paths|) && |paths| <= U32_MAX
    ensures Remapped(ps, IdMap(paths, {})) == ps
  {
    hide IdMap;
    NothingRemoved(paths);
    if ps != [] {
      RemapNothing(ps[..|ps| - 1], paths);
      assert ps == ps[..|ps| - 1] + [ps[|ps| - 1]];
    }
  }

  /** Taking the reader's lists over verbatim gives what the general remap would have given. */
  lemma VerbatimIsRemap(r: Index)
    requires |r.paths| <= U32_MAX
    requires forall i :: 0 <= i < |r.groups| ==> IdsBelow(r.groups[i].postings, |r.paths|)
    ensures RemapGroups(r.groups, IdMap(r.paths, {})) == r.groups
  {
    hide IdMap, Remapped;
    forall i | 0 <= i < |r.groups|
      ensures Remapped(r.groups[i].postings, IdMap(r.paths, {})) == r.groups[i].postings
    {
      RemapNothing(r.groups[i].postings, r.paths);
    }
  }
}
