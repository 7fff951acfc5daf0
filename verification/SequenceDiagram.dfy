/** Sequence-diagram parsing over classified statements: participants, frames, boxes, notes and activations. */
module SequenceDiagram {
  import opened Bytes

  type Id = string

  datatype Edge = Edge(from: Id, to: Id)

  datatype FrameKind = Alt | Opt | Loop | Par | Rect | Critical | Break

  /** Part of a frame: the messages `start..end`. */
  datatype Section = Section(start: nat, end: nat)

  datatype Frame = Frame(kind: FrameKind, sections: seq<Section>, start: nat, end: nat)

  datatype Note = Note(participants: seq<Id>, index: nat)

  datatype Activation = Activation(participant: Id, index: nat, on: bool)

  /** A classified line. `activation` is the `+` or `-` of a message arrow. */
  datatype Stmt =
    | Participant(id: Id)
    | OpenBox
    | OpenFrame(kind: FrameKind)
    | Else
    | And
    | OptionLine
    | End
    | NoteLine(ids: seq<Id>)
    | ActivateLine(id: Id, on: bool)
    | Message(from: Id, to: Id, activation: Option<bool>)
    | Other

  datatype Diagram = Diagram(
    order: seq<Id>, nodes: set<Id>, edges: seq<Edge>,
    openFrames: seq<Frame>, frames: seq<Frame>,
    openBoxes: seq<seq<Id>>, boxes: seq<seq<Id>>,
    notes: seq<Note>, activations: seq<Activation>)

  const EMPTY := Diagram([], {}, [], [], [], [], [], [], [])

  // ---- what each statement does ----

  function Push(ids: seq<Id>, id: Id): seq<Id> {
    if id in ids then ids else ids + [id]
  }

  /** Name a participant: it joins the order once and becomes a node. */
  function Name(d: Diagram, id: Id): Diagram {
    d.(order := Push(d.order, id), nodes := d.nodes + {id})
  }

  function NameAll(d: Diagram, ids: seq<Id>): Diagram {
    if ids == [] then d else Name(NameAll(d, ids[..|ids| - 1]), ids[|ids| - 1])
  }

  function Last<T>(s: seq<T>): T
    requires s != []
  {
    s[|s| - 1]
  }

  /** End the last section at `at`. */
  function EndSection(f: Frame, at: nat): Frame {
    if f.sections == [] then f
    else f.(sections := f.sections[|f.sections| - 1 := Section(Last(f.sections).start, at)])
  }

  /** Start another section of the innermost open frame. */
  function Split(d: Diagram): Diagram
    requires d.openFrames != []
  {
    var at := |d.edges|;
    var f := EndSection(Last(d.openFrames), at);
    d.(openFrames := d.openFrames[|d.openFrames| - 1 := f.(sections := f.sections + [Section(at, at)])])
  }

  /** Close the innermost open frame. */
  function CloseFrame(d: Diagram): Diagram
    requires d.openFrames != []
  {
    var f := EndSection(Last(d.openFrames), |d.edges|).(end := |d.edges|);
    d.(openFrames := d.openFrames[..|d.openFrames| - 1], frames := d.frames + [f])
  }

  function CloseBox(d: Diagram): Diagram
    requires d.openBoxes != []
  {
    d.(openBoxes := d.openBoxes[..|d.openBoxes| - 1], boxes := d.boxes + [Last(d.openBoxes)])
  }

  function JoinBox(d: Diagram, id: Id): Diagram {
    if d.openBoxes == [] then d
    else d.(openBoxes := d.openBoxes[|d.openBoxes| - 1 := Push(Last(d.openBoxes), id)])
  }

  predicate InFrame(d: Diagram, kind: FrameKind) {
    d.openFrames != [] && Last(d.openFrames).kind == kind
  }

  function Step(d: Diagram, s: Stmt): Diagram {
    match s
    case Participant(id) => JoinBox(Name(d, id), id)
    case OpenBox => d.(openBoxes := d.openBoxes + [[]])
    case OpenFrame(kind) =>
      var at := |d.edges|;
      d.(openFrames := d.openFrames + [Frame(kind, [Section(at, at)], at, at)])
    case Else => if d.openFrames == [] then d else Split(d)
    case And => if InFrame(d, Par) then Split(d) else d
    case OptionLine => if InFrame(d, Critical) then Split(d) else d
    case End => if d.openFrames != [] then CloseFrame(d) else if d.openBoxes != [] then CloseBox(d) else d
    case NoteLine(ids) => var n := NameAll(d, ids); n.(notes := n.notes + [Note(ids, |d.edges|)])
    case ActivateLine(id, on) =>
      var n := Name(d, id);
      n.(activations := n.activations + [Activation(id, |d.edges|, on)])
    case Message(from, to, activation) =>
      var n := Name(Name(d, from), to);
      n.(edges := n.edges + [Edge(from, to)],
         activations := if activation.None? then n.activations
                        else n.activations + [Activation(to, |d.edges|, activation.value)])
    case Other => d
  }

  function Run(stmts: seq<Stmt>): Diagram {
    if stmts == [] then EMPTY else Step(Run(stmts[..|stmts| - 1]), Last(stmts))
  }

  /** Close what the input left open. */
  function Finish(d: Diagram): Diagram
    decreases |d.openFrames| + |d.openBoxes|
  {
    if d.openFrames != [] then Finish(CloseFrame(d))
    else if d.openBoxes != [] then Finish(CloseBox(d))
    else d
  }

  // ---- the invariant ----

  ghost predicate Distinct(ids: seq<Id>) {
    forall i, j :: 0 <= i < j < |ids| ==> ids[i] != ids[j]
  }

  /** Sections follow each other without a gap from `from` on. */
  ghost predicate Tiles(sections: seq<Section>, from: nat) {
    && sections != [] && sections[0].start == from
    && (forall k :: 0 <= k < |sections| ==> sections[k].start <= sections[k].end)
    && (forall k :: 0 <= k < |sections| - 1 ==> sections[k].end == sections[k + 1].start)
  }

  /** A closed frame is tiled by its sections. */
  ghost predicate Closed(f: Frame, edges: nat) {
    Tiles(f.sections, f.start) && Last(f.sections).end == f.end <= edges
  }

  /** An open frame is tiled up to its last section, which has yet to end. */
  ghost predicate Open(f: Frame, edges: nat) {
    Tiles(f.sections, f.start) && Last(f.sections).end <= edges
  }

  /** `f` was closed first: it lies before `g`, or within a single section of it. */
  ghost predicate BeforeOrInSection(f: Frame, g: Frame) {
    f.end <= g.start
    || exists k :: 0 <= k < |g.sections| && g.sections[k].start <= f.start && f.end <= g.sections[k].end
  }

  /** The same for a frame `o` that is open; the end of its last section is yet to come. */
  ghost predicate BeforeOrInOpenSection(f: Frame, o: Frame) {
    f.end <= o.start
    || exists k :: 0 <= k < |o.sections| && o.sections[k].start <= f.start
                   && (k < |o.sections| - 1 ==> f.end <= o.sections[k].end)
  }

  /** `p` was opened within the last section of `o`. */
  ghost predicate OpenedIn(o: Frame, p: Frame) {
    o.sections != [] && Last(o.sections).start <= p.start
  }

  ghost predicate FramesOk(d: Diagram) {
    && (forall k :: 0 <= k < |d.frames| ==> Closed(d.frames[k], |d.edges|))
    && (forall k :: 0 <= k < |d.openFrames| ==> Open(d.openFrames[k], |d.edges|))
    && (forall i, j :: 0 <= i < j < |d.frames| ==> BeforeOrInSection(d.frames[i], d.frames[j]))
    && (forall i, j :: 0 <= i < j < |d.openFrames| ==> OpenedIn(d.openFrames[i], d.openFrames[j]))
    && (forall i, j :: 0 <= i < |d.frames| && 0 <= j < |d.openFrames| ==>
          BeforeOrInOpenSection(d.frames[i], d.openFrames[j]))
  }

  ghost predicate Known(ids: seq<Id>, order: seq<Id>) {
    forall id :: id in ids ==> id in order
  }

  ghost predicate NamesOk(d: Diagram) {
    && Distinct(d.order) && (forall id :: id in d.order ==> id in d.nodes)
    && (forall k :: 0 <= k < |d.edges| ==> d.edges[k].from in d.order && d.edges[k].to in d.order)
    && (forall k :: 0 <= k < |d.notes| ==> Known(d.notes[k].participants, d.order) && d.notes[k].index <= |d.edges|)
    && (forall k :: 0 <= k < |d.activations| ==>
          d.activations[k].participant in d.order && d.activations[k].index <= |d.edges|)
    && (forall k :: 0 <= k < |d.boxes| ==> Distinct(d.boxes[k]) && Known(d.boxes[k], d.order))
    && (forall k :: 0 <= k < |d.openBoxes| ==> Distinct(d.openBoxes[k]) && Known(d.openBoxes[k], d.order))
  }

  ghost predicate Inv(d: Diagram) { FramesOk(d) && NamesOk(d) }

  // ---- names ----

  lemma PushHolds(ids: seq<Id>, id: Id)
    requires Distinct(ids)
    ensures Distinct(Push(ids, id)) && forall x :: x in Push(ids, id) <==> x == id || x in ids
  {
  }

  lemma NameOk(d: Diagram, id: Id)
    requires NamesOk(d)
    ensures NamesOk(Name(d, id)) && id in Name(d, id).order
    ensures forall x :: x in d.order ==> x in Name(d, id).order
  {
    PushHolds(d.order, id);
  }

  lemma {:induction false} NameAllOk(d: Diagram, ids: seq<Id>)
    requires NamesOk(d)
    ensures NamesOk(NameAll(d, ids)) && Known(ids, NameAll(d, ids).order)
    ensures NameAll(d, ids) == d.(order := NameAll(d, ids).order, nodes := NameAll(d, ids).nodes)
  {
    hide NamesOk;
    if ids != [] {
      var n := |ids| - 1;
      NameAllOk(d, ids[..n]);
      NameOk(NameAll(d, ids[..n]), ids[n]);
      assert ids == ids[..n] + [ids[n]];
    }
  }

  lemma JoinBoxOk(d: Diagram, id: Id)
    requires NamesOk(d) && id in d.order
    ensures NamesOk(JoinBox(d, id))
  {
    if d.openBoxes != [] {
      PushHolds(Last(d.openBoxes), id);
    }
  }

  lemma AddEdgeOk(d: Diagram, e: Edge)
    requires NamesOk(d) && e.from in d.order && e.to in d.order
    ensures NamesOk(d.(edges := d.edges + [e]))
  {
  }

  lemma AddActivationOk(d: Diagram, a: Activation)
    requires NamesOk(d) && a.participant in d.order && a.index <= |d.edges|
    ensures NamesOk(d.(activations := d.activations + [a]))
  {
  }

  lemma AddNoteOk(d: Diagram, n: Note)
    requires NamesOk(d) && Known(n.participants, d.order) && n.index <= |d.edges|
    ensures NamesOk(d.(notes := d.notes + [n]))
  {
  }

  lemma CloseBoxOk(d: Diagram)
    requires NamesOk(d) && d.openBoxes != []
    ensures NamesOk(CloseBox(d))
  {
  }

  lemma OpenBoxOk(d: Diagram)
    requires NamesOk(d)
    ensures NamesOk(d.(openBoxes := d.openBoxes + [[]]))
  {
  }

  lemma FramesDoNotMatter(d: Diagram, e: Diagram)
    requires NamesOk(d) && e == d.(openFrames := e.openFrames, frames := e.frames)
    ensures NamesOk(e)
  {
  }

  lemma StepNames(d: Diagram, s: Stmt)
    requires NamesOk(d)
    ensures NamesOk(Step(d, s))
  {
    hide NamesOk;
    match s
    case Participant(id) =>
      NameOk(d, id);
      JoinBoxOk(Name(d, id), id);
    case End =>
      if d.openFrames == [] && d.openBoxes != [] {
        CloseBoxOk(d);
      } else {
        FramesDoNotMatter(d, Step(d, s));
      }
    case NoteLine(ids) =>
      NameAllOk(d, ids);
      AddNoteOk(NameAll(d, ids), Note(ids, |d.edges|));
    case ActivateLine(id, on) =>
      NameOk(d, id);
      AddActivationOk(Name(d, id), Activation(id, |d.edges|, on));
    case Message(from, to, activation) =>
      NameOk(d, from);
      NameOk(Name(d, from), to);
      var n := Name(Name(d, from), to);
      AddEdgeOk(n, Edge(from, to));
      if activation.Some? {
        AddActivationOk(n.(edges := n.edges + [Edge(from, to)]), Activation(to, |d.edges|, activation.value));
      }
    case OpenBox => OpenBoxOk(d);
    case _ => FramesDoNotMatter(d, Step(d, s));
  }

  // ---- frames ----

  lemma EndSectionTiles(f: Frame, at: nat)
    requires Tiles(f.sections, f.start) && Last(f.sections).end <= at
    ensures Tiles(EndSection(f, at).sections, f.start) && Last(EndSection(f, at).sections).end == at
    ensures |EndSection(f, at).sections| == |f.sections| && f.start <= at
  {
    TilesAscend(f.sections, f.start, |f.sections| - 1);
  }

  lemma {:induction false} TilesAscend(sections: seq<Section>, from: nat, k: nat)
    requires Tiles(sections, from) && k < |sections|
    ensures from <= sections[k].start
  {
    if k > 0 {
      TilesAscend(sections, from, k - 1);
      assert sections[k - 1].end == sections[k - 1 + 1].start;
    }
  }

  lemma SplitTiles(sections: seq<Section>, from: nat, at: nat)
    requires Tiles(sections, from) && Last(sections).end == at
    ensures Tiles(sections + [Section(at, at)], from)
  {
    var more := sections + [Section(at, at)];
    forall k | 0 <= k < |more| - 1
      ensures more[k].end == more[k + 1].start
    {
      assert k < |sections| - 1 ==> sections[k].end == sections[k + 1].start;
    }
  }

  lemma OpenFrameOk(d: Diagram, kind: FrameKind)
    requires FramesOk(d)
    ensures FramesOk(Step(d, OpenFrame(kind)))
  {
    var at := |d.edges|;
    var o := Frame(kind, [Section(at, at)], at, at);
    forall k | 0 <= k < |d.openFrames|
      ensures OpenedIn(d.openFrames[k], o)
    {
      assert Open(d.openFrames[k], at);
    }
    forall k | 0 <= k < |d.frames|
      ensures BeforeOrInOpenSection(d.frames[k], o)
    {
      assert Closed(d.frames[k], at);
    }
    assert Open(o, at);
    hide Open, Closed, BeforeOrInSection, BeforeOrInOpenSection, OpenedIn;
  }

  /** Splitting the innermost frame leaves every closed frame within one section of it. */
  lemma SplitKeepsSections(f: Frame, o: Frame, at: nat)
    requires o.sections != [] && BeforeOrInOpenSection(f, o) && f.end <= at
    ensures var e := EndSection(o, at);
            && BeforeOrInSection(f, e.(end := at))
            && BeforeOrInOpenSection(f, e.(sections := e.sections + [Section(at, at)]))
  {
    var e := EndSection(o, at);
    var more := e.sections + [Section(at, at)];
    if f.end > o.start {
      var k :| 0 <= k < |o.sections| && o.sections[k].start <= f.start
               && (k < |o.sections| - 1 ==> f.end <= o.sections[k].end);
      assert e.sections[k].start <= f.start && f.end <= e.sections[k].end;
      assert more[k] == e.sections[k];
    }
  }

  lemma SplitOk(d: Diagram)
    requires FramesOk(d) && d.openFrames != []
    ensures FramesOk(Split(d))
  {
    var n, at := |d.openFrames| - 1, |d.edges|;
    assert Open(d.openFrames[n], at);
    EndSectionTiles(d.openFrames[n], at);
    var e := EndSection(d.openFrames[n], at);
    SplitTiles(e.sections, e.start, at);
    var o := e.(sections := e.sections + [Section(at, at)]);
    assert Open(o, at);
    forall i | 0 <= i < |d.frames|
      ensures BeforeOrInOpenSection(d.frames[i], o)
    {
      assert Closed(d.frames[i], at);
      SplitKeepsSections(d.frames[i], d.openFrames[n], at);
    }
    forall i | 0 <= i < n
      ensures OpenedIn(d.openFrames[i], o)
    {
      assert OpenedIn(d.openFrames[i], d.openFrames[n]);
    }
    hide Open, Closed, Tiles, BeforeOrInSection, BeforeOrInOpenSection, OpenedIn, EndSection;
  }

  /** A frame that closes lies in the last section of each frame around it. */
  lemma ClosedInOpenSection(o: Frame, p: Frame, f: Frame)
    requires OpenedIn(o, p) && f.start == p.start
    ensures BeforeOrInOpenSection(f, o)
  {
    assert o.sections[|o.sections| - 1].start <= f.start;
  }

  lemma CloseFrameOk(d: Diagram)
    requires FramesOk(d) && d.openFrames != []
    ensures FramesOk(CloseFrame(d))
  {
    var n, at := |d.openFrames| - 1, |d.edges|;
    var o := d.openFrames[n];
    assert Open(o, at);
    EndSectionTiles(o, at);
    var f := EndSection(o, at).(end := at);
    assert f.start == o.start;
    assert Closed(f, at);
    forall i | 0 <= i < |d.frames|
      ensures BeforeOrInSection(d.frames[i], f)
    {
      assert Closed(d.frames[i], at);
      SplitKeepsSections(d.frames[i], o, at);
    }
    forall i | 0 <= i < n
      ensures BeforeOrInOpenSection(f, d.openFrames[i])
    {
      ClosedInOpenSection(d.openFrames[i], o, f);
    }
    hide Open, Closed, BeforeOrInSection, BeforeOrInOpenSection, OpenedIn, EndSection;
  }

  lemma MoreEdgesOk(d: Diagram, e: Diagram)
    requires FramesOk(d) && e.frames == d.frames && e.openFrames == d.openFrames && |d.edges| <= |e.edges|
    ensures FramesOk(e)
  {
    forall k | 0 <= k < |e.frames|
      ensures Closed(e.frames[k], |e.edges|)
    {
      assert Closed(d.frames[k], |d.edges|);
    }
    forall k | 0 <= k < |e.openFrames|
      ensures Open(e.openFrames[k], |e.edges|)
    {
      assert Open(d.openFrames[k], |d.edges|);
    }
    hide Open, Closed, BeforeOrInSection, BeforeOrInOpenSection, OpenedIn;
  }

  lemma {:induction false} NameAllFrames(d: Diagram, ids: seq<Id>)
    ensures NameAll(d, ids) == d.(order := NameAll(d, ids).order, nodes := NameAll(d, ids).nodes)
  {
    if ids != [] {
      NameAllFrames(d, ids[..|ids| - 1]);
    }
  }

  lemma StepFrames(d: Diagram, s: Stmt)
    requires FramesOk(d)
    ensures FramesOk(Step(d, s))
  {
    hide FramesOk;
    match s
    case OpenFrame(kind) => OpenFrameOk(d, kind);
    case Else => if d.openFrames != [] { SplitOk(d); }
    case And => if InFrame(d, Par) { SplitOk(d); }
    case OptionLine => if InFrame(d, Critical) { SplitOk(d); }
    case End =>
      if d.openFrames != [] {
        CloseFrameOk(d);
      } else {
        MoreEdgesOk(d, Step(d, s));
      }
    case NoteLine(ids) =>
      NameAllFrames(d, ids);
      MoreEdgesOk(d, Step(d, s));
    case _ => MoreEdgesOk(d, Step(d, s));
  }

  // ---- runs ----

  lemma EmptyInv()
    ensures Inv(EMPTY)
  {
  }

  /** At every point of every run. */
  lemma {:induction false} RunInv(stmts: seq<Stmt>)
    ensures Inv(Run(stmts))
  {
    hide FramesOk, NamesOk, Step;
    if stmts == [] {
      EmptyInv();
    } else {
      var d := Run(stmts[..|stmts| - 1]);
      RunInv(stmts[..|stmts| - 1]);
      StepFrames(d, Last(stmts));
      StepNames(d, Last(stmts));
    }
  }

  lemma {:induction false} FinishInv(d: Diagram)
    requires Inv(d)
    ensures Inv(Finish(d)) && Finish(d).openFrames == [] && Finish(d).openBoxes == []
    ensures Finish(d).edges == d.edges && Finish(d).order == d.order
    decreases |d.openFrames| + |d.openBoxes|
  {
    hide FramesOk, NamesOk;
    if d.openFrames != [] {
      CloseFrameOk(d);
      StepNames(d, End);
      FinishInv(CloseFrame(d));
    } else if d.openBoxes != [] {
      MoreEdgesOk(d, CloseBox(d));
      CloseBoxOk(d);
      FinishInv(CloseBox(d));
    }
  }

  /** Two frames do not overlap without one holding the other. */
  ghost predicate NestedOrApart(f: Frame, g: Frame) {
    f.end <= g.start || (g.start <= f.start && f.end <= g.end)
  }

  lemma SectionsAreWithin(f: Frame, g: Frame, edges: nat)
    requires BeforeOrInSection(f, g) && Closed(g, edges)
    ensures NestedOrApart(f, g)
  {
    if f.end > g.start {
      var k :| 0 <= k < |g.sections| && g.sections[k].start <= f.start && f.end <= g.sections[k].end;
      TilesAscend(g.sections, g.start, k);
      TilesEnd(g.sections, g.start, k);
    }
  }

  lemma {:induction false} TilesEnd(sections: seq<Section>, from: nat, k: nat)
    requires Tiles(sections, from) && k < |sections|
    ensures sections[k].end <= Last(sections).end
    decreases |sections| - k
  {
    if k < |sections| - 1 {
      TilesEnd(sections, from, k + 1);
      assert sections[k].end == sections[k + 1].start;
    }
  }

  /** What a finished diagram promises. */
  lemma FinishedDiagram(stmts: seq<Stmt>)
    ensures var d := Finish(Run(stmts)); var n := |d.edges|;
            && (forall k :: 0 <= k < |d.frames| ==> Closed(d.frames[k], n))
            && (forall i, j :: 0 <= i < j < |d.frames| ==>
                  BeforeOrInSection(d.frames[i], d.frames[j]) && NestedOrApart(d.frames[i], d.frames[j]))
            && Distinct(d.order) && (forall id :: id in d.order ==> id in d.nodes)
            && (forall k :: 0 <= k < n ==>
                  d.edges[k].from in d.order && d.edges[k].from in d.nodes
                  && d.edges[k].to in d.order && d.edges[k].to in d.nodes)
            && (forall k :: 0 <= k < |d.notes| ==> Known(d.notes[k].participants, d.order) && d.notes[k].index <= n)
            && (forall k :: 0 <= k < |d.activations| ==>
                  d.activations[k].participant in d.order && d.activations[k].participant in d.nodes
                  && d.activations[k].index <= n)
            && (forall k :: 0 <= k < |d.boxes| ==> Distinct(d.boxes[k]) && Known(d.boxes[k], d.order))
            && d.openFrames == [] && d.openBoxes == []
  {
    hide Run, Finish, Closed, BeforeOrInSection, NestedOrApart, Known;
    RunInv(stmts);
    FinishInv(Run(stmts));
    var d := Finish(Run(stmts));
    forall i, j | 0 <= i < j < |d.frames|
      ensures NestedOrApart(d.frames[i], d.frames[j])
    {
      SectionsAreWithin(d.frames[i], d.frames[j], |d.edges|);
    }
  }

  // ---- the parser ----

  class SequenceParser {
    var order: seq<Id>
    var nodes: set<Id>
    var edges: seq<Edge>
    var openFrames: seq<Frame>
    var frames: seq<Frame>
    var openBoxes: seq<seq<Id>>
    var boxes: seq<seq<Id>>
    var notes: seq<Note>
    var activations: seq<Activation>

    ghost function Contents(): Diagram
      reads this
    {
      Diagram(order, nodes, edges, openFrames, frames, openBoxes, boxes, notes, activations)
    }

    constructor ()
      ensures Contents() == EMPTY
    {
      order, nodes, edges, openFrames, frames := [], {}, [], [], [];
      openBoxes, boxes, notes, activations := [], [], [], [];
    }

    method EnsureParticipant(id: Id)
      modifies this`order, this`nodes
      ensures Contents() == Name(old(Contents()), id)
    {
      if id !in order {
        order := order + [id];
      }
      nodes := nodes + {id};
    }

    method EnsureParticipants(ids: seq<Id>)
      modifies this`order, this`nodes
      ensures Contents() == NameAll(old(Contents()), ids)
    {
      for i := 0 to |ids|
        invariant Contents() == NameAll(old(Contents()), ids[..i])
      {
        assert ids[..i + 1][..i] == ids[..i];
        EnsureParticipant(ids[i]);
      }
      assert ids[..|ids|] == ids;
    }

    method SplitFrame()
      requires openFrames != []
      modifies this`openFrames
      ensures Contents() == Split(old(Contents()))
    {
      var f := openFrames[|openFrames| - 1];
      var at := |edges|;
      if f.sections != [] {
        f := f.(sections := f.sections[|f.sections| - 1 := Section(f.sections[|f.sections| - 1].start, at)]);
      }
      f := f.(sections := f.sections + [Section(at, at)]);
      openFrames := openFrames[|openFrames| - 1 := f];
    }

    method PopFrame()
      requires openFrames != []
      modifies this`openFrames, this`frames
      ensures Contents() == CloseFrame(old(Contents()))
    {
      var f := openFrames[|openFrames| - 1];
      openFrames := openFrames[..|openFrames| - 1];
      if f.sections != [] {
        f := f.(sections := f.sections[|f.sections| - 1 := Section(f.sections[|f.sections| - 1].start, |edges|)]);
      }
      frames := frames + [f.(end := |edges|)];
    }

    method PopBox()
      requires openBoxes != []
      modifies this`openBoxes, this`boxes
      ensures Contents() == CloseBox(old(Contents()))
    {
      boxes := boxes + [openBoxes[|openBoxes| - 1]];
      openBoxes := openBoxes[..|openBoxes| - 1];
    }

    method AddMessage(from: Id, to: Id, activation: Option<bool>)
      modifies this
      ensures Contents() == Step(old(Contents()), Message(from, to, activation))
    {
      EnsureParticipant(from);
      EnsureParticipant(to);
      edges := edges + [Edge(from, to)];
      if activation.Some? {
        activations := activations + [Activation(edges[|edges| - 1].to, |edges| - 1, activation.value)];
      }
    }

    method Feed(s: Stmt)
      modifies this
      ensures Contents() == Step(old(Contents()), s)
    {
      hide Split, CloseFrame, CloseBox, NameAll;
      match s {
        case Participant(id) =>
          EnsureParticipant(id);
          if openBoxes != [] && id !in openBoxes[|openBoxes| - 1] {
            openBoxes := openBoxes[|openBoxes| - 1 := openBoxes[|openBoxes| - 1] + [id]];
          }
        case OpenBox =>
          openBoxes := openBoxes + [[]];
        case OpenFrame(kind) =>
          var at := |edges|;
          openFrames := openFrames + [Frame(kind, [Section(at, at)], at, at)];
        case Else =>
          if openFrames != [] {
            SplitFrame();
          }
        case And =>
          if openFrames != [] && openFrames[|openFrames| - 1].kind == Par {
            SplitFrame();
          }
        case OptionLine =>
          if openFrames != [] && openFrames[|openFrames| - 1].kind == Critical {
            SplitFrame();
          }
        case End =>
          if openFrames != [] {
            PopFrame();
          } else if openBoxes != [] {
            PopBox();
          }
        case NoteLine(ids) =>
          EnsureParticipants(ids);
          NameAllFrames(old(Contents()), ids);
          notes := notes + [Note(ids, |edges|)];
        case ActivateLine(id, on) =>
          EnsureParticipant(id);
          activations := activations + [Activation(id, |edges|, on)];
        case Message(from, to, activation) =>
          AddMessage(from, to, activation);
        case Other =>
      }
    }

    method CloseAll()
      modifies this`openFrames, this`frames, this`openBoxes, this`boxes
      ensures Contents() == Finish(old(Contents()))
    {
      while openFrames != []
        invariant Finish(Contents()) == Finish(old(Contents()))
        decreases |openFrames|
      {
        PopFrame();
      }
      while openBoxes != []
        invariant openFrames == [] && Finish(Contents()) == Finish(old(Contents()))
        decreases |openBoxes|
      {
        PopBox();
      }
    }
  }

  method ParseSequenceDiagram(stmts: seq<Stmt>) returns (d: Diagram)
    ensures d == Finish(Run(stmts))
  {
    var parser := new SequenceParser();
    for i := 0 to |stmts|
      invariant fresh(parser) && parser.Contents() == Run(stmts[..i])
    {
      assert stmts[..i + 1][..i] == stmts[..i];
      parser.Feed(stmts[i]);
    }
    assert stmts[..|stmts|] == stmts;
    parser.CloseAll();
    d := Diagram(parser.order, parser.nodes, parser.edges, parser.openFrames, parser.frames,
                 parser.openBoxes, parser.boxes, parser.notes, parser.activations);
  }
}
