/** What a sequence-diagram run yields, in terms of its lines alone. */
module SequenceMeaning {
  import opened Bytes
  import opened Brackets
  import opened Mentions
  import opened SequenceDiagram

  // ---- messages, notes and activations ----

  /** How many of the first `n` lines are messages: the number of the next one. */
  function Messages(stmts: seq<Stmt>, n: nat): nat
    requires n <= |stmts|
  {
    if n == 0 then 0 else Messages(stmts, n - 1) + if stmts[n - 1].Message? then 1 else 0
  }

  function Notes(stmts: seq<Stmt>, n: nat): nat
    requires n <= |stmts|
  {
    if n == 0 then 0 else Notes(stmts, n - 1) + if stmts[n - 1].NoteLine? then 1 else 0
  }

  /** A line that switches an activation: `activate`, `deactivate`, or a message with `+` or `-`. */
  predicate Activates(s: Stmt) {
    s.ActivateLine? || (s.Message? && s.activation.Some?)
  }

  function Activations(stmts: seq<Stmt>, n: nat): nat
    requires n <= |stmts|
  {
    if n == 0 then 0 else Activations(stmts, n - 1) + if Activates(stmts[n - 1]) then 1 else 0
  }

  /** Every message line is the edge of its number, from its sender to its receiver. */
  ghost predicate EdgesAre(stmts: seq<Stmt>, n: nat, edges: seq<Edge>) {
    && n <= |stmts| && |edges| == Messages(stmts, n)
    && forall p :: 0 <= p < n && stmts[p].Message? ==>
         Messages(stmts, p) < |edges| && edges[Messages(stmts, p)] == Edge(stmts[p].from, stmts[p].to)
  }

  /** Every note line is the note of its number, placed behind the messages before it. */
  ghost predicate NotesAre(stmts: seq<Stmt>, n: nat, notes: seq<Note>) {
    && n <= |stmts| && |notes| == Notes(stmts, n)
    && forall p :: 0 <= p < n && stmts[p].NoteLine? ==>
         Notes(stmts, p) < |notes| && notes[Notes(stmts, p)] == Note(stmts[p].ids, Messages(stmts, p))
  }

  /** A line of its own is for who it names, a sign on a message for its receiver. */
  function ActivationBy(s: Stmt, at: nat): Activation
    requires Activates(s)
  {
    if s.ActivateLine? then Activation(s.id, at, s.on) else Activation(s.to, at, s.activation.value)
  }

  /**
   * Every line that activates is the activation of its number, placed behind the messages before it: on
   * a message that is the number of the message itself.
   */
  ghost predicate ActivationsAre(stmts: seq<Stmt>, n: nat, activations: seq<Activation>) {
    && n <= |stmts| && |activations| == Activations(stmts, n)
    && forall p :: 0 <= p < n && Activates(stmts[p]) ==>
         && Activations(stmts, p) < |activations|
         && activations[Activations(stmts, p)] == ActivationBy(stmts[p], Messages(stmts, p))
  }

  // ---- participants ----

  /** The participants a line names, in reading order. */
  function MentionsOf(s: Stmt): seq<Id> {
    match s
    case Participant(id) => [id]
    case NoteLine(ids) => ids
    case ActivateLine(id, _) => [id]
    case Message(from, to, _) => [from, to]
    case _ => []
  }

  function MentionsIn(stmts: seq<Stmt>, n: nat): seq<Id>
    requires n <= |stmts|
  {
    if n == 0 then [] else MentionsIn(stmts, n - 1) + MentionsOf(stmts[n - 1])
  }

  // ---- one line ----

  lemma {:induction false} NameAllLists(d: Diagram, ids: seq<Id>, mentions: seq<Id>)
    requires ListsFirsts(d.order, mentions)
    ensures ListsFirsts(NameAll(d, ids).order, mentions + ids)
    ensures NameAll(d, ids).nodes == d.nodes + set id | id in ids
  {
    hide ListsFirsts;
    if ids == [] {
      assert mentions + ids == mentions;
    } else {
      var n := |ids| - 1;
      NameAllLists(d, ids[..n], mentions);
      ListsOneMore(NameAll(d, ids[..n]).order, mentions + ids[..n], ids[n]);
      assert (mentions + ids[..n]) + [ids[n]] == mentions + ids;
      assert ids == ids[..n] + [ids[n]];
    }
  }

  lemma OneName(d: Diagram, id: Id)
    ensures NameAll(d, [id]) == Name(d, id)
  {
    assert NameAll(d, []) == d;
  }

  lemma TwoNames(d: Diagram, a: Id, b: Id)
    ensures NameAll(d, [a, b]) == Name(Name(d, a), b)
  {
    assert [a, b][..1] == [a];
    OneName(d, a);
  }

  /** A line names its participants, and what else it does it does not do to order and nodes. */
  lemma StepNamesAll(d: Diagram, s: Stmt)
    ensures Step(d, s).order == NameAll(d, MentionsOf(s)).order
    ensures Step(d, s).nodes == NameAll(d, MentionsOf(s)).nodes
  {
    match s
    case Participant(id) => OneName(d, id);
    case NoteLine(ids) =>
    case ActivateLine(id, _) => OneName(d, id);
    case Message(from, to, _) => TwoNames(d, from, to);
    case _ => NoNames(d);
  }

  lemma NoNames(d: Diagram)
    ensures NameAll(d, []) == d
  {
  }

  /** What a line appends. */
  lemma StepAppends(d: Diagram, s: Stmt)
    ensures Step(d, s).edges == d.edges + (if s.Message? then [Edge(s.from, s.to)] else [])
    ensures Step(d, s).notes == d.notes + (if s.NoteLine? then [Note(s.ids, |d.edges|)] else [])
    ensures Step(d, s).activations
         == d.activations + (if Activates(s) then [ActivationBy(s, |d.edges|)] else [])
  {
    match s
    case NoteLine(ids) => NameAllFrames(d, ids);
    case _ =>
  }

  // ---- a whole run ----

  ghost predicate AppendsAre(stmts: seq<Stmt>, n: nat, d: Diagram) {
    EdgesAre(stmts, n, d.edges) && NotesAre(stmts, n, d.notes) && ActivationsAre(stmts, n, d.activations)
  }

  lemma RunStep(stmts: seq<Stmt>, n: nat)
    requires n < |stmts|
    ensures Run(stmts[..n + 1]) == Step(Run(stmts[..n]), stmts[n])
  {
    hide Step;
    assert stmts[..n + 1][..n] == stmts[..n];
  }

  lemma RunNothing(stmts: seq<Stmt>)
    ensures Run(stmts[..0]) == EMPTY
  {
  }

  lemma EdgesMore(stmts: seq<Stmt>, n: nat, edges: seq<Edge>)
    requires EdgesAre(stmts, n, edges) && n < |stmts|
    ensures EdgesAre(stmts, n + 1, edges + if stmts[n].Message? then [Edge(stmts[n].from, stmts[n].to)] else [])
  {
    CountStep(stmts, n);
    hide Messages;
  }

  lemma NotesMore(stmts: seq<Stmt>, n: nat, notes: seq<Note>)
    requires NotesAre(stmts, n, notes) && n < |stmts|
    ensures NotesAre(stmts, n + 1,
                     notes + if stmts[n].NoteLine? then [Note(stmts[n].ids, Messages(stmts, n))] else [])
  {
    CountStep(stmts, n);
    hide Messages, Notes;
  }

  lemma CountStep(stmts: seq<Stmt>, n: nat)
    requires n < |stmts|
    ensures Messages(stmts, n + 1) == Messages(stmts, n) + if stmts[n].Message? then 1 else 0
    ensures Notes(stmts, n + 1) == Notes(stmts, n) + if stmts[n].NoteLine? then 1 else 0
    ensures Activations(stmts, n + 1) == Activations(stmts, n) + if Activates(stmts[n]) then 1 else 0
  {
  }

  lemma ActivationsMore(stmts: seq<Stmt>, n: nat, activations: seq<Activation>)
    requires ActivationsAre(stmts, n, activations) && n < |stmts|
    ensures ActivationsAre(stmts, n + 1,
                           activations
                           + if Activates(stmts[n]) then [ActivationBy(stmts[n], Messages(stmts, n))] else [])
  {
    CountStep(stmts, n);
    hide Messages, Activations, Activates, ActivationBy;
  }

  lemma {:induction false} RunAppends(stmts: seq<Stmt>, n: nat)
    requires n <= |stmts|
    ensures AppendsAre(stmts, n, Run(stmts[..n]))
  {
    hide Step, Run, EdgesAre, NotesAre, ActivationsAre;
    if n == 0 {
      RunNothing(stmts);
      NothingAppended(stmts);
    } else {
      RunAppends(stmts, n - 1);
      RunStep(stmts, n - 1);
      var d := Run(stmts[..n - 1]);
      StepAppends(d, stmts[n - 1]);
      EdgeCount(stmts, n - 1, d.edges);
      EdgesMore(stmts, n - 1, d.edges);
      NotesMore(stmts, n - 1, d.notes);
      ActivationsMore(stmts, n - 1, d.activations);
    }
  }

  lemma NothingAppended(stmts: seq<Stmt>)
    ensures EdgesAre(stmts, 0, []) && NotesAre(stmts, 0, []) && ActivationsAre(stmts, 0, [])
  {
  }

  lemma EdgeCount(stmts: seq<Stmt>, n: nat, edges: seq<Edge>)
    requires EdgesAre(stmts, n, edges)
    ensures n <= |stmts| && |edges| == Messages(stmts, n)
  {
  }

  /** The participants are those named, each once, in the order of their first mention, and are the nodes. */
  lemma {:induction false} RunNames(stmts: seq<Stmt>, n: nat)
    requires n <= |stmts|
    ensures ListsFirsts(Run(stmts[..n]).order, MentionsIn(stmts, n))
    ensures Run(stmts[..n]).nodes == set id | id in MentionsIn(stmts, n)
  {
    hide Step, ListsFirsts, NameAll;
    if n == 0 {
      assert stmts[..0] == [];
      NoFirsts<Id>();
      assert Run([]) == EMPTY;
    } else {
      RunNames(stmts, n - 1);
      assert stmts[..n][..n - 1] == stmts[..n - 1];
      StepNamesAll(Run(stmts[..n - 1]), stmts[n - 1]);
      NameAllLists(Run(stmts[..n - 1]), MentionsOf(stmts[n - 1]), MentionsIn(stmts, n - 1));
    }
  }

  // ---- frames ----

  function FrameMarks(stmts: seq<Stmt>): (ms: seq<Mark>)
    ensures |ms| == |stmts|
  {
    seq(|stmts|, k requires 0 <= k < |stmts| =>
      if stmts[k].OpenFrame? then Opens else if stmts[k].End? then Closes else Neither)
  }

  /** A line that starts another section of a frame of this kind. */
  predicate Splits(s: Stmt, kind: FrameKind) {
    s.Else? || (s.And? && kind.Par?) || (s.OptionLine? && kind.Critical?)
  }

  /** Line `c` cuts the frame that line `p` opened: it splits frames of its kind, and that frame is the innermost. */
  ghost predicate IsCut(stmts: seq<Stmt>, p: nat, c: nat) {
    && p < |stmts| && c < |stmts| && stmts[p].OpenFrame?
    && Splits(stmts[c], stmts[p].kind) && Innermost(FrameMarks(stmts), p, c)
  }

  /** The opening of line `p` and its cuts before line `n`, in order. */
  ghost predicate CutsAre(stmts: seq<Stmt>, p: nat, n: nat, cuts: seq<nat>) {
    && p < n <= |stmts| && cuts != [] && cuts[0] == p
    && (forall i, j :: 0 <= i < j < |cuts| ==> cuts[i] < cuts[j])
    && (forall c: nat :: c in cuts <==> c == p || (c < n && IsCut(stmts, p, c)))
  }

  /** One section from each of these lines on, counting the messages before it. */
  ghost predicate StartAt(stmts: seq<Stmt>, sections: seq<Section>, cuts: seq<nat>) {
    && |sections| == |cuts|
    && forall i :: 0 <= i < |cuts| ==> cuts[i] <= |stmts| && sections[i].start == Messages(stmts, cuts[i])
  }

  /** Before line `n` the frame has a section from its opening on and one from each of its cuts. */
  ghost predicate SectionsAre(stmts: seq<Stmt>, sections: seq<Section>, p: nat, n: nat) {
    exists cuts: seq<nat> :: CutsAre(stmts, p, n, cuts) && StartAt(stmts, sections, cuts)
  }

  /** The frame of line `p`, closed at line `q`: it counts the messages before its lines. */
  ghost predicate FrameIs(stmts: seq<Stmt>, f: Frame, p: nat, q: nat) {
    && p < q <= |stmts| && stmts[p] == OpenFrame(f.kind) && f.start == Messages(stmts, p)
    && f.sections != [] && f.sections[|f.sections| - 1].end == f.end == Messages(stmts, q)
    && SectionsAre(stmts, f.sections, p, q)
  }

  ghost predicate OpenFrameIs(stmts: seq<Stmt>, f: Frame, p: nat, n: nat) {
    && p < n <= |stmts| && stmts[p] == OpenFrame(f.kind) && f.start == Messages(stmts, p)
    && f.sections != [] && SectionsAre(stmts, f.sections, p, n)
  }

  /** The closed frames, in the order in which their lines closed them. */
  ghost predicate FramesAre(stmts: seq<Stmt>, n: nat, frames: seq<Frame>, lines: seq<nat>, ends: seq<nat>) {
    && n <= |stmts| && |lines| == |ends| == |frames|
    && (forall k :: 0 <= k < |frames| ==>
          && ends[k] < n && ClosedAt(FrameMarks(stmts), lines[k], ends[k])
          && FrameIs(stmts, frames[k], lines[k], ends[k]))
    && (forall i, j :: 0 <= i < j < |ends| ==> ends[i] < ends[j])
    && (forall p: nat :: p < n && stmts[p].OpenFrame? ==> p in lines || StillOpen(FrameMarks(stmts), p, n))
  }

  ghost predicate OpenFramesAre(stmts: seq<Stmt>, n: nat, open: seq<Frame>, fs: seq<nat>) {
    && IsStack(FrameMarks(stmts), n, fs) && |fs| == |open|
    && forall r :: 0 <= r < |fs| ==> OpenFrameIs(stmts, open[r], fs[r], n)
  }

  lemma CutsStay(stmts: seq<Stmt>, p: nat, n: nat, cuts: seq<nat>)
    requires CutsAre(stmts, p, n, cuts) && n < |stmts|
    ensures CutsAre(stmts, p, n + 1, if IsCut(stmts, p, n) then cuts + [n] else cuts)
  {
    hide IsCut;
    assert forall i :: 0 <= i < |cuts| ==> cuts[i] in cuts;
  }

  /** A line that does not cut a frame leaves it as it is. */
  lemma FrameStays(stmts: seq<Stmt>, f: Frame, p: nat, n: nat)
    requires OpenFrameIs(stmts, f, p, n) && n < |stmts| && !IsCut(stmts, p, n)
    ensures OpenFrameIs(stmts, f, p, n + 1)
  {
    hide IsCut, Messages, CutsAre, StartAt;
    var cuts: seq<nat> :| CutsAre(stmts, p, n, cuts) && StartAt(stmts, f.sections, cuts);
    CutsStay(stmts, p, n, cuts);
  }

  /** A cut ends the last section and starts another. */
  lemma FrameSplits(stmts: seq<Stmt>, f: Frame, p: nat, n: nat)
    requires OpenFrameIs(stmts, f, p, n) && n < |stmts| && IsCut(stmts, p, n)
    ensures var at := Messages(stmts, n); var e := EndSection(f, at);
            OpenFrameIs(stmts, e.(sections := e.sections + [Section(at, at)]), p, n + 1)
  {
    hide IsCut, Messages, CutsAre;
    var cuts: seq<nat> :| CutsAre(stmts, p, n, cuts) && StartAt(stmts, f.sections, cuts);
    CutsStay(stmts, p, n, cuts);
    var at := Messages(stmts, n);
    var sections := EndSection(f, at).sections + [Section(at, at)];
    assert StartAt(stmts, sections, cuts + [n]);
  }

  /** A frame that closes at line `n`, or at the end. */
  lemma FrameCloses(stmts: seq<Stmt>, f: Frame, p: nat, n: nat)
    requires OpenFrameIs(stmts, f, p, n)
    ensures var at := Messages(stmts, n); FrameIs(stmts, EndSection(f, at).(end := at), p, n)
  {
    hide IsCut, Messages, CutsAre;
    var cuts: seq<nat> :| CutsAre(stmts, p, n, cuts) && StartAt(stmts, f.sections, cuts);
    assert StartAt(stmts, EndSection(f, Messages(stmts, n)).sections, cuts);
  }

  lemma FrameOpens(stmts: seq<Stmt>, n: nat)
    requires n < |stmts| && stmts[n].OpenFrame?
    ensures var at := Messages(stmts, n);
            OpenFrameIs(stmts, Frame(stmts[n].kind, [Section(at, at)], at, at), n, n + 1)
  {
    hide Messages;
    forall c: nat | c < n + 1
      ensures !IsCut(stmts, n, c)
    {
    }
    var at := Messages(stmts, n);
    var cuts: seq<nat> := [n];
    assert CutsAre(stmts, n, n + 1, cuts) && StartAt(stmts, [Section(at, at)], cuts);
  }

  // ---- boxes ----

  /** An `end` closes a box only where no frame is open. */
  ghost function BoxMarks(stmts: seq<Stmt>): (ms: seq<Mark>)
    ensures |ms| == |stmts|
  {
    seq(|stmts|, k requires 0 <= k < |stmts| =>
      if stmts[k].OpenBox? then Opens
      else if stmts[k].End? && (forall p: nat :: !StillOpen(FrameMarks(stmts), p, k)) then Closes
      else Neither)
  }

  /** The participants declared before line `n` while the box of line `p` is the innermost. */
  ghost function Declared(stmts: seq<Stmt>, p: nat, n: nat): seq<Id>
    requires n <= |stmts|
  {
    if n == 0 then []
    else Declared(stmts, p, n - 1)
         + if stmts[n - 1].Participant? && Innermost(BoxMarks(stmts), p, n - 1) then [stmts[n - 1].id] else []
  }

  ghost predicate OpenBoxesAre(stmts: seq<Stmt>, n: nat, open: seq<seq<Id>>, bs: seq<nat>) {
    && IsStack(BoxMarks(stmts), n, bs) && |bs| == |open|
    && forall r :: 0 <= r < |bs| ==> ListsFirsts(open[r], Declared(stmts, bs[r], n))
  }

  /** The closed boxes, in the order in which their lines closed them. */
  ghost predicate BoxesAre(stmts: seq<Stmt>, n: nat, boxes: seq<seq<Id>>, lines: seq<nat>, ends: seq<nat>) {
    && n <= |stmts| && |lines| == |ends| == |boxes|
    && (forall k :: 0 <= k < |boxes| ==>
          && ends[k] < n && ClosedAt(BoxMarks(stmts), lines[k], ends[k])
          && ListsFirsts(boxes[k], Declared(stmts, lines[k], ends[k])))
    && (forall i, j :: 0 <= i < j < |ends| ==> ends[i] < ends[j])
    && (forall p: nat :: p < n && stmts[p].OpenBox? ==> p in lines || StillOpen(BoxMarks(stmts), p, n))
  }

  // ---- frames and boxes of a run ----

  lemma EdgesCount(stmts: seq<Stmt>, n: nat)
    requires n <= |stmts|
    ensures |Run(stmts[..n]).edges| == Messages(stmts, n)
  {
    RunAppends(stmts, n);
  }

  /** Which frames a line leaves open, and what it closes. */
  lemma StepFramesAre(d: Diagram, s: Stmt)
    ensures var at, open := |d.edges|, d.openFrames; var top := |open| - 1;
            && Step(d, s).openFrames
               == (if s.OpenFrame? then open + [Frame(s.kind, [Section(at, at)], at, at)]
                   else if open == [] then []
                   else if s.End? then open[..top]
                   else if Splits(s, open[top].kind)
                   then var e := EndSection(open[top], at);
                        open[top := e.(sections := e.sections + [Section(at, at)])]
                   else open)
            && Step(d, s).frames
               == (if s.End? && open != [] then d.frames + [EndSection(open[top], at).(end := at)] else d.frames)
  {
    match s
    case NoteLine(ids) => NameAllFrames(d, ids);
    case _ =>
  }

  lemma IsCutOfTop(stmts: seq<Stmt>, n: nat, open: seq<Frame>, fs: seq<nat>, r: nat)
    requires OpenFramesAre(stmts, n, open, fs) && n < |stmts| && r < |fs|
    ensures IsCut(stmts, fs[r], n) <==> r == |fs| - 1 && Splits(stmts[n], open[r].kind)
  {
    hide SectionsAre, IsStack, Innermost;
    assert OpenFrameIs(stmts, open[r], fs[r], n);
    TopIsInnermost(FrameMarks(stmts), n, fs);
    StackAscends(FrameMarks(stmts), n, fs);
  }

  lemma StackAscends(ms: seq<Mark>, n: nat, ps: seq<nat>)
    requires IsStack(ms, n, ps)
    ensures forall i, j :: 0 <= i < j < |ps| ==> ps[i] < ps[j]
  {
  }

  /** The open frames after one more line. */
  lemma OpenFramesStep(stmts: seq<Stmt>, n: nat, open: seq<Frame>, fs: seq<nat>, after: seq<Frame>)
    requires OpenFramesAre(stmts, n, open, fs) && n < |stmts|
    requires var at, top, s := Messages(stmts, n), |open| - 1, stmts[n];
             after == if s.OpenFrame? then open + [Frame(s.kind, [Section(at, at)], at, at)]
                      else if open == [] then []
                      else if s.End? then open[..top]
                      else if Splits(s, open[top].kind)
                      then var e := EndSection(open[top], at);
                           open[top := e.(sections := e.sections + [Section(at, at)])]
                      else open
    ensures OpenFramesAre(stmts, n + 1, after, StackAfter(fs, n, FrameMarks(stmts)[n]))
  {
    hide IsStack, OpenFrameIs, Messages, IsCut, EndSection;
    var ps := StackAfter(fs, n, FrameMarks(stmts)[n]);
    StackStep(FrameMarks(stmts), n, fs);
    forall r | 0 <= r < |fs|
      ensures !IsCut(stmts, fs[r], n) ==> OpenFrameIs(stmts, open[r], fs[r], n + 1)
      ensures IsCut(stmts, fs[r], n) ==>
                var at := Messages(stmts, n); var e := EndSection(open[r], at);
                OpenFrameIs(stmts, e.(sections := e.sections + [Section(at, at)]), fs[r], n + 1)
      ensures IsCut(stmts, fs[r], n) <==> r == |fs| - 1 && Splits(stmts[n], open[r].kind)
    {
      IsCutOfTop(stmts, n, open, fs, r);
      if IsCut(stmts, fs[r], n) {
        FrameSplits(stmts, open[r], fs[r], n);
      } else {
        FrameStays(stmts, open[r], fs[r], n);
      }
    }
    if stmts[n].OpenFrame? {
      FrameOpens(stmts, n);
    }
    forall r | 0 <= r < |ps|
      ensures OpenFrameIs(stmts, after[r], ps[r], n + 1)
    {
      if r < |fs| {
        assert ps[r] == fs[r];
      }
    }
  }

  /** The closed frames after one more line. */
  lemma FramesStep(stmts: seq<Stmt>, n: nat, open: seq<Frame>, fs: seq<nat>, frames: seq<Frame>,
                   lines: seq<nat>, ends: seq<nat>)
    requires OpenFramesAre(stmts, n, open, fs) && FramesAre(stmts, n, frames, lines, ends) && n < |stmts|
    ensures var at := Messages(stmts, n);
            if stmts[n].End? && open != []
            then FramesAre(stmts, n + 1, frames + [EndSection(open[|open| - 1], at).(end := at)],
                           lines + [fs[|fs| - 1]], ends + [n])
            else FramesAre(stmts, n + 1, frames, lines, ends)
  {
    hide IsStack, FrameIs, OpenFrameIs, Messages, EndSection, StillOpen, ClosedAt;
    var ms := FrameMarks(stmts);
    TopIsClosed(ms, n, fs);
    StillOpenAfter(ms, n, fs);
    if stmts[n].End? && open != [] {
      FrameCloses(stmts, open[|open| - 1], fs[|fs| - 1], n);
      forall p: nat | p < n + 1 && stmts[p].OpenFrame?
        ensures p in lines + [fs[|fs| - 1]] || StillOpen(ms, p, n + 1)
      {
      }
    }
  }

  lemma StillOpenAfter(ms: seq<Mark>, n: nat, ps: seq<nat>)
    requires IsStack(ms, n, ps) && n < |ms|
    ensures forall p: nat :: StillOpen(ms, p, n) ==> StillOpen(ms, p, n + 1) || (ms[n].Closes? && ps != [] && p == ps[|ps| - 1])
    ensures ms[n].Opens? ==> StillOpen(ms, n, n + 1)
  {
    hide StillOpen, Excess;
    StackStep(ms, n, ps);
    StackLoses(ps, n, ms[n]);
    StillOpenStep(ms, n, n);
    var after := StackAfter(ps, n, ms[n]);
    forall p: nat
      ensures StillOpen(ms, p, n) <==> p in ps
      ensures StillOpen(ms, p, n + 1) <==> p in after
    {
    }
  }

  lemma {:induction false} RunFrames(stmts: seq<Stmt>, n: nat)
    returns (fs: seq<nat>, lines: seq<nat>, ends: seq<nat>)
    requires n <= |stmts|
    ensures OpenFramesAre(stmts, n, Run(stmts[..n]).openFrames, fs)
    ensures FramesAre(stmts, n, Run(stmts[..n]).frames, lines, ends)
  {
    hide Run, Step, OpenFramesAre, FramesAre, EndSection, Splits;
    if n == 0 {
      fs, lines, ends := [], [], [];
      RunNothing(stmts);
      EmptyStack(FrameMarks(stmts));
      NoFrames(stmts);
    } else {
      fs, lines, ends := RunFrames(stmts, n - 1);
      RunStep(stmts, n - 1);
      EdgesCount(stmts, n - 1);
      var d := Run(stmts[..n - 1]);
      StepFramesAre(d, stmts[n - 1]);
      OpenFramesStep(stmts, n - 1, d.openFrames, fs, Run(stmts[..n]).openFrames);
      FramesStep(stmts, n - 1, d.openFrames, fs, d.frames, lines, ends);
      SameCount(stmts, n - 1, d.openFrames, fs);
      if stmts[n - 1].End? && d.openFrames != [] {
        lines, ends := lines + [fs[|fs| - 1]], ends + [n - 1];
      }
      fs := StackAfter(fs, n - 1, FrameMarks(stmts)[n - 1]);
    }
  }

  lemma SameCount(stmts: seq<Stmt>, n: nat, open: seq<Frame>, fs: seq<nat>)
    requires OpenFramesAre(stmts, n, open, fs)
    ensures |open| == |fs|
  {
  }

  lemma NoFrames(stmts: seq<Stmt>)
    requires IsStack(FrameMarks(stmts), 0, [])
    ensures OpenFramesAre(stmts, 0, [], []) && FramesAre(stmts, 0, [], [], [])
  {
  }

  // ---- boxes of a run ----

  /** Which boxes a line leaves open, and what it closes. */
  lemma StepBoxesAre(d: Diagram, s: Stmt)
    ensures var open := d.openBoxes; var top := |open| - 1;
            && Step(d, s).openBoxes
               == (if s.OpenBox? then open + [[]]
                   else if open == [] then []
                   else if s.Participant? then open[top := if s.id in open[top] then open[top] else open[top] + [s.id]]
                   else if s.End? && d.openFrames == [] then open[..top]
                   else open)
            && Step(d, s).boxes == (if s.End? && d.openFrames == [] && open != [] then d.boxes + [open[top]] else d.boxes)
  {
    match s
    case NoteLine(ids) => NameAllFrames(d, ids);
    case _ =>
  }

  lemma {:induction false} NothingDeclared(stmts: seq<Stmt>, p: nat, n: nat)
    requires n <= |stmts| && n <= p + 1
    ensures Declared(stmts, p, n) == []
  {
    if n > 0 {
      NothingDeclared(stmts, p, n - 1);
    }
  }

  lemma DeclaredStep(stmts: seq<Stmt>, n: nat, bs: seq<nat>, r: nat)
    requires IsStack(BoxMarks(stmts), n, bs) && n < |stmts| && r < |bs|
    ensures Declared(stmts, bs[r], n + 1)
         == Declared(stmts, bs[r], n) + if stmts[n].Participant? && r == |bs| - 1 then [stmts[n].id] else []
  {
    hide IsStack, Innermost, BoxMarks;
    TopIsInnermost(BoxMarks(stmts), n, bs);
    StackAscends(BoxMarks(stmts), n, bs);
  }

  /** Whether an `end` closes a box. */
  lemma BoxMarkOf(stmts: seq<Stmt>, n: nat, open: seq<Frame>, fs: seq<nat>)
    requires OpenFramesAre(stmts, n, open, fs) && n < |stmts|
    ensures BoxMarks(stmts)[n]
         == if stmts[n].OpenBox? then Opens else if stmts[n].End? && open == [] then Closes else Neither
  {
    hide StillOpen, OpenFrameIs;
    assert fs != [] ==> StillOpen(FrameMarks(stmts), fs[0], n);
  }

  lemma OpenBoxesStep(stmts: seq<Stmt>, n: nat, noFrame: bool, open: seq<seq<Id>>, bs: seq<nat>, after: seq<seq<Id>>)
    requires OpenBoxesAre(stmts, n, open, bs) && n < |stmts|
    requires BoxMarks(stmts)[n]
          == if stmts[n].OpenBox? then Opens else if stmts[n].End? && noFrame then Closes else Neither
    requires var top, s := |open| - 1, stmts[n];
             after == if s.OpenBox? then open + [[]]
                      else if open == [] then []
                      else if s.Participant? then open[top := if s.id in open[top] then open[top] else open[top] + [s.id]]
                      else if s.End? && noFrame then open[..top]
                      else open
    ensures OpenBoxesAre(stmts, n + 1, after, StackAfter(bs, n, BoxMarks(stmts)[n]))
  {
    hide IsStack, ListsFirsts, BoxMarks, Declared;
    var ps := StackAfter(bs, n, BoxMarks(stmts)[n]);
    StackStep(BoxMarks(stmts), n, bs);
    NothingDeclared(stmts, n, n + 1);
    NoFirsts<Id>();
    forall r | 0 <= r < |ps|
      ensures ListsFirsts(after[r], Declared(stmts, ps[r], n + 1))
    {
      if r < |bs| {
        assert ps[r] == bs[r];
        DeclaredStep(stmts, n, bs, r);
        if stmts[n].Participant? {
          ListsOneMore(open[r], Declared(stmts, bs[r], n), stmts[n].id);
        }
        assert Declared(stmts, bs[r], n) + [] == Declared(stmts, bs[r], n);
      }
    }
  }

  lemma BoxesStep(stmts: seq<Stmt>, n: nat, noFrame: bool, open: seq<seq<Id>>, bs: seq<nat>, boxes: seq<seq<Id>>,
                  lines: seq<nat>, ends: seq<nat>)
    requires OpenBoxesAre(stmts, n, open, bs) && BoxesAre(stmts, n, boxes, lines, ends) && n < |stmts|
    requires BoxMarks(stmts)[n]
          == if stmts[n].OpenBox? then Opens else if stmts[n].End? && noFrame then Closes else Neither
    ensures if stmts[n].End? && noFrame && open != []
            then BoxesAre(stmts, n + 1, boxes + [open[|open| - 1]], lines + [bs[|bs| - 1]], ends + [n])
            else BoxesAre(stmts, n + 1, boxes, lines, ends)
  {
    hide IsStack, ListsFirsts, BoxMarks, Declared, StillOpen, ClosedAt;
    var ms := BoxMarks(stmts);
    TopIsClosed(ms, n, bs);
    StillOpenAfter(ms, n, bs);
    if stmts[n].End? && noFrame && open != [] {
      forall p: nat | p < n + 1 && stmts[p].OpenBox?
        ensures p in lines + [bs[|bs| - 1]] || StillOpen(ms, p, n + 1)
      {
      }
    }
  }

  lemma {:induction false} RunBoxes(stmts: seq<Stmt>, n: nat)
    returns (bs: seq<nat>, lines: seq<nat>, ends: seq<nat>)
    requires n <= |stmts|
    ensures OpenBoxesAre(stmts, n, Run(stmts[..n]).openBoxes, bs)
    ensures BoxesAre(stmts, n, Run(stmts[..n]).boxes, lines, ends)
  {
    hide Run, Step, OpenBoxesAre, BoxesAre, OpenFramesAre, FramesAre, BoxMarks, StackAfter, IsStack;
    if n == 0 {
      bs, lines, ends := [], [], [];
      RunNothing(stmts);
      EmptyStack(BoxMarks(stmts));
      NoBoxes(stmts);
    } else {
      bs, lines, ends := RunBoxes(stmts, n - 1);
      RunStep(stmts, n - 1);
      var d := Run(stmts[..n - 1]);
      var fs, _, _ := RunFrames(stmts, n - 1);
      BoxMarkOf(stmts, n - 1, d.openFrames, fs);
      StepBoxesAre(d, stmts[n - 1]);
      OpenBoxesStep(stmts, n - 1, d.openFrames == [], d.openBoxes, bs, Run(stmts[..n]).openBoxes);
      BoxesStep(stmts, n - 1, d.openFrames == [], d.openBoxes, bs, d.boxes, lines, ends);
      SameBoxCount(stmts, n - 1, d.openBoxes, bs);
      if stmts[n - 1].End? && d.openFrames == [] && d.openBoxes != [] {
        lines, ends := lines + [bs[|bs| - 1]], ends + [n - 1];
      }
      bs := StackAfter(bs, n - 1, BoxMarks(stmts)[n - 1]);
    }
  }

  lemma SameBoxCount(stmts: seq<Stmt>, n: nat, open: seq<seq<Id>>, bs: seq<nat>)
    requires OpenBoxesAre(stmts, n, open, bs)
    ensures |open| == |bs|
  {
  }

  lemma NoBoxes(stmts: seq<Stmt>)
    requires IsStack(BoxMarks(stmts), 0, [])
    ensures OpenBoxesAre(stmts, 0, [], []) && BoxesAre(stmts, 0, [], [], [])
  {
  }

  // ---- the finished diagram ----

  /** Each of these lines is closed where it says, first closed first and, at the end, innermost first. */
  ghost predicate ClosedInOrder(ms: seq<Mark>, lines: seq<nat>, ends: seq<nat>) {
    && |lines| == |ends|
    && (forall k :: 0 <= k < |lines| ==> ClosedAt(ms, lines[k], ends[k]))
    && (forall i, j :: 0 <= i < j < |lines| ==>
          ends[i] < ends[j] || (ends[i] == ends[j] == |ms| && lines[i] > lines[j]))
    && (forall p: nat :: p < |ms| && ms[p].Opens? ==> p in lines)
  }

  /** The lines still open at the end close there, innermost first. */
  function Reversed(ps: seq<nat>): seq<nat> {
    if ps == [] then [] else [ps[|ps| - 1]] + Reversed(ps[..|ps| - 1])
  }

  function Repeated(n: nat, times: nat): (r: seq<nat>)
    ensures |r| == times && forall k :: 0 <= k < times ==> r[k] == n
  {
    seq(times, k => n)
  }

  lemma {:induction false} ReversedAt(ps: seq<nat>)
    ensures |Reversed(ps)| == |ps|
    ensures forall k :: 0 <= k < |ps| ==> Reversed(ps)[k] == ps[|ps| - 1 - k]
  {
    if ps != [] {
      ReversedAt(ps[..|ps| - 1]);
    }
  }

  lemma ReversedHolds(ps: seq<nat>)
    requires forall i, j :: 0 <= i < j < |ps| ==> ps[i] < ps[j]
    ensures |Reversed(ps)| == |ps| && (forall p :: p in Reversed(ps) <==> p in ps)
    ensures forall i, j :: 0 <= i < j < |ps| ==> Reversed(ps)[i] > Reversed(ps)[j]
    ensures forall k :: 0 <= k < |ps| ==> Reversed(ps)[k] == ps[|ps| - 1 - k]
  {
    hide Reversed;
    ReversedAt(ps);
    forall p | p in ps
      ensures p in Reversed(ps)
    {
      var k :| 0 <= k < |ps| && ps[k] == p;
      assert Reversed(ps)[|ps| - 1 - k] == p;
    }
  }

  lemma AllClosed(ms: seq<Mark>, ps: seq<nat>, lines: seq<nat>, ends: seq<nat>)
    requires IsStack(ms, |ms|, ps) && |lines| == |ends|
    requires forall k :: 0 <= k < |lines| ==> ends[k] < |ms| && ClosedAt(ms, lines[k], ends[k])
    requires forall i, j :: 0 <= i < j < |ends| ==> ends[i] < ends[j]
    requires forall p: nat :: p < |ms| && ms[p].Opens? ==> p in lines || StillOpen(ms, p, |ms|)
    ensures ClosedInOrder(ms, lines + Reversed(ps), ends + Repeated(|ms|, |ps|))
  {
    hide ClosedAt, StillOpen, IsStack, Reversed;
    var n := |ms|;
    TopIsClosed(ms, n, ps);
    StackAscends(ms, n, ps);
    ReversedHolds(ps);
    OpenAtEnd(ms, ps);
    var all, at := lines + Reversed(ps), ends + Repeated(n, |ps|);
    forall k | 0 <= k < |all|
      ensures ClosedAt(ms, all[k], at[k])
    {
      if k >= |lines| {
        assert all[k] == Reversed(ps)[k - |lines|] && Reversed(ps)[k - |lines|] in Reversed(ps);
      }
    }
  }

  lemma OpenAtEnd(ms: seq<Mark>, ps: seq<nat>)
    requires IsStack(ms, |ms|, ps)
    ensures forall p: nat :: StillOpen(ms, p, |ms|) ==> p in ps
  {
  }

  function ClosedAll(open: seq<Frame>, at: nat): seq<Frame> {
    if open == [] then []
    else [EndSection(open[|open| - 1], at).(end := at)] + ClosedAll(open[..|open| - 1], at)
  }

  function ReversedBoxes(open: seq<seq<Id>>): seq<seq<Id>> {
    if open == [] then [] else [open[|open| - 1]] + ReversedBoxes(open[..|open| - 1])
  }

  /** The end of the input closes what is open, innermost first, and changes nothing else. */
  lemma {:induction false} FinishIs(d: Diagram)
    ensures Finish(d) == d.(openFrames := [], openBoxes := [],
                            frames := d.frames + ClosedAll(d.openFrames, |d.edges|),
                            boxes := d.boxes + ReversedBoxes(d.openBoxes))
    decreases |d.openFrames| + |d.openBoxes|
  {
    hide EndSection;
    if d.openFrames != [] {
      FinishIs(CloseFrame(d));
      var f := EndSection(d.openFrames[|d.openFrames| - 1], |d.edges|).(end := |d.edges|);
      ConcatAssoc(d.frames, [f], ClosedAll(d.openFrames[..|d.openFrames| - 1], |d.edges|));
    } else if d.openBoxes != [] {
      FinishIs(CloseBox(d));
      ConcatAssoc(d.boxes, [d.openBoxes[|d.openBoxes| - 1]], ReversedBoxes(d.openBoxes[..|d.openBoxes| - 1]));
    } else {
      assert d.frames + [] == d.frames && d.boxes + [] == d.boxes;
    }
  }

  lemma {:induction false} ClosedAllAt(open: seq<Frame>, at: nat)
    ensures |ClosedAll(open, at)| == |open|
    ensures forall k :: 0 <= k < |open| ==>
              ClosedAll(open, at)[k] == EndSection(open[|open| - 1 - k], at).(end := at)
  {
    hide EndSection;
    if open != [] {
      ClosedAllAt(open[..|open| - 1], at);
    }
  }

  lemma {:induction false} ReversedBoxesAt(open: seq<seq<Id>>)
    ensures |ReversedBoxes(open)| == |open|
    ensures forall k :: 0 <= k < |open| ==> ReversedBoxes(open)[k] == open[|open| - 1 - k]
  {
    if open != [] {
      ReversedBoxesAt(open[..|open| - 1]);
    }
  }

  /** One frame for each line that opens one, in the order they close. */
  ghost predicate FramesMean(stmts: seq<Stmt>, frames: seq<Frame>) {
    exists lines: seq<nat>, ends: seq<nat> ::
      && |lines| == |ends| == |frames| && ClosedInOrder(FrameMarks(stmts), lines, ends)
      && forall k :: 0 <= k < |frames| ==> FrameIs(stmts, frames[k], lines[k], ends[k])
  }

  /** One box for each line that opens one, in the order they close, with who is declared directly in it. */
  ghost predicate BoxesMean(stmts: seq<Stmt>, boxes: seq<seq<Id>>) {
    exists lines: seq<nat>, ends: seq<nat> ::
      && |lines| == |ends| == |boxes| && ClosedInOrder(BoxMarks(stmts), lines, ends)
      && forall k :: 0 <= k < |boxes| ==>
           ends[k] <= |stmts| && ListsFirsts(boxes[k], Declared(stmts, lines[k], ends[k]))
  }

  lemma FinishedFrames(stmts: seq<Stmt>)
    ensures FramesMean(stmts, Finish(Run(stmts)).frames)
  {
    hide Run, Finish, FrameIs, OpenFrameIs, Messages, EndSection, IsStack, ClosedAt, StillOpen, ClosedAll, Reversed;
    var n := |stmts|;
    assert stmts[..n] == stmts;
    var d := Run(stmts);
    FinishIs(d);
    EdgesCount(stmts, n);
    var fs, lines, ends := RunFrames(stmts, n);
    AllClosed(FrameMarks(stmts), fs, lines, ends);
    StackAscends(FrameMarks(stmts), n, fs);
    ReversedHolds(fs);
    ClosedAllAt(d.openFrames, |d.edges|);
    var all, at := lines + Reversed(fs), ends + Repeated(n, |fs|);
    var frames := d.frames + ClosedAll(d.openFrames, |d.edges|);
    forall k | 0 <= k < |frames|
      ensures FrameIs(stmts, frames[k], all[k], at[k])
    {
      if k >= |lines| {
        var r := |fs| - 1 - (k - |lines|);
        FrameCloses(stmts, d.openFrames[r], fs[r], n);
        assert all[k] == Reversed(fs)[k - |lines|];
        assert frames[k] == ClosedAll(d.openFrames, |d.edges|)[k - |lines|];
      }
    }
  }

  lemma FinishedBoxes(stmts: seq<Stmt>)
    ensures BoxesMean(stmts, Finish(Run(stmts)).boxes)
  {
    hide Run, Finish, IsStack, ClosedAt, StillOpen, ReversedBoxes, Reversed, ListsFirsts, Declared, BoxMarks, ClosedAll;
    var n := |stmts|;
    assert stmts[..n] == stmts;
    var d := Run(stmts);
    FinishIs(d);
    var bs, lines, ends := RunBoxes(stmts, n);
    BoxesOpen(stmts);
    AllClosed(BoxMarks(stmts), bs, lines, ends);
    StackAscends(BoxMarks(stmts), n, bs);
    ReversedHolds(bs);
    ReversedBoxesAt(d.openBoxes);
    var all, at := lines + Reversed(bs), ends + Repeated(n, |bs|);
    var boxes := d.boxes + ReversedBoxes(d.openBoxes);
    forall k | 0 <= k < |boxes|
      ensures at[k] <= n && ListsFirsts(boxes[k], Declared(stmts, all[k], at[k]))
    {
      if k >= |lines| {
        var r := |bs| - 1 - (k - |lines|);
        assert all[k] == Reversed(bs)[k - |lines|] == bs[r];
        assert boxes[k] == ReversedBoxes(d.openBoxes)[k - |lines|] == d.openBoxes[r];
      }
    }
  }

  lemma BoxesOpen(stmts: seq<Stmt>)
    ensures forall p: nat :: p < |stmts| ==> (BoxMarks(stmts)[p].Opens? <==> stmts[p].OpenBox?)
  {
  }

  /** What a diagram holds, line by line. */
  lemma DiagramMeans(stmts: seq<Stmt>)
    ensures var d, n := Finish(Run(stmts)), |stmts|;
            && EdgesAre(stmts, n, d.edges) && NotesAre(stmts, n, d.notes)
            && ActivationsAre(stmts, n, d.activations)
            && ListsFirsts(d.order, MentionsIn(stmts, n))
            && d.nodes == (set id | id in MentionsIn(stmts, n))
            && FramesMean(stmts, d.frames) && BoxesMean(stmts, d.boxes)
  {
    hide Run, Finish, EdgesAre, NotesAre, ActivationsAre, ListsFirsts, FramesMean, BoxesMean, ClosedAll, ReversedBoxes;
    var n := |stmts|;
    assert stmts[..n] == stmts;
    FinishIs(Run(stmts));
    RunAppends(stmts, n);
    RunNames(stmts, n);
    FinishedFrames(stmts);
    FinishedBoxes(stmts);
  }
}
