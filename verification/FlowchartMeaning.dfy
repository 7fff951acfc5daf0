/** What a flowchart run yields, in terms of its statements alone. */
module FlowchartMeaning {
  import opened Bytes
  import opened Brackets
  import opened Mentions
  import opened Flowchart

  // ---- what a statement says ----

  /** The nodes a statement names. */
  ghost function Names(s: Stmt): set<Id> {
    match s
    case NodeOnly(id) => {id}
    case Links(links, _) => NamesOf(links)
    case _ => {}
  }

  function Ids(ids: seq<Id>): set<Id> { set id | id in ids }

  ghost function NamesOf(links: seq<Link>): set<Id> {
    if links == [] then {}
    else NamesOf(links[..|links| - 1]) + Ids(links[|links| - 1].sources) + Ids(links[|links| - 1].targets)
  }

  /** The same nodes in reading order. */
  function MentionsOf(s: Stmt): seq<Id> {
    match s
    case NodeOnly(id) => [id]
    case Links(links, _) => MentionsInLinks(links)
    case _ => []
  }

  function MentionsInLinks(links: seq<Link>): seq<Id> {
    if links == [] then []
    else MentionsInLinks(links[..|links| - 1]) + (links[|links| - 1].sources + links[|links| - 1].targets)
  }

  function Fan(source: Id, targets: seq<Id>): seq<Edge> {
    if targets == [] then [] else [Edge(source, targets[0])] + Fan(source, targets[1..])
  }

  /** Every source joined to every target, in reading order. */
  function Product(sources: seq<Id>, targets: seq<Id>): seq<Edge> {
    if sources == [] then [] else Fan(sources[0], targets) + Product(sources[1..], targets)
  }

  function EdgesOfLinks(links: seq<Link>): seq<Edge> {
    if links == [] then [] else Product(links[0].sources, links[0].targets) + EdgesOfLinks(links[1..])
  }

  /** The edges a statement draws. */
  function EdgesOf(s: Stmt): seq<Edge> {
    if s.Links? then EdgesOfLinks(s.links) else []
  }

  function Marks(stmts: seq<Stmt>): (ms: seq<Mark>)
    ensures |ms| == |stmts|
  {
    seq(|stmts|, k requires 0 <= k < |stmts| =>
      if stmts[k].OpenSubgraph? then Opens else if stmts[k].End? then Closes else Neither)
  }

  /** How many subgraphs the first `n` statements open; the next one gets this number. */
  function Opened(stmts: seq<Stmt>, n: nat): nat
    requires n <= |stmts|
  {
    if n == 0 then 0 else Opened(stmts, n - 1) + if stmts[n - 1].OpenSubgraph? then 1 else 0
  }

  /** A statement the parser gives up on. */
  predicate Malformed(s: Stmt) {
    s.Invalid? || (s.Links? && s.broken)
  }

  // ---- edges ----

  lemma {:induction false} FanHolds(source: Id, targets: seq<Id>)
    ensures |Fan(source, targets)| == |targets|
    ensures forall k :: 0 <= k < |targets| ==> Fan(source, targets)[k] == Edge(source, targets[k])
  {
    if targets != [] {
      FanHolds(source, targets[1..]);
    }
  }

  lemma FanMembers(source: Id, targets: seq<Id>, e: Edge)
    ensures e in Fan(source, targets) <==> e.from == source && e.to in targets
  {
    hide Fan;
    FanHolds(source, targets);
    if e.from == source && e.to in targets {
      var k :| 0 <= k < |targets| && targets[k] == e.to;
      assert Fan(source, targets)[k] == e;
    }
  }

  /** An edge is drawn exactly when it leads from a source to a target. */
  lemma {:induction false} ProductMembers(sources: seq<Id>, targets: seq<Id>, e: Edge)
    ensures e in Product(sources, targets) <==> e.from in sources && e.to in targets
  {
    hide Fan;
    if sources != [] {
      FanMembers(sources[0], targets, e);
      ProductMembers(sources[1..], targets, e);
      assert sources == [sources[0]] + sources[1..];
    }
  }

  /** Each place in the sources is joined once to each place in the targets. */
  lemma {:induction false} ProductSize(sources: seq<Id>, targets: seq<Id>)
    ensures |Product(sources, targets)| == |sources| * |targets|
  {
    hide Fan;
    if sources != [] {
      FanHolds(sources[0], targets);
      ProductSize(sources[1..], targets);
      assert |sources| * |targets| == |targets| + |sources[1..]| * |targets|;
    }
  }

  lemma {:induction false} ProductOneMore(sources: seq<Id>, s: Id, targets: seq<Id>)
    ensures Product(sources + [s], targets) == Product(sources, targets) + Fan(s, targets)
  {
    hide Fan;
    if sources == [] {
      assert [s][1..] == [] && [] + [s] == [s];
      assert Fan(s, targets) + [] == Fan(s, targets) == [] + Fan(s, targets);
    } else {
      assert (sources + [s])[1..] == sources[1..] + [s];
      ProductOneMore(sources[1..], s, targets);
    }
  }

  lemma {:induction false} PairsAreProduct(sources: seq<Id>, targets: seq<Id>)
    ensures Pairs(sources, targets) == Product(sources, targets)
  {
    hide Fan, Product;
    if sources == [] {
      NoProduct(targets);
    } else {
      var n := |sources| - 1;
      PairsAreProduct(sources[..n], targets);
      ProductOneMore(sources[..n], sources[n], targets);
      FanHolds(sources[n], targets);
      assert sources == sources[..n] + [sources[n]];
      assert seq(|targets|, k requires 0 <= k < |targets| => Edge(sources[n], targets[k])) == Fan(sources[n], targets);
    }
  }

  lemma NoProduct(targets: seq<Id>)
    ensures Product([], targets) == []
  {
  }

  lemma {:induction false} EdgesOneMore(links: seq<Link>, l: Link)
    ensures EdgesOfLinks(links + [l]) == EdgesOfLinks(links) + Product(l.sources, l.targets)
  {
    hide Product;
    if links == [] {
      assert [l][1..] == [] && [] + [l] == [l];
    } else {
      assert (links + [l])[1..] == links[1..] + [l];
      EdgesOneMore(links[1..], l);
    }
  }

  // ---- one statement ----

  ghost function Open(c: Chart): set<nat> { set k | k in c.stack }

  /**
   * How `c'` follows from `c` by naming nodes: a named node joins exactly the open subgraphs, unless
   * some other subgraph holds it already or none is open; every other node stays where it is.
   */
  ghost predicate Joins(c: Chart, c': Chart, named: set<Id>) {
    && c'.stack == c.stack && c'.parent == c.parent && |c'.members| == |c.members|
    && c'.nodes == c.nodes + named
    && forall id: Id :: Holders(c'.members, id)
         == if id in named && Open(c) != {} && Holders(c.members, id) <= Open(c) then Open(c)
            else Holders(c.members, id)
  }

  lemma NameNode(c: Chart, id: Id)
    requires Shape(c)
    ensures Joins(c, AddNode(c, id), {id}) && Shape(AddNode(c, id)) && AddNode(c, id).edges == c.edges
  {
    hide Holders, Joined, StackIsPath, IsForest;
    if c.stack != [] {
      assert c.stack[0] in Open(c);
      ElsewhereMeans(c, id);
    }
    if c.stack != [] && !ClaimedElsewhere(c, id) {
      forall other: Id
        ensures Holders(Joined(c, id), other)
             == if other == id then Holders(c.members, id) + Open(c) else Holders(c.members, other)
      {
        JoinedHolders(c, id, other);
      }
    }
  }

  lemma ElsewhereMeans(c: Chart, id: Id)
    ensures ClaimedElsewhere(c, id) <==> !(Holders(c.members, id) <= Open(c))
  {
    forall k | 0 <= k < |c.members|
      ensures k in Holders(c.members, id) <==> id in c.members[k]
    {
    }
    if ClaimedElsewhere(c, id) {
      var k :| 0 <= k < |c.members| && k !in c.stack && id in c.members[k];
      assert k in Holders(c.members, id) && k !in Open(c);
    }
  }

  lemma JoinsNothing(c: Chart)
    ensures Joins(c, c, {})
  {
  }

  lemma JoinsTwice(c: Chart, c1: Chart, c2: Chart, a: set<Id>, b: set<Id>)
    requires Joins(c, c1, a) && Joins(c1, c2, b)
    ensures Joins(c, c2, a + b)
  {
    hide Holders;
    assert Open(c1) == Open(c);
  }

  lemma {:induction false} NameNodes(c: Chart, ids: seq<Id>)
    requires Shape(c)
    ensures var c' := AddNodes(c, ids);
            Joins(c, c', Ids(ids)) && Shape(c') && c'.edges == c.edges
  {
    hide Joins, Shape, AddNode;
    if ids == [] {
      JoinsNothing(c);
      assert Ids(ids) == {};
    } else {
      var n := |ids| - 1;
      NameNodes(c, ids[..n]);
      NameNode(AddNodes(c, ids[..n]), ids[n]);
      JoinsTwice(c, AddNodes(c, ids[..n]), AddNodes(c, ids), Ids(ids[..n]), {ids[n]});
      assert ids == ids[..n] + [ids[n]];
      assert Ids(ids[..n]) + {ids[n]} == Ids(ids);
    }
  }

  lemma {:induction false} DrawLinks(c: Chart, links: seq<Link>)
    requires Shape(c)
    ensures var c' := AddLinks(c, links);
            Joins(c, c', NamesOf(links)) && Shape(c') && c'.edges == c.edges + EdgesOfLinks(links)
  {
    hide AddNodes, Product, Pairs;
    if links == [] {
      JoinsNothing(c);
    } else {
      var n := |links| - 1;
      var l := links[n];
      DrawLinks(c, links[..n]);
      DrawLink(AddLinks(c, links[..n]), l);
      EdgesOneMore(links[..n], l);
      assert links == links[..n] + [l];
      hide Joins, Shape, AddLink, EdgesOfLinks;
      var named := Ids(l.sources) + Ids(l.targets);
      JoinsTwice(c, AddLinks(c, links[..n]), AddLinks(c, links), NamesOf(links[..n]), named);
      assert NamesOf(links) == NamesOf(links[..n]) + named;
      ConcatAssoc(c.edges, EdgesOfLinks(links[..n]), Product(l.sources, l.targets));
    }
  }

  lemma DrawLink(c: Chart, l: Link)
    requires Shape(c)
    ensures var c' := AddLink(c, l);
            && Joins(c, c', Ids(l.sources) + Ids(l.targets)) && Shape(c')
            && c'.edges == c.edges + Product(l.sources, l.targets)
  {
    hide AddNodes, Product, Pairs, Holders, StackIsPath, IsForest;
    var c1 := AddNodes(c, l.sources);
    var c2 := AddNodes(c1, l.targets);
    NameNodes(c, l.sources);
    NameNodes(c1, l.targets);
    JoinsTwice(c, c1, c2, Ids(l.sources), Ids(l.targets));
    PairsAreProduct(l.sources, l.targets);
  }

  /** What one statement does: its nodes join, its edges are drawn, and the open subgraphs change. */
  lemma StepMeans(c: Chart, s: Stmt)
    requires Shape(c)
    ensures Step(c, s).Err? <==> Malformed(s)
    ensures Step(c, s).Ok? ==>
              var c' := Step(c, s).value;
              && c'.nodes == c.nodes + Names(s) && c'.edges == c.edges + EdgesOf(s)
              && (forall id: Id :: Holders(c'.members, id)
                    == if id in Names(s) && Open(c) != {} && Holders(c.members, id) <= Open(c) then Open(c)
                       else Holders(c.members, id))
              && |c'.members| == |c.members| + (if s.OpenSubgraph? then 1 else 0)
              && c'.stack == (match s
                              case OpenSubgraph => c.stack + [|c.members|]
                              case End => if c.stack == [] then [] else c.stack[..|c.stack| - 1]
                              case _ => c.stack)
              && c'.parent == c.parent + (if s.OpenSubgraph? then [TopOf(c.stack)] else [])
  {
    hide AddLinks, AddNode, NamesOf, EdgesOfLinks;
    match s
    case Links(links, _) => DrawLinks(c, links);
    case NodeOnly(id) => NameNode(c, id);
    case OpenSubgraph =>
      forall id: Id
        ensures Holders(c.members + [[]], id) == Holders(c.members, id)
      {
      }
    case _ =>
  }

  // ---- the order within a subgraph ----

  lemma {:induction false} AddNodesConcat(c: Chart, a: seq<Id>, b: seq<Id>)
    ensures AddNodes(c, a + b) == AddNodes(AddNodes(c, a), b)
  {
    hide AddNode;
    if b == [] {
      assert a + b == a;
    } else {
      var n := |b| - 1;
      AddNodesConcat(c, a, b[..n]);
      assert (a + b)[..|a + b| - 1] == a + b[..n];
    }
  }

  lemma {:induction false} EdgesDoNotMatter(c: Chart, ids: seq<Id>, edges: seq<Edge>)
    ensures AddNodes(c.(edges := edges), ids) == AddNodes(c, ids).(edges := edges)
  {
    if ids != [] {
      EdgesDoNotMatter(c, ids[..|ids| - 1], edges);
    }
  }

  /** The same chart but for its edges. */
  ghost predicate SameNodes(c: Chart, d: Chart) {
    c.(edges := d.edges) == d
  }

  lemma SameNodesNamed(c: Chart, d: Chart, ids: seq<Id>)
    requires SameNodes(c, d)
    ensures SameNodes(AddNodes(c, ids), AddNodes(d, ids))
  {
    EdgesDoNotMatter(c, ids, d.edges);
  }

  /** Drawing links names their nodes one after the other. */
  lemma {:induction false} LinksNameNodes(c: Chart, links: seq<Link>)
    ensures SameNodes(AddLinks(c, links), AddNodes(c, MentionsInLinks(links)))
  {
    hide AddNodes, Pairs;
    if links == [] {
      NoNodes(c);
    } else {
      var n := |links| - 1;
      var l, ms := links[n], MentionsInLinks(links[..n]);
      LinksNameNodes(c, links[..n]);
      var c1, c2 := AddLinks(c, links[..n]), AddNodes(c, ms);
      AddNodesConcat(c1, l.sources, l.targets);
      AddNodesConcat(c, ms, l.sources + l.targets);
      SameNodesNamed(c1, c2, l.sources + l.targets);
    }
  }

  lemma NoNodes(c: Chart)
    ensures AddNodes(c, []) == c
  {
  }

  lemma AddsAtEnd(c: Chart, id: Id, k: nat)
    requires k < |c.members|
    ensures |AddNode(c, id).members| == |c.members|
    ensures AddNode(c, id).members[k]
         == if c.stack != [] && !ClaimedElsewhere(c, id) && k in c.stack && id !in c.members[k]
            then c.members[k] + [id] else c.members[k]
  {
  }

  /** In every subgraph the nodes a statement brings come last, in reading order. */
  lemma {:induction false} NodesInOrder(c: Chart, ids: seq<Id>, k: nat)
    requires Shape(c) && k < |c.members|
    ensures |AddNodes(c, ids).members| == |c.members|
    ensures Adds(c.members[k], AddNodes(c, ids).members[k], ids)
  {
    hide Shape, Adds, AddNode, ClaimedElsewhere;
    if ids == [] {
      AddsNothing(c.members[k]);
    } else {
      var n := |ids| - 1;
      var c1 := AddNodes(c, ids[..n]);
      NodesInOrder(c, ids[..n], k);
      NameNodes(c, ids[..n]);
      AddsAtEnd(c1, ids[n], k);
      AddsOneMore(c.members[k], c1.members[k], ids[..n], ids[n]);
      HeldMeans(c1, ids[n], k);
      if ids[n] in ids[..n] && c1.stack != [] && !ClaimedElsewhere(c1, ids[n]) {
        AlreadyJoined(c, c1, Ids(ids[..n]), ids[n]);
      }
      assert ids == ids[..n] + [ids[n]];
    }
  }

  lemma AlreadyJoined(c: Chart, c1: Chart, named: set<Id>, id: Id)
    requires Joins(c, c1, named) && id in named && c1.stack != [] && !ClaimedElsewhere(c1, id)
    ensures forall k :: k in c1.stack ==> k in Holders(c1.members, id)
  {
    hide Holders, ClaimedElsewhere;
    ElsewhereMeans(c1, id);
    assert c1.stack[0] in Open(c);
    assert Open(c1) == Open(c);
  }

  lemma HeldMeans(c: Chart, id: Id, k: nat)
    requires k < |c.members|
    ensures k in Holders(c.members, id) <==> id in c.members[k]
  {
  }

  lemma StepInOrder(c: Chart, s: Stmt, k: nat)
    requires Shape(c) && k < |c.members| && Step(c, s).Ok?
    ensures k < |Step(c, s).value.members| && Adds(c.members[k], Step(c, s).value.members[k], MentionsOf(s))
  {
    hide AddNodes, AddLinks, Adds;
    AddsNothing(c.members[k]);
    match s
    case Links(links, _) =>
      LinksNameNodes(c, links);
      NodesInOrder(c, MentionsInLinks(links), k);
    case NodeOnly(id) =>
      NodesInOrder(c, [id], k);
      OneNode(c, id);
    case _ =>
  }

  lemma OneNode(c: Chart, id: Id)
    ensures AddNodes(c, [id]) == AddNode(c, id)
  {
    assert AddNodes(c, []) == c;
  }

  /** What is in a subgraph stays, and what a statement of a run brings comes behind it in reading order. */
  lemma MembersInOrder(stmts: seq<Stmt>, n: nat, k: nat)
    requires n < |stmts| && Run(stmts[..n + 1]).Ok?
    ensures Run(stmts[..n]).Ok?
    ensures var c, c' := Run(stmts[..n]).value, Run(stmts[..n + 1]).value;
            k < |c.members| ==> k < |c'.members| && Adds(c.members[k], c'.members[k], MentionsOf(stmts[n]))
  {
    hide Step, Adds;
    RunPrefix(stmts, n);
    RunInv(stmts[..n]);
    if k < |Run(stmts[..n]).value.members| {
      StepInOrder(Run(stmts[..n]).value, stmts[n], k);
    }
  }

  // ---- a whole run ----

  /** A run fails exactly on a malformed statement. */
  lemma {:induction false} RunFailsOnMalformed(stmts: seq<Stmt>)
    ensures Run(stmts).Err? <==> exists k :: 0 <= k < |stmts| && Malformed(stmts[k])
  {
    hide Step, Malformed;
    if stmts != [] {
      var n := |stmts| - 1;
      var init := stmts[..n];
      RunFailsOnMalformed(init);
      assert forall k :: 0 <= k < n ==> init[k] == stmts[k];
      if Run(init).Ok? {
        RunInv(init);
        StepMeans(Run(init).value, stmts[n]);
      }
    }
  }

  /** The edges all statements draw, in order. */
  function EdgesOfRun(stmts: seq<Stmt>): seq<Edge> {
    if stmts == [] then [] else EdgesOfRun(stmts[..|stmts| - 1]) + EdgesOf(stmts[|stmts| - 1])
  }

  /** The nodes are those named, and the edges those drawn. */
  lemma {:induction false} RunDraws(stmts: seq<Stmt>)
    requires Run(stmts).Ok?
    ensures forall id: Id :: id in Run(stmts).value.nodes <==> exists k :: 0 <= k < |stmts| && id in Names(stmts[k])
    ensures Run(stmts).value.edges == EdgesOfRun(stmts)
  {
    hide Step, Names, EdgesOf, Holders;
    if stmts != [] {
      var n := |stmts| - 1;
      var init := stmts[..n];
      RunDraws(init);
      RunInv(init);
      StepMeans(Run(init).value, stmts[n]);
      assert forall k :: 0 <= k < n ==> init[k] == stmts[k];
    }
  }

  lemma RunPrefix(stmts: seq<Stmt>, n: nat)
    requires n < |stmts| && Run(stmts[..n + 1]).Ok?
    ensures Run(stmts[..n]).Ok? && Run(stmts[..n + 1]) == Step(Run(stmts[..n]).value, stmts[n])
  {
    assert stmts[..n + 1][..n] == stmts[..n];
  }

  /** The stack holds the numbers of the subgraphs that are open, and a new one goes into the innermost. */
  ghost predicate Nests(stmts: seq<Stmt>, n: nat, c: Chart, ps: seq<nat>) {
    && n <= |stmts| && IsStack(Marks(stmts), n, ps)
    && |c.members| == |c.parent| == Opened(stmts, n) && |c.stack| == |ps|
    && (forall r :: 0 <= r < |ps| ==> ps[r] < n && c.stack[r] == Opened(stmts, ps[r]))
  }

  lemma {:induction false} RunNests(stmts: seq<Stmt>, n: nat) returns (ps: seq<nat>)
    requires n <= |stmts| && Run(stmts[..n]).Ok?
    ensures Nests(stmts, n, Run(stmts[..n]).value, ps)
  {
    hide Step, IsStack, Holders, Names, EdgesOf;
    if n == 0 {
      ps := [];
      EmptyStack(Marks(stmts));
      assert stmts[..0] == [];
    } else {
      RunPrefix(stmts, n - 1);
      RunInv(stmts[..n - 1]);
      var before := RunNests(stmts, n - 1);
      StepMeans(Run(stmts[..n - 1]).value, stmts[n - 1]);
      StackStep(Marks(stmts), n - 1, before);
      ps := StackAfter(before, n - 1, Marks(stmts)[n - 1]);
    }
  }

  lemma {:induction false} OpenedGrows(stmts: seq<Stmt>, p: nat, q: nat)
    requires p < q <= |stmts| && stmts[p].OpenSubgraph?
    ensures Opened(stmts, p) < Opened(stmts, q)
  {
    if p < q - 1 {
      OpenedGrows(stmts, p, q - 1);
    }
  }

  /** Subgraph `k` is open exactly if the statement that opened it is not closed yet. */
  lemma OpenSubgraphs(stmts: seq<Stmt>, n: nat, p: nat)
    requires n <= |stmts| && Run(stmts[..n]).Ok? && p < n && stmts[p].OpenSubgraph?
    ensures Opened(stmts, p) in Open(Run(stmts[..n]).value) <==> StillOpen(Marks(stmts), p, n)
  {
    hide StillOpen, Run;
    var c := Run(stmts[..n]).value;
    var ps := RunNests(stmts, n);
    if StillOpen(Marks(stmts), p, n) {
      var r :| 0 <= r < |ps| && ps[r] == p;
      assert c.stack[r] in c.stack;
    } else if Opened(stmts, p) in c.stack {
      var r :| 0 <= r < |ps| && c.stack[r] == Opened(stmts, p);
      OpensBefore(Marks(stmts), ps[r], n);
      if ps[r] < p {
        OpenedGrows(stmts, ps[r], p);
      } else if p < ps[r] {
        OpenedGrows(stmts, p, ps[r]);
      }
    }
  }

  /** `parent` is the number of the innermost subgraph that is open before statement `p`, if one is. */
  ghost predicate IsInnermostOpen(stmts: seq<Stmt>, p: nat, parent: Option<nat>) {
    && p <= |stmts|
    && (parent.None? <==> forall q: nat :: !StillOpen(Marks(stmts), q, p))
    && (forall q: nat :: Innermost(Marks(stmts), q, p) ==> q < p && parent == Some(Opened(stmts, q)))
  }

  lemma TopIsInnermostOpen(stmts: seq<Stmt>, n: nat, c: Chart, ps: seq<nat>)
    requires Nests(stmts, n, c, ps)
    ensures IsInnermostOpen(stmts, n, TopOf(c.stack))
  {
    hide StillOpen, Innermost, Opened;
    TopIsInnermost(Marks(stmts), n, ps);
    assert forall r :: 0 <= r < |ps| ==> StillOpen(Marks(stmts), ps[r], n);
  }

  /** The parent of a subgraph is the innermost one that was open when it was opened. */
  lemma {:induction false} ParentIsInnermost(stmts: seq<Stmt>, n: nat, p: nat)
    requires p < n <= |stmts| && Run(stmts[..n]).Ok? && stmts[p].OpenSubgraph?
    ensures Opened(stmts, p) < |Run(stmts[..n]).value.parent|
    ensures IsInnermostOpen(stmts, p, Run(stmts[..n]).value.parent[Opened(stmts, p)])
  {
    hide Step, Holders, Names, EdgesOf, IsInnermostOpen, IsStack, Run;
    RunPrefix(stmts, n - 1);
    RunInv(stmts[..n - 1]);
    var c := Run(stmts[..n - 1]).value;
    StepMeans(c, stmts[n - 1]);
    var ps := RunNests(stmts, n - 1);
    if p < n - 1 {
      ParentIsInnermost(stmts, n - 1, p);
    } else {
      TopIsInnermostOpen(stmts, p, c, ps);
    }
  }

  /**
   * Statement `n` moves the nodes it names into exactly the open subgraphs, unless none is open or a
   * subgraph that is not holds the node; all other nodes stay where they are.
   */
  lemma MembersFollow(stmts: seq<Stmt>, n: nat, id: Id)
    requires n < |stmts| && Run(stmts[..n + 1]).Ok?
    ensures Run(stmts[..n]).Ok?
    ensures var c, c' := Run(stmts[..n]).value, Run(stmts[..n + 1]).value;
            Holders(c'.members, id)
            == if id in Names(stmts[n]) && Open(c) != {} && Holders(c.members, id) <= Open(c) then Open(c)
               else Holders(c.members, id)
  {
    hide Step, Holders, Names, EdgesOf;
    RunPrefix(stmts, n);
    RunInv(stmts[..n]);
    StepMeans(Run(stmts[..n]).value, stmts[n]);
  }

  /** A node never leaves a subgraph. */
  lemma {:induction false} HoldersGrow(stmts: seq<Stmt>, n: nat, m: nat, id: Id)
    requires n <= m <= |stmts| && Run(stmts[..m]).Ok?
    ensures Run(stmts[..n]).Ok?
    ensures Holders(Run(stmts[..n]).value.members, id) <= Holders(Run(stmts[..m]).value.members, id)
    decreases m - n
  {
    hide Run, Holders, Names;
    if n < m {
      MembersFollow(stmts, m - 1, id);
      HoldersGrow(stmts, n, m - 1, id);
    }
  }

  /**
   * A node first named by statement `p` ends up in every subgraph that is open there: the innermost one
   * and all that enclose it.
   */
  lemma FirstNamedJoins(stmts: seq<Stmt>, p: nat, q: nat, id: Id)
    requires Run(stmts).Ok? && q < p < |stmts| && id in Names(stmts[p])
    requires forall k :: 0 <= k < p ==> id !in Names(stmts[k])
    requires StillOpen(Marks(stmts), q, p)
    ensures Opened(stmts, q) < |Run(stmts).value.members| && id in Run(stmts).value.members[Opened(stmts, q)]
  {
    hide Run, Names, StillOpen;
    assert stmts[..|stmts|] == stmts;
    HoldersGrow(stmts, p + 1, |stmts|, id);
    MembersFollow(stmts, p, id);
    var c := Run(stmts[..p]).value;
    NotNamedNotHeld(stmts, p, id);
    OpensBefore(Marks(stmts), q, p);
    OpenSubgraphs(stmts, p, q);
    assert Opened(stmts, q) in Holders(Run(stmts[..p + 1]).value.members, id);
  }

  lemma NotNamedNotHeld(stmts: seq<Stmt>, p: nat, id: Id)
    requires p <= |stmts| && Run(stmts[..p]).Ok? && forall k :: 0 <= k < p ==> id !in Names(stmts[k])
    ensures Holders(Run(stmts[..p]).value.members, id) == {}
  {
    hide Run, Names, Holders;
    RunDraws(stmts[..p]);
    RunInv(stmts[..p]);
  }

  /** Outside every subgraph a node joins none, and stays in none until it is named within one. */
  lemma NamedOutside(stmts: seq<Stmt>, n: nat, id: Id)
    requires n <= |stmts| && Run(stmts[..n]).Ok?
    requires forall p, q: nat :: 0 <= p < n && id in Names(stmts[p]) ==> !StillOpen(Marks(stmts), q, p)
    ensures Holders(Run(stmts[..n]).value.members, id) == {}
    decreases n
  {
    hide Run, Names, StillOpen, Holders;
    if n == 0 {
      assert stmts[..0] == [];
      NothingHeld(id);
    } else {
      MembersFollow(stmts, n - 1, id);
      NamedOutside(stmts, n - 1, id);
      var ps := RunNests(stmts, n - 1);
      assert forall r :: 0 <= r < |ps| ==> StillOpen(Marks(stmts), ps[r], n - 1);
      assert id in Names(stmts[n - 1]) ==> Open(Run(stmts[..n - 1]).value) == {};
    }
  }

  lemma NothingHeld(id: Id)
    ensures Run([]) == Ok(EMPTY) && Holders(EMPTY.members, id) == {}
  {
  }
}
