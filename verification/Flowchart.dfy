/** Flowchart parsing over classified statements: nodes, edges and the subgraph stack. */
module Flowchart {
  import opened Bytes

  type Id = string

  datatype Edge = Edge(from: Id, to: Id)

  /** One link of an edge line: every source is joined to every target. */
  datatype Link = Link(sources: seq<Id>, targets: seq<Id>)

  /** A classified statement. `broken` marks an edge chain that turns out malformed after its links. */
  datatype Stmt =
    | OpenSubgraph
    | End
    | Links(links: seq<Link>, broken: bool)
    | NodeOnly(id: Id)
    | Invalid
    | Other

  /**
   * The graph under construction. `members[k]` lists the nodes of subgraph `k`; `parent[k]` is the
   * subgraph it was opened in.
   */
  datatype Chart = Chart(nodes: set<Id>, edges: seq<Edge>, members: seq<seq<Id>>, stack: seq<nat>,
                         parent: seq<Option<nat>>)

  const EMPTY := Chart({}, [], [], [], [])

  // ---- what each statement does ----

  /** Some subgraph outside the open ones already holds the node. */
  predicate ClaimedElsewhere(c: Chart, id: Id) {
    exists k :: 0 <= k < |c.members| && k !in c.stack && id in c.members[k]
  }

  function Joined(c: Chart, id: Id): (members: seq<seq<Id>>)
    ensures |members| == |c.members|
  {
    seq(|c.members|, k requires 0 <= k < |c.members| =>
      if k in c.stack && id !in c.members[k] then c.members[k] + [id] else c.members[k])
  }

  function AddNode(c: Chart, id: Id): Chart {
    c.(nodes := c.nodes + {id},
       members := if c.stack == [] || ClaimedElsewhere(c, id) then c.members else Joined(c, id))
  }

  function AddNodes(c: Chart, ids: seq<Id>): Chart {
    if ids == [] then c else AddNode(AddNodes(c, ids[..|ids| - 1]), ids[|ids| - 1])
  }

  /** All pairs, sources first. */
  function Pairs(sources: seq<Id>, targets: seq<Id>): seq<Edge> {
    if sources == [] then []
    else
      var s := sources[|sources| - 1];
      Pairs(sources[..|sources| - 1], targets) + seq(|targets|, k requires 0 <= k < |targets| => Edge(s, targets[k]))
  }

  function AddLink(c: Chart, link: Link): Chart {
    var c' := AddNodes(AddNodes(c, link.sources), link.targets);
    c'.(edges := c'.edges + Pairs(link.sources, link.targets))
  }

  function AddLinks(c: Chart, links: seq<Link>): Chart {
    if links == [] then c else AddLink(AddLinks(c, links[..|links| - 1]), links[|links| - 1])
  }

  function TopOf(stack: seq<nat>): Option<nat> {
    if stack == [] then None else Some(stack[|stack| - 1])
  }

  function Step(c: Chart, s: Stmt): Result<Chart> {
    match s
    case OpenSubgraph =>
      Ok(c.(members := c.members + [[]], stack := c.stack + [|c.members|], parent := c.parent + [TopOf(c.stack)]))
    case End => Ok(if c.stack == [] then c else c.(stack := c.stack[..|c.stack| - 1]))
    case Links(links, broken) => if broken then Err else Ok(AddLinks(c, links))
    case NodeOnly(id) => Ok(AddNode(c, id))
    case Invalid => Err
    case Other => Ok(c)
  }

  function Run(stmts: seq<Stmt>): Result<Chart> {
    if stmts == [] then Ok(EMPTY)
    else
      match Run(stmts[..|stmts| - 1])
      case Err => Err
      case Ok(c) => Step(c, stmts[|stmts| - 1])
  }

  // ---- the nesting tree ----

  /** Parents are opened before their children. */
  predicate IsForest(parent: seq<Option<nat>>) {
    forall k :: 0 <= k < |parent| && parent[k].Some? ==> parent[k].value < k
  }

  /** A subgraph and everything it is nested in. */
  ghost function Chain(parent: seq<Option<nat>>, k: nat): set<nat>
    requires IsForest(parent) && k < |parent|
  {
    {k} + if parent[k].None? then {} else Chain(parent, parent[k].value)
  }

  ghost predicate Nested(parent: seq<Option<nat>>, a: nat, b: nat)
    requires IsForest(parent) && a < |parent| && b < |parent|
  {
    a in Chain(parent, b) || b in Chain(parent, a)
  }

  /** The subgraphs that hold a node. */
  ghost function Holders(members: seq<seq<Id>>, id: Id): set<nat> {
    set k | 0 <= k < |members| && id in members[k]
  }

  ghost predicate NoDuplicates(ids: seq<Id>) {
    forall i, j :: 0 <= i < j < |ids| ==> ids[i] != ids[j]
  }

  /** The open subgraphs are one path down the tree from a root. */
  predicate StackIsPath(stack: seq<nat>, parent: seq<Option<nat>>) {
    stack == [] ||
    (var init, top := stack[..|stack| - 1], stack[|stack| - 1];
     top < |parent| && parent[top] == TopOf(init) && StackIsPath(init, parent))
  }

  /** The subgraphs holding a node are none, or one whole chain from a root down. */
  ghost predicate HeldByChain(c: Chart, id: Id)
    requires IsForest(c.parent)
  {
    Holders(c.members, id) == {} || exists k :: 0 <= k < |c.parent| && Holders(c.members, id) == Chain(c.parent, k)
  }

  ghost predicate Shape(c: Chart) {
    |c.parent| == |c.members| && IsForest(c.parent) && StackIsPath(c.stack, c.parent)
  }

  ghost predicate NodesKnown(c: Chart) {
    && (forall id: Id :: Holders(c.members, id) != {} ==> id in c.nodes)
    && (forall k :: 0 <= k < |c.edges| ==> c.edges[k].from in c.nodes && c.edges[k].to in c.nodes)
  }

  ghost predicate ListsDistinct(members: seq<seq<Id>>) {
    forall k :: 0 <= k < |members| ==> NoDuplicates(members[k])
  }

  ghost predicate Inv(c: Chart) {
    Shape(c) && NodesKnown(c) && ListsDistinct(c.members) && forall id: Id :: HeldByChain(c, id)
  }

  lemma {:induction false} StackIsChain(stack: seq<nat>, parent: seq<Option<nat>>)
    requires IsForest(parent) && StackIsPath(stack, parent)
    ensures forall k :: k in stack ==> k < |parent|
    ensures stack != [] ==> Chain(parent, stack[|stack| - 1]) == set k | k in stack
  {
    if stack != [] {
      var n := |stack| - 1;
      StackIsChain(stack[..n], parent);
      assert stack == stack[..n] + [stack[n]];
    }
  }

  lemma {:induction false} StackPathExtends(stack: seq<nat>, parent: seq<Option<nat>>, more: seq<Option<nat>>)
    requires StackIsPath(stack, parent)
    ensures StackIsPath(stack, parent + more)
  {
    if stack != [] {
      StackPathExtends(stack[..|stack| - 1], parent, more);
    }
  }

  lemma {:induction false} ChainOfPrefix(parent: seq<Option<nat>>, more: seq<Option<nat>>, k: nat)
    requires IsForest(parent) && IsForest(parent + more) && k < |parent|
    ensures Chain(parent + more, k) == Chain(parent, k)
  {
    if parent[k].Some? {
      ChainOfPrefix(parent, more, parent[k].value);
    }
  }

  /** A chain is closed upwards. */
  lemma {:induction false} ChainIsClosed(parent: seq<Option<nat>>, top: nat, k: nat)
    requires IsForest(parent) && top < |parent| && k in Chain(parent, top)
    ensures k < |parent| && Chain(parent, k) <= Chain(parent, top)
  {
    if k != top {
      ChainIsClosed(parent, parent[top].value, k);
    }
  }

  /** Two subgraphs of one chain are nested. */
  lemma {:induction false} ChainIsNested(parent: seq<Option<nat>>, top: nat, a: nat, b: nat)
    requires IsForest(parent) && top < |parent| && a in Chain(parent, top) && b in Chain(parent, top)
    ensures a < |parent| && b < |parent| && Nested(parent, a, b)
  {
    if a == top {
      ChainIsClosed(parent, top, b);
    } else if b == top {
      ChainIsClosed(parent, top, a);
    } else {
      ChainIsNested(parent, parent[top].value, a, b);
    }
  }

  // ---- every step keeps the invariant ----

  lemma EmptyInv()
    ensures Inv(EMPTY)
  {
  }

  lemma JoinedHolders(c: Chart, id: Id, other: Id)
    requires Shape(c)
    ensures Holders(Joined(c, id), other)
         == if other == id then Holders(c.members, id) + (set k | k in c.stack) else Holders(c.members, other)
  {
    var members := Joined(c, id);
    StackIsChain(c.stack, c.parent);
    forall k | 0 <= k < |members|
      ensures other in members[k] <==> other in c.members[k] || (other == id && k in c.stack)
    {
    }
  }

  /** Visit the open subgraphs one after the other. */
  function JoinAll(members: seq<seq<Id>>, idxs: seq<nat>, id: Id): (out: seq<seq<Id>>)
    ensures |out| == |members|
  {
    if idxs == [] then members
    else
      var before, k := JoinAll(members, idxs[..|idxs| - 1], id), idxs[|idxs| - 1];
      if k < |before| && id !in before[k] then before[k := before[k] + [id]] else before
  }

  lemma {:induction false} JoinAllAt(members: seq<seq<Id>>, idxs: seq<nat>, id: Id, k: nat)
    requires k < |members|
    ensures JoinAll(members, idxs, id)[k] == if k in idxs && id !in members[k] then members[k] + [id] else members[k]
  {
    if idxs != [] {
      var n := |idxs| - 1;
      JoinAllAt(members, idxs[..n], id, k);
      assert idxs == idxs[..n] + [idxs[n]];
    }
  }

  lemma JoinAllIsJoined(c: Chart, id: Id)
    ensures JoinAll(c.members, c.stack, id) == Joined(c, id)
  {
    hide JoinAll;
    forall k | 0 <= k < |c.members|
      ensures JoinAll(c.members, c.stack, id)[k] == Joined(c, id)[k]
    {
      JoinAllAt(c.members, c.stack, id, k);
    }
  }

  lemma HoldersAreOpen(c: Chart, id: Id)
    requires !ClaimedElsewhere(c, id)
    ensures Holders(c.members, id) <= set k | k in c.stack
  {
  }

  /** A node nobody outside the open subgraphs holds ends up held by exactly the open ones. */
  lemma JoinedHolds(c: Chart, id: Id)
    requires Shape(c) && c.stack != [] && !ClaimedElsewhere(c, id)
    ensures c.stack[|c.stack| - 1] < |c.parent|
    ensures Holders(Joined(c, id), id) == Chain(c.parent, c.stack[|c.stack| - 1])
  {
    hide Holders, Chain, ClaimedElsewhere, Joined;
    StackIsChain(c.stack, c.parent);
    JoinedHolders(c, id, id);
    HoldersAreOpen(c, id);
  }

  lemma JoinedHeld(c: Chart, id: Id, other: Id)
    requires Shape(c) && HeldByChain(c, other) && c.stack != [] && !ClaimedElsewhere(c, id)
    ensures HeldByChain(AddNode(c, id), other)
  {
    hide Holders, Chain, ClaimedElsewhere, Joined, StackIsPath;
    if other == id {
      JoinedHolds(c, id);
    } else {
      JoinedHolders(c, id, other);
    }
  }

  lemma AddNodeInv(c: Chart, id: Id)
    requires Inv(c)
    ensures Inv(AddNode(c, id))
  {
    var c' := AddNode(c, id);
    forall other: Id
      ensures HeldByChain(c', other) && (Holders(c'.members, other) != {} ==> other in c'.nodes)
    {
      assert HeldByChain(c, other);
      if c.stack != [] && !ClaimedElsewhere(c, id) {
        JoinedHeld(c, id, other);
        JoinedHolders(c, id, other);
      }
    }
    hide HeldByChain, Holders, Shape;
    forall k | 0 <= k < |c'.members|
      ensures NoDuplicates(c'.members[k])
    {
      assert NoDuplicates(c.members[k]);
    }
  }

  lemma {:induction false} AddNodesInv(c: Chart, ids: seq<Id>)
    requires Inv(c)
    ensures Inv(AddNodes(c, ids)) && AddNodes(c, ids).edges == c.edges && c.nodes <= AddNodes(c, ids).nodes
    ensures forall id :: id in ids ==> id in AddNodes(c, ids).nodes
  {
    hide Inv;
    if ids != [] {
      var n := |ids| - 1;
      AddNodesInv(c, ids[..n]);
      AddNodeInv(AddNodes(c, ids[..n]), ids[n]);
      assert ids == ids[..n] + [ids[n]];
    }
  }

  lemma {:induction false} PairsHold(sources: seq<Id>, targets: seq<Id>, k: nat)
    requires k < |Pairs(sources, targets)|
    ensures Pairs(sources, targets)[k].from in sources && Pairs(sources, targets)[k].to in targets
  {
    var n := |sources| - 1;
    if k < |Pairs(sources[..n], targets)| {
      PairsHold(sources[..n], targets, k);
    }
  }

  lemma AddEdgesInv(c: Chart, edges: seq<Edge>)
    requires Inv(c) && forall k :: 0 <= k < |edges| ==> edges[k].from in c.nodes && edges[k].to in c.nodes
    ensures Inv(c.(edges := c.edges + edges))
  {
    var c' := c.(edges := c.edges + edges);
    forall id: Id
      ensures HeldByChain(c', id)
    {
      assert HeldByChain(c, id);
    }
  }

  lemma AddLinkInv(c: Chart, link: Link)
    requires Inv(c)
    ensures Inv(AddLink(c, link))
  {
    hide Inv;
    AddNodesInv(c, link.sources);
    AddNodesInv(AddNodes(c, link.sources), link.targets);
    var pairs := Pairs(link.sources, link.targets);
    forall k | 0 <= k < |pairs|
      ensures pairs[k].from in link.sources && pairs[k].to in link.targets
    {
      PairsHold(link.sources, link.targets, k);
    }
    AddEdgesInv(AddNodes(AddNodes(c, link.sources), link.targets), pairs);
  }

  lemma {:induction false} AddLinksInv(c: Chart, links: seq<Link>)
    requires Inv(c)
    ensures Inv(AddLinks(c, links))
  {
    hide Inv;
    if links != [] {
      AddLinksInv(c, links[..|links| - 1]);
      AddLinkInv(AddLinks(c, links[..|links| - 1]), links[|links| - 1]);
    }
  }

  lemma OpenInv(c: Chart)
    requires Inv(c)
    ensures Inv(Step(c, OpenSubgraph).value)
  {
    var c' := Step(c, OpenSubgraph).value;
    StackIsChain(c.stack, c.parent);
    StackPathExtends(c.stack, c.parent, [TopOf(c.stack)]);
    assert c'.stack[..|c.stack|] == c.stack;
    assert Shape(c');
    forall id: Id
      ensures HeldByChain(c', id) && (Holders(c'.members, id) != {} ==> id in c'.nodes)
    {
      assert HeldByChain(c, id);
      assert Holders(c'.members, id) == Holders(c.members, id);
      if Holders(c.members, id) != {} {
        var k :| 0 <= k < |c.parent| && Holders(c.members, id) == Chain(c.parent, k);
        ChainOfPrefix(c.parent, [TopOf(c.stack)], k);
      }
    }
  }

  lemma EndInv(c: Chart)
    requires Inv(c)
    ensures Inv(Step(c, End).value)
  {
    var c' := Step(c, End).value;
    assert Shape(c');
    forall id: Id
      ensures HeldByChain(c', id)
    {
      assert HeldByChain(c, id);
    }
  }

  lemma StepInv(c: Chart, s: Stmt)
    requires Inv(c) && Step(c, s).Ok?
    ensures Inv(Step(c, s).value)
  {
    hide Inv;
    match s
    case OpenSubgraph => OpenInv(c);
    case End => EndInv(c);
    case Links(links, _) => AddLinksInv(c, links);
    case NodeOnly(id) => AddNodeInv(c, id);
    case _ =>
  }

  /** At every point of every run, with stray and missing `end` alike. */
  lemma {:induction false} RunInv(stmts: seq<Stmt>)
    requires Run(stmts).Ok?
    ensures Inv(Run(stmts).value)
  {
    hide Inv;
    if stmts == [] {
      EmptyInv();
    } else {
      RunInv(stmts[..|stmts| - 1]);
      StepInv(Run(stmts[..|stmts| - 1]).value, stmts[|stmts| - 1]);
    }
  }

  /** Subgraphs that are not nested share no node. */
  lemma UnrelatedAreDisjoint(c: Chart, a: nat, b: nat, id: Id)
    requires Inv(c) && a < |c.members| && b < |c.members| && !Nested(c.parent, a, b)
    ensures !(id in c.members[a] && id in c.members[b])
  {
    if id in c.members[a] && id in c.members[b] {
      assert a in Holders(c.members, id) && b in Holders(c.members, id);
      assert HeldByChain(c, id);
      var k :| 0 <= k < |c.parent| && Holders(c.members, id) == Chain(c.parent, k);
      ChainIsNested(c.parent, k, a, b);
    }
  }

  /** A subgraph's nodes are nodes of the subgraph it is nested in. */
  lemma ChildWithinParent(c: Chart, k: nat, id: Id)
    requires Inv(c) && k < |c.members| && c.parent[k].Some? && id in c.members[k]
    ensures id in c.members[c.parent[k].value]
  {
    assert k in Holders(c.members, id);
    assert HeldByChain(c, id);
    var top :| 0 <= top < |c.parent| && Holders(c.members, id) == Chain(c.parent, top);
    ChainIsClosed(c.parent, top, k);
    assert c.parent[k].value in Chain(c.parent, c.parent[k].value);
    assert c.parent[k].value in Holders(c.members, id);
  }

  /** Every finished or partial run yields subgraphs that are disjoint unless nested. */
  lemma SubgraphsOfRun(stmts: seq<Stmt>, a: nat, b: nat, id: Id)
    requires Run(stmts).Ok? && a < b < |Run(stmts).value.members|
    ensures var c := Run(stmts).value;
            && IsForest(c.parent) && |c.parent| == |c.members|
            && (id in c.members[a] && id in c.members[b] ==> a in Chain(c.parent, b))
            && (a in Chain(c.parent, b) && id in c.members[b] ==> id in c.members[a])
  {
    var c := Run(stmts).value;
    RunInv(stmts);
    ChainDescends(c.parent, a);
    if id in c.members[b] {
      assert b in Holders(c.members, id);
      assert HeldByChain(c, id);
      var top :| 0 <= top < |c.parent| && Holders(c.members, id) == Chain(c.parent, top);
      ChainIsClosed(c.parent, top, b);
      if id in c.members[a] {
        assert a in Holders(c.members, id);
        ChainIsNested(c.parent, top, a, b);
      } else {
        assert a !in Holders(c.members, id);
      }
    }
  }

  lemma {:induction false} ChainDescends(parent: seq<Option<nat>>, k: nat)
    requires IsForest(parent) && k < |parent|
    ensures forall j :: j in Chain(parent, k) ==> j <= k
  {
    if parent[k].Some? {
      ChainDescends(parent, parent[k].value);
    }
  }

  // ---- the parser ----

  class FlowchartParser {
    var nodes: set<Id>
    var edges: seq<Edge>
    var subgraphs: seq<seq<Id>>
    var stack: seq<nat>
    /** Which subgraph each one was opened in; the parser itself does not keep it. */
    ghost var parent: seq<Option<nat>>

    ghost function Contents(): Chart
      reads this
    {
      Chart(nodes, edges, subgraphs, stack, parent)
    }

    ghost predicate Valid()
      reads this
    {
      Inv(Contents())
    }

    constructor ()
      ensures Valid() && Contents() == EMPTY
    {
      nodes, edges, subgraphs, stack, parent := {}, [], [], [], [];
      new;
      EmptyInv();
    }

    method AddNodeToSubgraphs(id: Id)
      requires Valid()
      modifies this`subgraphs
      ensures subgraphs == AddNode(old(Contents()), id).members
    {
      StackIsChain(stack, parent);
      if stack == [] {
        return;
      }
      var claimed := exists k :: 0 <= k < |subgraphs| && k !in stack && id in subgraphs[k];
      if claimed {
        return;
      }
      JoinAllIsJoined(Contents(), id);
      hide Inv, Joined, ClaimedElsewhere;
      ghost var was := subgraphs;
      for i := 0 to |stack|
        invariant |subgraphs| == |was| && subgraphs == JoinAll(was, stack[..i], id)
      {
        assert stack[..i + 1][..i] == stack[..i];
        var idx := stack[i];
        if idx < |subgraphs| && id !in subgraphs[idx] {
          subgraphs := subgraphs[idx := subgraphs[idx] + [id]];
        }
      }
      assert stack[..|stack|] == stack;
    }

    method EnsureNode(id: Id)
      requires Valid()
      modifies this`nodes, this`subgraphs
      ensures Valid() && Contents() == AddNode(old(Contents()), id)
    {
      AddNodeInv(Contents(), id);
      AddNodeToSubgraphs(id);
      nodes := nodes + {id};
    }

    method EnsureNodes(ids: seq<Id>)
      requires Valid()
      modifies this`nodes, this`subgraphs
      ensures Valid() && Contents() == AddNodes(old(Contents()), ids)
    {
      hide Inv;
      for i := 0 to |ids|
        invariant Valid() && Contents() == AddNodes(old(Contents()), ids[..i])
      {
        assert ids[..i + 1][..i] == ids[..i];
        EnsureNode(ids[i]);
      }
      assert ids[..|ids|] == ids;
    }

    method AddFlowchartEdge(link: Link)
      requires Valid()
      modifies this`nodes, this`subgraphs, this`edges
      ensures Valid() && Contents() == AddLink(old(Contents()), link)
    {
      hide Inv;
      AddLinkInv(Contents(), link);
      EnsureNodes(link.sources);
      EnsureNodes(link.targets);
      AddPairs(link.sources, link.targets);
    }

    method AddPairs(sources: seq<Id>, targets: seq<Id>)
      modifies this`edges
      ensures edges == old(edges) + Pairs(sources, targets)
    {
      for i := 0 to |sources|
        invariant edges == old(edges) + Pairs(sources[..i], targets)
      {
        assert sources[..i + 1][..i] == sources[..i];
        ghost var before := edges;
        var s := sources[i];
        for j := 0 to |targets|
          invariant edges == before + seq(j, k requires 0 <= k < j => Edge(s, targets[k]))
        {
          edges := edges + [Edge(s, targets[j])];
        }
      }
      assert sources[..|sources|] == sources;
    }

    /** Take one statement; `false` ends the parse with an error. */
    method Feed(s: Stmt) returns (ok: bool)
      requires Valid()
      modifies this
      ensures ok <==> Step(old(Contents()), s).Ok?
      ensures ok ==> Valid() && Contents() == Step(old(Contents()), s).value
    {
      hide Inv;
      ok := true;
      match s {
        case OpenSubgraph =>
          OpenInv(Contents());
          parent := parent + [TopOf(stack)];
          subgraphs := subgraphs + [[]];
          stack := stack + [|subgraphs| - 1];
        case End =>
          EndInv(Contents());
          if stack != [] {
            stack := stack[..|stack| - 1];
          }
        case Links(links, broken) =>
          for i := 0 to |links|
            invariant Valid() && Contents() == AddLinks(old(Contents()), links[..i])
          {
            assert links[..i + 1][..i] == links[..i];
            AddFlowchartEdge(links[i]);
          }
          assert links[..|links|] == links;
          ok := !broken;
        case NodeOnly(id) =>
          EnsureNode(id);
        case Invalid =>
          ok := false;
        case Other =>
      }
    }
  }

  method ParseFlowchart(stmts: seq<Stmt>) returns (r: Result<Chart>)
    ensures r.Ok? <==> Run(stmts).Ok?
    ensures r.Ok? ==> r.value.members == Run(stmts).value.members && r.value.nodes == Run(stmts).value.nodes
                      && r.value.edges == Run(stmts).value.edges
  {
    hide Inv;
    var parser := new FlowchartParser();
    for i := 0 to |stmts|
      invariant fresh(parser) && parser.Valid() && Run(stmts[..i]) == Ok(parser.Contents())
    {
      assert stmts[..i + 1][..i] == stmts[..i];
      var ok := parser.Feed(stmts[i]);
      if !ok {
        RunFails(stmts, i + 1);
        return Err;
      }
    }
    assert stmts[..|stmts|] == stmts;
    return Ok(Chart(parser.nodes, parser.edges, parser.subgraphs, [], []));
  }

  lemma {:induction false} RunFails(stmts: seq<Stmt>, i: nat)
    requires i <= |stmts| && Run(stmts[..i]).Err?
    ensures Run(stmts).Err?
    decreases |stmts| - i
  {
    if i < |stmts| {
      assert stmts[..i + 1][..i] == stmts[..i];
      RunFails(stmts, i + 1);
    } else {
      assert stmts[..i] == stmts;
    }
  }
}
