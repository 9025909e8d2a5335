/**
 fetchViaGraph: turning the server's reply into the nodes and links the viewer draws.
 */
module ViewerGraph {
  import opened Wrappers
  import Reachability

  type Id = Reachability.Id

  datatype Node = Node(id: Id, title: string, status: string, issueType: string, assignee: string,
                       placeholder: bool, blocked: bool)

  type Link = Reachability.Link

  datatype ServerNode = ServerNode(id: Id, title: string, status: string, issueType: string,
                                   assignee: string, blockedBy: seq<Id>)

  datatype ServerEdge = ServerEdge(source: Id, target: Id, typ: string)

  datatype Graph = Graph(nodes: seq<Node>, links: seq<Link>)

  /** Types that are drawn only when some link touches them. */
  const LINKED_ONLY := {"decision", "gate", "molecule"}

  function Import(n: ServerNode): Node {
    Node(n.id, n.title, n.status, n.issueType, n.assignee, false, n.blockedBy != [])
  }

  function Ids(nodes: seq<Node>): set<Id> {
    set n | n in nodes :: n.id
  }

  ghost predicate DistinctIds(nodes: seq<Node>) {
    forall i, j :: 0 <= i < j < |nodes| ==> nodes[i].id != nodes[j].id
  }

  // ----- server edges

  /** The type recorded for each id; the last node listed wins, as in an object built from entries. */
  function Types(nodes: seq<Node>): (types: map<Id, string>)
    ensures types.Keys == Ids(nodes)
  {
    if nodes == [] then map[]
    else
      var front, last := nodes[..|nodes| - 1], nodes[|nodes| - 1];
      assert nodes == front + [last];
      Types(front)[last.id := last.issueType]
  }

  /** An untyped edge blocks, and blocking an epic is drawn as belonging to it. */
  function DepType(types: map<Id, string>, e: ServerEdge): string {
    var t := if e.typ == "" then "blocks" else e.typ;
    if t == "blocks" && e.target in types && types[e.target] == "epic" then "parent-child" else t
  }

  function Ghost(id: Id): Node {
    Node(id, id, "open", "epic", "", true, false)
  }

  /** The effect of one server edge. */
  function EdgeStep(g: Graph, e: ServerEdge): Graph {
    var types := Types(g.nodes);
    var hasSource, hasTarget := e.source in types, e.target in types;
    var t := DepType(types, e);
    if hasSource && hasTarget then g.(links := g.links + [Reachability.Link(e.source, e.target, t)])
    else if t == "parent-child" && (hasSource || hasTarget) then
      Graph(g.nodes + [Ghost(if hasSource then e.target else e.source)],
            g.links + [Reachability.Link(e.source, e.target, "parent-child")])
    else g
  }

  function AddEdges(g: Graph, edges: seq<ServerEdge>): Graph {
    if edges == [] then g else EdgeStep(AddEdges(g, edges[..|edges| - 1]), edges[|edges| - 1])
  }

  method AddOneEdge(all: seq<Node>, links: seq<Link>, nodeTypes: map<Id, string>, e: ServerEdge)
      returns (all': seq<Node>, links': seq<Link>, nodeTypes': map<Id, string>)
    requires nodeTypes == Types(all)
    ensures Graph(all', links') == EdgeStep(Graph(all, links), e)
    ensures nodeTypes' == Types(all')
  {
    all', links', nodeTypes' := all, links, nodeTypes;
    var hasSource, hasTarget := e.source in nodeTypes, e.target in nodeTypes;
    var depType := if e.typ == "" then "blocks" else e.typ;
    if depType == "blocks" && hasTarget && nodeTypes[e.target] == "epic" {
      depType := "parent-child";
    }
    if hasSource && hasTarget {
      links' := links + [Reachability.Link(e.source, e.target, depType)];
    } else if depType == "parent-child" && (hasSource || hasTarget) {
      var missing := if hasSource then e.target else e.source;
      TypesAppend(all, Ghost(missing));
      if missing !in nodeTypes {
        all' := all + [Ghost(missing)];
        nodeTypes' := nodeTypes[missing := "epic"];
      }
      links' := links + [Reachability.Link(e.source, e.target, "parent-child")];
    }
  }

  method AddServerEdges(nodes: seq<Node>, edges: seq<ServerEdge>) returns (g: Graph)
    ensures g == AddEdges(Graph(nodes, []), edges)
  {
    var all, links := nodes, [];
    var nodeTypes := Types(nodes);
    for i := 0 to |edges|
      invariant Graph(all, links) == AddEdges(Graph(nodes, []), edges[..i])
      invariant nodeTypes == Types(all)
    {
      assert edges[..i + 1][..i] == edges[..i];
      all, links, nodeTypes := AddOneEdge(all, links, nodeTypes, edges[i]);
    }
    assert edges[..|edges|] == edges;
    g := Graph(all, links);
  }

  lemma TypesAppend(nodes: seq<Node>, n: Node)
    ensures Types(nodes + [n]) == Types(nodes)[n.id := n.issueType]
  {
    assert (nodes + [n])[..|nodes|] == nodes;
  }

  lemma IdsAppend(nodes: seq<Node>, n: Node)
    ensures Ids(nodes + [n]) == Ids(nodes) + {n.id}
  {
    assert n in nodes + [n];
  }

  // ----- agents

  function AgentId(name: string): Id {
    "agent:" + name
  }

  function AgentNode(name: string): Node {
    Node(AgentId(name), name, "active", "agent", "", false, false)
  }

  predicate Working(n: Node) {
    n.assignee != "" && n.status == "in_progress"
  }

  function AgentLink(n: Node): Link {
    Reachability.Link(AgentId(n.assignee), n.id, "assigned_to")
  }

  /** The links with one assigned_to link for each working node that lacks it. */
  function AgentLinks(nodes: seq<Node>, links: seq<Link>): seq<Link> {
    if nodes == [] then links
    else
      var so, n := AgentLinks(nodes[..|nodes| - 1], links), nodes[|nodes| - 1];
      if Working(n) && AgentLink(n) !in so then so + [AgentLink(n)] else so
  }

  /** The assignees of working nodes, each once, in order of first appearance. */
  function AgentNames(nodes: seq<Node>): seq<string> {
    if nodes == [] then []
    else
      var so, n := AgentNames(nodes[..|nodes| - 1]), nodes[|nodes| - 1];
      if Working(n) && n.assignee !in so then so + [n.assignee] else so
  }

  method LinkAgents(nodes: seq<Node>, links: seq<Link>) returns (links': seq<Link>, agents: seq<string>)
    ensures links' == AgentLinks(nodes, links) && agents == AgentNames(nodes)
  {
    links', agents := links, [];
    for i := 0 to |nodes|
      invariant links' == AgentLinks(nodes[..i], links) && agents == AgentNames(nodes[..i])
    {
      var n := nodes[i];
      assert nodes[..i + 1][..i] == nodes[..i];
      if n.assignee != "" && n.status == "in_progress" {
        var agentId := "agent:" + n.assignee;
        if n.assignee !in agents {
          agents := agents + [n.assignee];
        }
        var edgeExists := exists l <- links' :: l.source == agentId && l.target == n.id && l.depType == "assigned_to";
        assert edgeExists <==> Reachability.Link(agentId, n.id, "assigned_to") in links';
        if !edgeExists {
          links' := links' + [Reachability.Link(agentId, n.id, "assigned_to")];
        }
      }
    }
    assert nodes[..|nodes|] == nodes;
  }

  /** The nodes plus a synthesized agent for every name whose id nobody holds. */
  function WithAgents(nodes: seq<Node>, names: seq<string>): seq<Node> {
    if names == [] then nodes
    else
      var so, name := WithAgents(nodes, names[..|names| - 1]), names[|names| - 1];
      if AgentId(name) in Ids(so) then so else so + [AgentNode(name)]
  }

  method AddAgentNodes(nodes: seq<Node>, agents: seq<string>) returns (nodes': seq<Node>)
    ensures nodes' == WithAgents(nodes, agents)
  {
    nodes' := nodes;
    var nodeIds := Ids(nodes);
    for i := 0 to |agents|
      invariant nodes' == WithAgents(nodes, agents[..i]) && nodeIds == Ids(nodes')
    {
      assert agents[..i + 1][..i] == agents[..i];
      var agentNode := AgentNode(agents[i]);
      if agentNode.id !in nodeIds {
        IdsAppend(nodes', agentNode);
        nodes' := nodes' + [agentNode];
        nodeIds := nodeIds + {agentNode.id};
      }
    }
    assert agents[..|agents|] == agents;
  }

  // ----- dropping what is not connected

  function Connected(links: seq<Link>): set<Id> {
    (set l | l in links :: l.source) + (set l | l in links :: l.target)
  }

  predicate Shown(n: Node, connected: set<Id>) {
    n.issueType !in LINKED_ONLY || n.id in connected
  }

  function KeepShown(nodes: seq<Node>, connected: set<Id>): seq<Node> {
    if nodes == [] then []
    else KeepShown(nodes[..|nodes| - 1], connected) +
         (if Shown(nodes[|nodes| - 1], connected) then [nodes[|nodes| - 1]] else [])
  }

  method DropUnlinked(nodes: seq<Node>, links: seq<Link>) returns (nodes': seq<Node>)
    ensures nodes' == KeepShown(nodes, Connected(links))
  {
    var connected := {};
    for i := 0 to |links|
      invariant connected == Connected(links[..i])
    {
      assert links[..i + 1] == links[..i] + [links[i]];
      connected := connected + {links[i].source, links[i].target};
    }
    assert links[..|links|] == links;
    nodes' := [];
    for i := 0 to |nodes|
      invariant nodes' == KeepShown(nodes[..i], connected)
    {
      assert nodes[..i + 1][..i] == nodes[..i];
      if nodes[i].issueType !in LINKED_ONLY || nodes[i].id in connected {
        nodes' := nodes' + [nodes[i]];
      }
    }
    assert nodes[..|nodes|] == nodes;
  }

  // ----- the whole construction

  function Imported(nodes: seq<ServerNode>): (r: seq<Node>)
    ensures |r| == |nodes| && forall i :: 0 <= i < |nodes| ==> r[i] == Import(nodes[i])
  {
    seq(|nodes|, i requires 0 <= i < |nodes| => Import(nodes[i]))
  }

  function BuildGraph(nodes: seq<ServerNode>, edges: seq<ServerEdge>): Graph {
    var g := AddEdges(Graph(Imported(nodes), []), edges);
    var links := AgentLinks(g.nodes, g.links);
    Graph(KeepShown(WithAgents(g.nodes, AgentNames(g.nodes)), Connected(links)), links)
  }

  method FetchViaGraph(nodes: seq<ServerNode>, edges: seq<ServerEdge>) returns (g: Graph)
    ensures g == BuildGraph(nodes, edges)
  {
    var step := AddServerEdges(Imported(nodes), edges);
    var links, agents := LinkAgents(step.nodes, step.links);
    var all := AddAgentNodes(step.nodes, agents);
    all := DropUnlinked(all, links);
    g := Graph(all, links);
  }

  // ----- what the stages keep

  ghost predicate EndpointsKnown(links: seq<Link>, ids: set<Id>) {
    forall l <- links :: l.source in ids && l.target in ids
  }

  lemma AppendKeepsDistinct(nodes: seq<Node>, n: Node)
    requires DistinctIds(nodes) && n.id !in Ids(nodes)
    ensures DistinctIds(nodes + [n]) && Ids(nodes + [n]) == Ids(nodes) + {n.id}
  {
    IdsAppend(nodes, n);
    assert forall i | 0 <= i < |nodes| :: nodes[i].id in Ids(nodes);
  }

  lemma EdgeStepSound(g: Graph, e: ServerEdge)
    requires DistinctIds(g.nodes) && EndpointsKnown(g.links, Ids(g.nodes))
    ensures var g' := EdgeStep(g, e);
      DistinctIds(g'.nodes) && EndpointsKnown(g'.links, Ids(g'.nodes)) && g.nodes <= g'.nodes
  {
    hide DistinctIds, Ids;
    var missing := if e.source in Types(g.nodes) then e.target else e.source;
    if missing !in Ids(g.nodes) {
      AppendKeepsDistinct(g.nodes, Ghost(missing));
    }
  }

  lemma {:induction false} EdgesSound(nodes: seq<Node>, edges: seq<ServerEdge>)
    requires DistinctIds(nodes)
    ensures var g := AddEdges(Graph(nodes, []), edges);
      DistinctIds(g.nodes) && EndpointsKnown(g.links, Ids(g.nodes)) && nodes <= g.nodes
  {
    if edges != [] {
      EdgesSound(nodes, edges[..|edges| - 1]);
      EdgeStepSound(AddEdges(Graph(nodes, []), edges[..|edges| - 1]), edges[|edges| - 1]);
    }
  }

  lemma {:induction false} AgentLinksSound(nodes: seq<Node>, links: seq<Link>)
    ensures links <= AgentLinks(nodes, links)
    ensures forall n <- nodes :: Working(n) ==> AgentLink(n) in AgentLinks(nodes, links)
    ensures forall l <- AgentLinks(nodes, links) ::
              l in links || exists n <- nodes :: Working(n) && l == AgentLink(n)
  {
    if nodes != [] {
      var front, n := nodes[..|nodes| - 1], nodes[|nodes| - 1];
      AgentLinksSound(front, links);
      assert nodes == front + [n];
      assert forall l <- AgentLinks(nodes, links) :: l in AgentLinks(front, links) || (Working(n) && l == AgentLink(n));
      assert forall k <- front :: k in nodes;
    }
  }

  lemma {:induction false} AgentNamesSound(nodes: seq<Node>)
    ensures forall name :: name in AgentNames(nodes) <==> exists n <- nodes :: Working(n) && n.assignee == name
  {
    if nodes != [] {
      var front, n := nodes[..|nodes| - 1], nodes[|nodes| - 1];
      AgentNamesSound(front);
      assert nodes == front + [n];
      forall name
        ensures name in AgentNames(nodes) <==> name in AgentNames(front) || (Working(n) && n.assignee == name)
      {
      }
    }
  }

  lemma {:induction false} WithAgentsSound(nodes: seq<Node>, names: seq<string>)
    requires DistinctIds(nodes)
    ensures DistinctIds(WithAgents(nodes, names)) && nodes <= WithAgents(nodes, names)
    ensures Ids(nodes) <= Ids(WithAgents(nodes, names))
    ensures forall name <- names :: AgentId(name) in Ids(WithAgents(nodes, names))
    ensures forall n <- WithAgents(nodes, names) ::
              n in nodes || (exists name <- names :: n == AgentNode(name) && AgentId(name) !in Ids(nodes))
  {
    hide DistinctIds, Ids;
    if names != [] {
      var front, name := names[..|names| - 1], names[|names| - 1];
      WithAgentsSound(nodes, front);
      var so := WithAgents(nodes, front);
      assert names == front + [name];
      if AgentId(name) !in Ids(so) {
        AppendKeepsDistinct(so, AgentNode(name));
      }
      forall n | n in WithAgents(nodes, names) && n !in nodes
        ensures exists k <- names :: n == AgentNode(k) && AgentId(k) !in Ids(nodes)
      {
        if n in so {
          var k :| k in front && n == AgentNode(k) && AgentId(k) !in Ids(nodes);
          assert k in names;
        } else {
          assert name in names;
        }
      }
    }
  }

  lemma {:induction false} KeepShownSound(nodes: seq<Node>, connected: set<Id>)
    ensures forall n :: n in KeepShown(nodes, connected) <==> n in nodes && Shown(n, connected)
    ensures DistinctIds(nodes) ==> DistinctIds(KeepShown(nodes, connected))
  {
    if nodes != [] {
      var front, n := nodes[..|nodes| - 1], nodes[|nodes| - 1];
      KeepShownSound(front, connected);
      assert nodes == front + [n];
      var kept := KeepShown(front, connected);
      forall i | DistinctIds(nodes) && 0 <= i < |kept|
        ensures kept[i].id != n.id
      {
        assert kept[i] in kept && kept[i] in front;
        var j :| 0 <= j < |front| && front[j] == kept[i];
        assert nodes[j] == front[j];
      }
    }
  }

  ghost predicate DistinctServerIds(nodes: seq<ServerNode>) {
    forall i, j :: 0 <= i < j < |nodes| ==> nodes[i].id != nodes[j].id
  }

  /** All nodes before the linked-only filter, and what is known of them. */
  lemma AllNodesSound(nodes: seq<ServerNode>, edges: seq<ServerEdge>)
      returns (g: Graph, all: seq<Node>, links: seq<Link>)
    requires DistinctServerIds(nodes)
    ensures g == AddEdges(Graph(Imported(nodes), []), edges)
    ensures links == AgentLinks(g.nodes, g.links) && all == WithAgents(g.nodes, AgentNames(g.nodes))
    ensures BuildGraph(nodes, edges) == Graph(KeepShown(all, Connected(links)), links)
    ensures DistinctIds(g.nodes) && DistinctIds(all) && Imported(nodes) <= g.nodes <= all
    ensures EndpointsKnown(links, Ids(all))
    ensures forall n <- all :: Working(n) ==> n in g.nodes
  {
    g := AddEdges(Graph(Imported(nodes), []), edges);
    links := AgentLinks(g.nodes, g.links);
    var names := AgentNames(g.nodes);
    all := WithAgents(g.nodes, names);
    EdgesSound(Imported(nodes), edges);
    AgentLinksSound(g.nodes, g.links);
    AgentNamesSound(g.nodes);
    WithAgentsSound(g.nodes, names);
    assert forall n <- g.nodes :: n in all;
    forall l | l in links
      ensures l.source in Ids(all) && l.target in Ids(all)
    {
      if l !in g.links {
        var n :| n in g.nodes && Working(n) && l == AgentLink(n);
        assert n.assignee in names;
      }
    }
  }

  /** For any reply with distinct ids: the graph has distinct ids and no dangling link. */
  lemma GraphWellFormed(nodes: seq<ServerNode>, edges: seq<ServerEdge>)
    requires DistinctServerIds(nodes)
    ensures var g := BuildGraph(nodes, edges);
      DistinctIds(g.nodes) && EndpointsKnown(g.links, Ids(g.nodes))
  {
    var step, all, links := AllNodesSound(nodes, edges);
    var kept := KeepShown(all, Connected(links));
    KeepShownSound(all, Connected(links));
    forall l | l in links
      ensures l.source in Ids(kept) && l.target in Ids(kept)
    {
      assert l.source in Connected(links) && l.target in Connected(links);
      var s :| s in all && s.id == l.source;
      var t :| t in all && t.id == l.target;
      assert s in kept && t in kept;
    }
  }

  /** Every in-progress assigned node has its assigned_to link, from a node that is present. */
  lemma WorkersAreLinked(nodes: seq<ServerNode>, edges: seq<ServerEdge>, n: Node)
    requires DistinctServerIds(nodes)
    requires n in BuildGraph(nodes, edges).nodes && Working(n)
    ensures var g := BuildGraph(nodes, edges);
      AgentLink(n) in g.links && AgentId(n.assignee) in Ids(g.nodes)
  {
    var step, all, links := AllNodesSound(nodes, edges);
    KeepShownSound(all, Connected(links));
    AgentLinksSound(step.nodes, step.links);
    GraphWellFormed(nodes, edges);
  }

  // ----- when that node is an agent

  ghost predicate HasAgent(g: Graph, id: Id) {
    exists a <- g.nodes :: a.id == id && a.issueType == "agent"
  }

  /**
   The type under which an id is known once the edges are drawn: its type in the reply, "epic" for a
   ghost, None when there is no node of that id. Only an edge whose other end is already known makes a
   ghost, and only if it is a parent-child edge or blocks an epic, ghosts included.
   */
  function KnownAs(types: map<Id, string>, edges: seq<ServerEdge>, id: Id): Option<string> {
    if id in types then Some(types[id])
    else if edges == [] then None
    else
      var front, e := edges[..|edges| - 1], edges[|edges| - 1];
      if KnownAs(types, front, id).Some? then Some("epic")
      else if (e.source == id) == (e.target == id) then None
      else
        var other := KnownAs(types, front, if e.source == id then e.target else e.source);
        var t := if e.typ == "" then "blocks" else e.typ;
        if other.Some? && (t == "parent-child" || (t == "blocks" && e.source == id && other.value == "epic"))
        then Some("epic") else None
  }

  function TypeIn(types: map<Id, string>, id: Id): Option<string> {
    if id in types then Some(types[id]) else None
  }

  lemma TypesAfterStep(g: Graph, e: ServerEdge, id: Id)
    ensures var types, after := Types(g.nodes), Types(EdgeStep(g, e).nodes);
      var known, t := TypeIn(types, id), if e.typ == "" then "blocks" else e.typ;
      var other := TypeIn(types, if e.source == id then e.target else e.source);
      TypeIn(after, id) ==
        if known.Some? then known
        else if (e.source == id) == (e.target == id) || other.None? then None
        else if t == "parent-child" || (t == "blocks" && e.source == id && other.value == "epic") then Some("epic")
        else None
  {
    TypesAppend(g.nodes, Ghost(if e.source in Types(g.nodes) then e.target else e.source));
    hide Types;
  }

  lemma {:induction false} KnownAsExactly(nodes: seq<Node>, edges: seq<ServerEdge>, id: Id)
    ensures TypeIn(Types(AddEdges(Graph(nodes, []), edges).nodes), id) == KnownAs(Types(nodes), edges, id)
  {
    if edges != [] {
      var front, e := edges[..|edges| - 1], edges[|edges| - 1];
      KnownAsExactly(nodes, front, id);
      KnownAsExactly(nodes, front, if e.source == id then e.target else e.source);
      TypesAfterStep(AddEdges(Graph(nodes, []), front), e, id);
      GhostsAreEpics(Types(nodes), front, id);
      hide Types, EdgeStep;
    }
  }

  lemma {:induction false} GhostsAreEpics(types: map<Id, string>, edges: seq<ServerEdge>, id: Id)
    ensures id !in types && KnownAs(types, edges, id).Some? ==> KnownAs(types, edges, id) == Some("epic")
  {
  }

  lemma {:induction false} TypeOfNode(nodes: seq<Node>, n: Node)
    requires DistinctIds(nodes) && n in nodes
    ensures TypeIn(Types(nodes), n.id) == Some(n.issueType)
  {
    var front, last := nodes[..|nodes| - 1], nodes[|nodes| - 1];
    if n != last {
      assert nodes == front + [last];
      TypeOfNode(front, n);
      var i :| 0 <= i < |front| && front[i] == n;
      assert nodes[i].id != last.id;
    }
  }

  /** The agent node of a working node's assignee is there iff nothing else got hold of its id. */
  lemma AgentPresentIff(nodes: seq<ServerNode>, edges: seq<ServerEdge>, n: Node)
    requires DistinctServerIds(nodes)
    requires n in BuildGraph(nodes, edges).nodes && Working(n)
    ensures HasAgent(BuildGraph(nodes, edges), AgentId(n.assignee)) <==>
            KnownAs(Types(Imported(nodes)), edges, AgentId(n.assignee)) in {None, Some("agent")}
  {
    var id := AgentId(n.assignee);
    var early, all, connected := BeforeFilter(nodes, edges, n);
    FilterKeepsAgents(all, connected, id);
    KnownAsExactly(Imported(nodes), edges, id);
    hide BuildGraph, Types, KnownAs, DistinctIds, AddEdges, KeepShown, HasAgent, Ids;
    if TypeIn(Types(early), id).None? {
      HolderOfFreeId(all, early, n.assignee);
    } else {
      HolderOfTakenId(all, early, id);
    }
  }

  /** The nodes after the edge loop and after the agents, and what holds the id of `n`'s agent. */
  lemma BeforeFilter(nodes: seq<ServerNode>, edges: seq<ServerEdge>, n: Node)
      returns (early: seq<Node>, all: seq<Node>, connected: set<Id>)
    requires DistinctServerIds(nodes) && n in BuildGraph(nodes, edges).nodes && Working(n)
    ensures early == AddEdges(Graph(Imported(nodes), []), edges).nodes
    ensures BuildGraph(nodes, edges).nodes == KeepShown(all, connected)
    ensures DistinctIds(early) && DistinctIds(all) && early <= all
    ensures AgentId(n.assignee) in Ids(all)
    ensures forall k <- all :: k in early || exists name: string :: k == AgentNode(name)
  {
    var step, so, links := AllNodesSound(nodes, edges);
    early, all, connected := step.nodes, so, Connected(links);
    hide AddEdges, BuildGraph, DistinctIds, Ids, Connected;
    KeepShownSound(all, connected);
    AgentNamesSound(early);
    WithAgentsSound(early, AgentNames(early));
    assert n in early && n.assignee in AgentNames(early);
  }

  lemma FilterKeepsAgents(all: seq<Node>, connected: set<Id>, id: Id)
    ensures forall links :: HasAgent(Graph(KeepShown(all, connected), links), id) <==> HasAgent(Graph(all, []), id)
  {
    KeepShownSound(all, connected);
    hide KeepShown;
    assert "agent" !in LINKED_ONLY;
    if a :| a in all && a.id == id && a.issueType == "agent" {
      assert a in KeepShown(all, connected);
    }
  }

  lemma HolderOfFreeId(all: seq<Node>, early: seq<Node>, name: string)
    requires AgentId(name) in Ids(all) && TypeIn(Types(early), AgentId(name)).None?
    requires forall n <- all :: n in early || exists k: string :: n == AgentNode(k)
    ensures HasAgent(Graph(all, []), AgentId(name))
  {
    forall k | k in early
      ensures k.id != AgentId(name)
    {
      assert k.id in Ids(early);
    }
    var a :| a in all && a.id == AgentId(name);
  }

  lemma HolderOfTakenId(all: seq<Node>, early: seq<Node>, id: Id)
    requires DistinctIds(all) && DistinctIds(early) && early <= all && TypeIn(Types(early), id).Some?
    ensures HasAgent(Graph(all, []), id) <==> TypeIn(Types(early), id) == Some("agent")
  {
    var k :| k in early && k.id == id;
    TypeOfNode(early, k);
    assert k in all;
    forall a | a in all && a.id == id
      ensures a == k
    {
      var i :| 0 <= i < |all| && all[i] == a;
      var j :| 0 <= j < |all| && all[j] == k;
    }
  }

  lemma {:induction false} UnmentionedIsUnknown(types: map<Id, string>, edges: seq<ServerEdge>, id: Id)
    requires id !in types && forall e <- edges :: e.source != id && e.target != id
    ensures KnownAs(types, edges, id) == None
  {
    if edges != [] {
      assert edges[|edges| - 1] in edges;
      UnmentionedIsUnknown(types, edges[..|edges| - 1], id);
    }
  }

  /** In particular it is there when the reply does not mention the agent's id. */
  lemma AgentPresentWhenUnmentioned(nodes: seq<ServerNode>, edges: seq<ServerEdge>, n: Node)
    requires DistinctServerIds(nodes)
    requires n in BuildGraph(nodes, edges).nodes && Working(n)
    requires AgentId(n.assignee) !in Ids(Imported(nodes))
    requires forall e <- edges :: e.source != AgentId(n.assignee) && e.target != AgentId(n.assignee)
    ensures HasAgent(BuildGraph(nodes, edges), AgentId(n.assignee))
  {
    AgentPresentIff(nodes, edges, n);
    UnmentionedIsUnknown(Types(Imported(nodes)), edges, AgentId(n.assignee));
  }

  /** A parent-child edge from the agent's id makes a ghost of it: the worker's link then leaves an epic. */
  lemma GhostHoldsAgentId()
    ensures var nodes, edges :=
        [ServerNode("w", "W", "in_progress", "task", "bob", [])], [ServerEdge("agent:bob", "w", "parent-child")];
      var n := Import(nodes[0]);
      n in BuildGraph(nodes, edges).nodes && Working(n) && !HasAgent(BuildGraph(nodes, edges), AgentId("bob"))
  {
    var w, e := ServerNode("w", "W", "in_progress", "task", "bob", []), ServerEdge("agent:bob", "w", "parent-child");
    var nodes, edges := [w], [e];
    assert nodes[0] in nodes;
    assert Working(Import(w)) && AgentId("bob") == "agent:bob";
    TypesOfOne(w);
    FirstEdgeMakesGhost(map["w" := "task"], e);
    hide BuildGraph, Types, KnownAs, HasAgent, Imported;
    WorkersStay(nodes, edges, w);
    AgentPresentIff(nodes, edges, Import(w));
  }

  lemma TypesOfOne(w: ServerNode)
    ensures Types(Imported([w])) == map[w.id := w.issueType]
  {
    assert Imported([w]) == [Import(w)] && [Import(w)][..0] == [];
  }

  lemma FirstEdgeMakesGhost(types: map<Id, string>, e: ServerEdge)
    requires e.source !in types && e.target in types && e.typ == "parent-child"
    ensures KnownAs(types, [e], e.source) == Some("epic")
  {
    assert [e][..0] == [];
    assert KnownAs(types, [], e.source) == None;
  }

  /** Working nodes are never hidden, so a reply loses none of them. */
  lemma WorkersStay(nodes: seq<ServerNode>, edges: seq<ServerEdge>, n: ServerNode)
    requires DistinctServerIds(nodes) && n in nodes
    requires Working(Import(n)) || n.issueType !in LINKED_ONLY
    ensures Import(n) in BuildGraph(nodes, edges).nodes
  {
    var step, all, links := AllNodesSound(nodes, edges);
    KeepShownSound(all, Connected(links));
    AgentLinksSound(step.nodes, step.links);
    var i :| 0 <= i < |nodes| && nodes[i] == n;
    assert step.nodes[i] == Imported(nodes)[i] == Import(n);
    assert all[i] == step.nodes[i] && Import(n) in all;
    if Working(Import(n)) {
      assert AgentLink(Import(n)) in links;
    }
  }

  /**
   `l` is how `e` is drawn: between two ids of the reply its type is the reply's, with a block on an
   epic promoted; at a ghost end the promotion depends on the ghosts already there.
   */
  ghost predicate Draws(types: map<Id, string>, l: Link, e: ServerEdge) {
    && l.source == e.source && l.target == e.target
    && (if e.source in types && e.target in types then l.depType == DepType(types, e)
        else l.depType == "parent-child" || l.depType == if e.typ == "" then "blocks" else e.typ)
  }

  ghost predicate Drawn(types: map<Id, string>, links: seq<Link>, e: ServerEdge) {
    exists l <- links :: Draws(types, l, e)
  }

  ghost predicate FromSomeEdge(types: map<Id, string>, l: Link, edges: seq<ServerEdge>) {
    exists e <- edges :: Draws(types, l, e)
  }

  ghost predicate Touched(edges: seq<ServerEdge>, id: Id) {
    exists e <- edges :: e.source == id || e.target == id
  }

  /** Ghosts never change what the reply said about its own ids. */
  ghost predicate Extends(types: map<Id, string>, nodes: seq<Node>) {
    forall id <- types :: id in Types(nodes) && Types(nodes)[id] == types[id]
  }

  /** What drawing one edge adds. */
  ghost predicate AddsDrawing(types: map<Id, string>, g: Graph, g': Graph, e: ServerEdge) {
      && Extends(types, g'.nodes)
      && g.links <= g'.links && g.nodes <= g'.nodes
      && (forall l <- g'.links[|g.links|..] :: Draws(types, l, e))
      && (e.source in types && e.target in types ==> Drawn(types, g'.links, e))
      && (forall n <- g'.nodes[|g.nodes|..] ::
            n == Ghost(n.id) && n.id !in types && (e.source == n.id || e.target == n.id))
  }

  lemma EdgeStepDraws(types: map<Id, string>, g: Graph, e: ServerEdge)
    requires Extends(types, g.nodes)
    ensures AddsDrawing(types, g, EdgeStep(g, e), e)
  {
    var g' := EdgeStep(g, e);
    TypesAppend(g.nodes, Ghost(if e.source in Types(g.nodes) then e.target else e.source));
    if |g'.links| > |g.links| {
      var l := g'.links[|g.links|];
      assert Draws(types, l, e) && l in g'.links;
    }
  }

  ghost predicate LinksFromEdges(types: map<Id, string>, links: seq<Link>, edges: seq<ServerEdge>) {
    forall l <- links :: FromSomeEdge(types, l, edges)
  }

  ghost predicate InnerEdgesDrawn(types: map<Id, string>, links: seq<Link>, edges: seq<ServerEdge>) {
    forall e <- edges :: e.source in types && e.target in types ==> Drawn(types, links, e)
  }

  ghost predicate GhostsTouched(types: map<Id, string>, extra: seq<Node>, edges: seq<ServerEdge>) {
    forall n <- extra :: n == Ghost(n.id) && n.id !in types && Touched(edges, n.id)
  }

  /** Everything in `g` beyond the given nodes comes from `edges`, and every inner edge is in `g`. */
  ghost predicate DrawsExactly(nodes: seq<Node>, edges: seq<ServerEdge>, g: Graph) {
    var types := Types(nodes);
    && Extends(types, g.nodes) && nodes <= g.nodes
    && LinksFromEdges(types, g.links, edges)
    && InnerEdgesDrawn(types, g.links, edges)
    && GhostsTouched(types, g.nodes[|nodes|..], edges)
  }

  lemma MoreLinks(types: map<Id, string>, links: seq<Link>, links': seq<Link>, edges: seq<ServerEdge>, e: ServerEdge)
    requires LinksFromEdges(types, links, edges) && InnerEdgesDrawn(types, links, edges)
    requires links <= links' && forall l <- links'[|links|..] :: Draws(types, l, e)
    requires e.source in types && e.target in types ==> Drawn(types, links', e)
    ensures LinksFromEdges(types, links', edges + [e]) && InnerEdgesDrawn(types, links', edges + [e])
  {
    assert forall k <- edges :: k in edges + [e];
    assert e in edges + [e];
    forall l | l in links'
      ensures FromSomeEdge(types, l, edges + [e])
    {
      if l in links {
        var k :| k in edges && Draws(types, l, k);
      } else {
        assert l in links'[|links|..];
      }
    }
    forall k | k in edges && k.source in types && k.target in types
      ensures Drawn(types, links', k)
    {
      var l :| l in links && Draws(types, l, k);
      assert l in links';
    }
  }

  lemma MoreGhosts(types: map<Id, string>, extra: seq<Node>, added: seq<Node>, edges: seq<ServerEdge>, e: ServerEdge)
    requires GhostsTouched(types, extra, edges)
    requires forall n <- added :: n == Ghost(n.id) && n.id !in types && (e.source == n.id || e.target == n.id)
    ensures GhostsTouched(types, extra + added, edges + [e])
  {
    assert e in edges + [e];
    forall n | n in extra
      ensures Touched(edges + [e], n.id)
    {
      var k :| k in edges && (k.source == n.id || k.target == n.id);
      assert k in edges + [e];
    }
  }

  lemma OneMoreEdge(nodes: seq<Node>, edges: seq<ServerEdge>, g: Graph, g': Graph, e: ServerEdge)
    requires DrawsExactly(nodes, edges, g) && AddsDrawing(Types(nodes), g, g', e)
    ensures DrawsExactly(nodes, edges + [e], g')
  {
    hide Types, LinksFromEdges, InnerEdgesDrawn, Drawn, Draws, DepType, Touched;
    MoreLinks(Types(nodes), g.links, g'.links, edges, e);
    GhostsAppended(Types(nodes), nodes, g.nodes, g'.nodes, edges, e);
  }

  lemma GhostsAppended(types: map<Id, string>, nodes: seq<Node>, mid: seq<Node>, all: seq<Node>,
                       edges: seq<ServerEdge>, e: ServerEdge)
    requires nodes <= mid <= all && GhostsTouched(types, mid[|nodes|..], edges)
    requires forall n <- all[|mid|..] :: n == Ghost(n.id) && n.id !in types && (e.source == n.id || e.target == n.id)
    ensures GhostsTouched(types, all[|nodes|..], edges + [e])
  {
    MoreGhosts(types, mid[|nodes|..], all[|mid|..], edges, e);
    assert all[|nodes|..] == mid[|nodes|..] + all[|mid|..];
  }

  lemma {:induction false} EdgesExact(nodes: seq<Node>, edges: seq<ServerEdge>)
    ensures DrawsExactly(nodes, edges, AddEdges(Graph(nodes, []), edges))
  {
    hide Types, DepType;
    if edges != [] {
      var front, e := edges[..|edges| - 1], edges[|edges| - 1];
      EdgesExact(nodes, front);
      assert edges == front + [e];
      EdgeStepDraws(Types(nodes), AddEdges(Graph(nodes, []), front), e);
      OneMoreEdge(nodes, front, AddEdges(Graph(nodes, []), front), AddEdges(Graph(nodes, []), edges), e);
    }
  }

  ghost predicate FromSomeWorker(nodes: seq<ServerNode>, l: Link) {
    exists w <- nodes :: Working(Import(w)) && l == AgentLink(Import(w))
  }

  ghost predicate AgentOfWorker(nodes: seq<ServerNode>, n: Node) {
    exists w <- nodes :: Working(Import(w)) && n == AgentNode(w.assignee)
  }

  lemma WorkersComeFromReply(nodes: seq<ServerNode>, edges: seq<ServerEdge>, n: Node) returns (w: ServerNode)
    requires n in AddEdges(Graph(Imported(nodes), []), edges).nodes && Working(n)
    ensures w in nodes && Import(w) == n
  {
    EdgesExact(Imported(nodes), edges);
    hide AddEdges;
    var all := AddEdges(Graph(Imported(nodes), []), edges).nodes;
    w := OwnNode(nodes, all, n);
  }

  lemma OwnNode(nodes: seq<ServerNode>, all: seq<Node>, n: Node) returns (w: ServerNode)
    requires Imported(nodes) <= all && n in all && Working(n)
    requires forall k <- all[|nodes|..] :: k == Ghost(k.id)
    ensures w in nodes && Import(w) == n
  {
    assert all == Imported(nodes) + all[|nodes|..];
    var i :| 0 <= i < |nodes| && Imported(nodes)[i] == n;
    w := nodes[i];
  }

  /** Every link stems from a server edge or a working node, and no edge inside the reply is lost. */
  lemma LinksExact(nodes: seq<ServerNode>, edges: seq<ServerEdge>)
    requires DistinctServerIds(nodes)
    ensures var g, types := BuildGraph(nodes, edges), Types(Imported(nodes));
      && (forall l <- g.links :: FromSomeEdge(types, l, edges) || FromSomeWorker(nodes, l))
      && (forall e <- edges :: e.source in types && e.target in types ==> Drawn(types, g.links, e))
  {
    var step, all, links := AllNodesSound(nodes, edges);
    var types := Types(Imported(nodes));
    EdgesExact(Imported(nodes), edges);
    AgentLinksSound(step.nodes, step.links);
    forall l | l in links
      ensures FromSomeEdge(types, l, edges) || FromSomeWorker(nodes, l)
    {
      if l !in step.links {
        var n :| n in step.nodes && Working(n) && l == AgentLink(n);
        var w := WorkersComeFromReply(nodes, edges, n);
      }
    }
    forall e | e in edges && e.source in types && e.target in types
      ensures Drawn(types, links, e)
    {
      var l :| l in step.links && Draws(types, l, e);
      assert l in links;
    }
  }

  ghost predicate Accounted(nodes: seq<ServerNode>, edges: seq<ServerEdge>, n: Node) {
    n in Imported(nodes) || (n == Ghost(n.id) && Touched(edges, n.id)) || AgentOfWorker(nodes, n)
  }

  /** Every node is the reply's own, the missing end of one of its edges, or a working node's agent. */
  lemma NodesExact(nodes: seq<ServerNode>, edges: seq<ServerEdge>)
    requires DistinctServerIds(nodes)
    ensures forall n <- BuildGraph(nodes, edges).nodes :: Accounted(nodes, edges, n)
  {
    var step, all, links := AllNodesSound(nodes, edges);
    KeepShownSound(all, Connected(links));
    forall n | n in all
      ensures Accounted(nodes, edges, n)
    {
      if n in step.nodes {
        EarlyNodeAccounted(nodes, edges, n);
      } else {
        AgentNodesComeFromWorkers(nodes, edges, n);
      }
    }
  }

  lemma EarlyNodeAccounted(nodes: seq<ServerNode>, edges: seq<ServerEdge>, n: Node)
    requires n in AddEdges(Graph(Imported(nodes), []), edges).nodes
    ensures Accounted(nodes, edges, n)
  {
    EdgesExact(Imported(nodes), edges);
    OwnOrGhost(nodes, AddEdges(Graph(Imported(nodes), []), edges).nodes, edges, n);
  }

  lemma OwnOrGhost(nodes: seq<ServerNode>, all: seq<Node>, edges: seq<ServerEdge>, n: Node)
    requires Imported(nodes) <= all && n in all
    requires forall k <- all[|nodes|..] :: k == Ghost(k.id) && Touched(edges, k.id)
    ensures Accounted(nodes, edges, n)
  {
    assert all == Imported(nodes) + all[|nodes|..];
  }

  lemma AgentNodesComeFromWorkers(nodes: seq<ServerNode>, edges: seq<ServerEdge>, n: Node)
    requires var g := AddEdges(Graph(Imported(nodes), []), edges);
      DistinctIds(g.nodes) && n in WithAgents(g.nodes, AgentNames(g.nodes)) && n !in g.nodes
    ensures AgentOfWorker(nodes, n)
  {
    var all := AddEdges(Graph(Imported(nodes), []), edges).nodes;
    AgentNamesSound(all);
    WithAgentsSound(all, AgentNames(all));
    var name :| name in AgentNames(all) && n == AgentNode(name);
    var k :| k in all && Working(k) && k.assignee == name;
    var w := WorkersComeFromReply(nodes, edges, k);
  }
}
