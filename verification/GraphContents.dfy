/**
 What the viewer's graph consists of, told from the server's reply: every node and every link, and why
 it is there.
 */
module GraphContents {
  import opened Wrappers
  import opened ViewerGraph
  import Reachability

  // ----- nodes

  /** The node is one of the reply's, with its own fields. */
  ghost predicate FromReply(nodes: seq<ServerNode>, n: Node) {
    exists r <- nodes :: n == Node(r.id, r.title, r.status, r.issueType, r.assignee, false, r.blockedBy != [])
  }

  /** Some link starts or ends at the id. */
  ghost predicate InUse(links: seq<Link>, id: Id) {
    exists l <- links :: l.source == id || l.target == id
  }

  /** The id stands in no node of the reply, yet an edge made it known. */
  ghost predicate MissingEnd(nodes: seq<ServerNode>, edges: seq<ServerEdge>, id: Id) {
    (forall r <- nodes :: r.id != id) && KnownAs(Types(Imported(nodes)), edges, id).Some?
  }

  ghost predicate HasWorker(nodes: seq<ServerNode>, name: string) {
    exists r <- nodes :: r.assignee == name != "" && r.status == "in_progress"
  }

  /**
   The nodes are exactly: those of the reply, of which decisions, gates and molecules only if some link
   touches them; an open epic for each missing end; and an active agent for each one at work whose id no
   other node has.
   */
  lemma NodesExactly(nodes: seq<ServerNode>, edges: seq<ServerEdge>, n: Node)
    requires DistinctServerIds(nodes)
    ensures var g := BuildGraph(nodes, edges);
      n in g.nodes <==>
        || (FromReply(nodes, n) && (n.issueType in {"decision", "gate", "molecule"} ==> InUse(g.links, n.id)))
        || (n == Node(n.id, n.id, "open", "epic", "", true, false) && MissingEnd(nodes, edges, n.id))
        || (n == Node("agent:" + n.title, n.title, "active", "agent", "", false, false) && HasWorker(nodes, n.title)
            && KnownAs(Types(Imported(nodes)), edges, n.id).None?)
  {
    var step, all, links := AllNodesSound(nodes, edges);
    KeepShownSound(all, Connected(links));
    EarlyExactly(nodes, edges, n);
    AgentsExactly(nodes, edges, n);
    ShownExactly(n, links);
    hide BuildGraph, Types, KnownAs, Imported, AddEdges, KeepShown, Connected, InUse, Shown, DistinctIds, Ids;
  }

  lemma ShownExactly(n: Node, links: seq<Link>)
    ensures Shown(n, Connected(links)) <==>
            n.issueType !in {"decision", "gate", "molecule"} || InUse(links, n.id)
  {
  }

  /** After the edges: the reply's nodes and the ghosts. */
  lemma EarlyExactly(nodes: seq<ServerNode>, edges: seq<ServerEdge>, n: Node)
    requires DistinctServerIds(nodes)
    ensures n in AddEdges(Graph(Imported(nodes), []), edges).nodes <==>
        || FromReply(nodes, n)
        || (n == Node(n.id, n.id, "open", "epic", "", true, false) && MissingEnd(nodes, edges, n.id))
  {
    var early, types := AddEdges(Graph(Imported(nodes), []), edges).nodes, Types(Imported(nodes));
    EdgesExact(Imported(nodes), edges);
    KnownAsExactly(Imported(nodes), edges, n.id);
    ImportedExactly(nodes, n);
    hide AddEdges, KnownAs, LinksFromEdges, InnerEdgesDrawn, FromReply, Touched, Types;
    var extra := early[|nodes|..];
    assert early == Imported(nodes) + extra;
    if n in early && n !in Imported(nodes) {
      assert n in extra;
      assert n.id in Ids(early);
    }
    if MissingEnd(nodes, edges, n.id) {
      var k :| k in early && k.id == n.id;
      ImportedExactly(nodes, k);
      assert k in extra;
    }
  }

  lemma ImportedExactly(nodes: seq<ServerNode>, n: Node)
    ensures n in Imported(nodes) <==> FromReply(nodes, n)
    ensures n.id in Ids(Imported(nodes)) <==> exists r <- nodes :: r.id == n.id
  {
    forall i | 0 <= i < |nodes|
      ensures nodes[i] in nodes && Imported(nodes)[i] in Imported(nodes)
    {
    }
    if r :| r in nodes && r.id == n.id {
      var i :| 0 <= i < |nodes| && nodes[i] == r;
      assert Imported(nodes)[i].id == n.id;
    }
    if r :| r in nodes && n == Node(r.id, r.title, r.status, r.issueType, r.assignee, false, r.blockedBy != []) {
      var i :| 0 <= i < |nodes| && nodes[i] == r;
      assert Imported(nodes)[i] == n;
    }
  }

  lemma AtWorkExactly(nodes: seq<ServerNode>, edges: seq<ServerEdge>, name: string)
    requires DistinctServerIds(nodes)
    ensures name in AgentNames(AddEdges(Graph(Imported(nodes), []), edges).nodes) <==> HasWorker(nodes, name)
  {
    var early := AddEdges(Graph(Imported(nodes), []), edges).nodes;
    AgentNamesSound(early);
    if k :| k in early && Working(k) && k.assignee == name {
      var w := WorkersComeFromReply(nodes, edges, k);
    }
    if r :| r in nodes && r.assignee == name != "" && r.status == "in_progress" {
      var k := Node(r.id, r.title, r.status, r.issueType, r.assignee, false, r.blockedBy != []);
      assert FromReply(nodes, k);
      EarlyExactly(nodes, edges, k);
      assert Working(k);
    }
  }

  /** What the agents add. */
  lemma AgentsExactly(nodes: seq<ServerNode>, edges: seq<ServerEdge>, n: Node)
    requires DistinctServerIds(nodes)
    ensures var early := AddEdges(Graph(Imported(nodes), []), edges).nodes;
      n in WithAgents(early, AgentNames(early)) <==>
        || n in early
        || (n == Node("agent:" + n.title, n.title, "active", "agent", "", false, false) && HasWorker(nodes, n.title)
            && KnownAs(Types(Imported(nodes)), edges, n.id).None?)
  {
    var early := AddEdges(Graph(Imported(nodes), []), edges).nodes;
    EdgesKeepDistinct(nodes, edges);
    KnownAsExactly(Imported(nodes), edges, n.id);
    AtWorkExactly(nodes, edges, n.title);
    AddedAgents(early, AgentNames(early), n);
    hide AddEdges, KnownAs, AgentNames, WithAgents, Types, HasWorker, Imported, DistinctIds;
  }

  lemma EdgesKeepDistinct(nodes: seq<ServerNode>, edges: seq<ServerEdge>)
    requires DistinctServerIds(nodes)
    ensures DistinctIds(AddEdges(Graph(Imported(nodes), []), edges).nodes)
  {
    EdgesSound(Imported(nodes), edges);
    hide AddEdges;
  }

  lemma AddedAgents(early: seq<Node>, names: seq<string>, n: Node)
    requires DistinctIds(early)
    ensures n in WithAgents(early, names) <==>
      n in early || (n == AgentNode(n.title) && n.title in names && n.id !in Ids(early))
  {
    WithAgentsSound(early, names);
    var all := WithAgents(early, names);
    hide DistinctIds, WithAgents;
    assert forall k <- early :: k in all;
    if n == AgentNode(n.title) && n.title in names && n.id !in Ids(early) {
      var k :| k in all && k.id == n.id;
      assert k !in early;
      var name :| name in names && k == AgentNode(name);
      assert AgentId(name)[6..] == name && n.id[6..] == n.title;
    }
  }

  // ----- links

  /** The edges that count as parent-child when they are drawn, given what is known of their target. */
  function DrawnType(e: ServerEdge, target: Option<string>): string {
    if (e.typ == "" || e.typ == "blocks") && target == Some("epic") then "parent-child"
    else if e.typ == "" then "blocks" else e.typ
  }

  /** An edge is drawn between known ids, or as parent-child when one end is known. */
  predicate IsDrawn(types: map<Id, string>, edges: seq<ServerEdge>, e: ServerEdge) {
    var source, target := KnownAs(types, edges, e.source), KnownAs(types, edges, e.target);
    (source.Some? && target.Some?) || (DrawnType(e, target) == "parent-child" && (source.Some? || target.Some?))
  }

  lemma EdgeStepLinks(g: Graph, e: ServerEdge)
    ensures var source, target := TypeIn(Types(g.nodes), e.source), TypeIn(Types(g.nodes), e.target);
      EdgeStep(g, e).links ==
        if (source.Some? && target.Some?) || (DrawnType(e, target) == "parent-child" && (source.Some? || target.Some?))
        then g.links + [Reachability.Link(e.source, e.target, DrawnType(e, target))]
        else g.links
  {
  }

  /** `links` are the drawn edges, those at `places`, in their order, each once, with the type for their target. */
  ghost predicate DrawnInOrder(types: map<Id, string>, edges: seq<ServerEdge>, links: seq<Link>, places: seq<nat>) {
    && |links| == |places|
    && (forall j, k :: 0 <= j < k < |places| ==> places[j] < places[k])
    && (forall k :: 0 <= k < |places| ==> places[k] < |edges| && links[k] == DrawnLink(types, edges, places[k]))
    && (forall i: nat :: i < |edges| ==> (i in places <==> IsDrawn(types, edges[..i], edges[i])))
  }

  function DrawnLink(types: map<Id, string>, edges: seq<ServerEdge>, i: nat): Link
    requires i < |edges|
  {
    var e := edges[i];
    Reachability.Link(e.source, e.target, DrawnType(e, KnownAs(types, edges[..i], e.target)))
  }

  lemma DrawOneMore(types: map<Id, string>, edges: seq<ServerEdge>, links: seq<Link>, places: seq<nat>, e: ServerEdge)
    requires DrawnInOrder(types, edges, links, places)
    ensures var l := Reachability.Link(e.source, e.target, DrawnType(e, KnownAs(types, edges, e.target)));
      if IsDrawn(types, edges, e) then DrawnInOrder(types, edges + [e], links + [l], places + [|edges|])
      else DrawnInOrder(types, edges + [e], links, places)
  {
    hide IsDrawn, KnownAs, DrawnType;
    var more := edges + [e];
    forall i: nat | i <= |edges|
      ensures more[..i] == edges[..i]
    {
    }
    assert edges[..|edges|] == edges && more[|edges|] == e;
    assert |edges| !in places;
  }

  /** The edge loop draws exactly those edges. */
  lemma {:induction false} EdgeLinksInOrder(nodes: seq<Node>, edges: seq<ServerEdge>) returns (places: seq<nat>)
    ensures DrawnInOrder(Types(nodes), edges, AddEdges(Graph(nodes, []), edges).links, places)
  {
    if edges == [] {
      places := [];
    } else {
      var n := |edges| - 1;
      var e := edges[n];
      places := EdgeLinksInOrder(nodes, edges[..n]);
      EdgeStepLinks(AddEdges(Graph(nodes, []), edges[..n]), e);
      KnownAsExactly(nodes, edges[..n], e.source);
      KnownAsExactly(nodes, edges[..n], e.target);
      DrawOneMore(Types(nodes), edges[..n], AddEdges(Graph(nodes, []), edges[..n]).links, places, e);
      assert edges[..n] + [e] == edges;
      hide Types, KnownAs, EdgeStep, DrawnType, DrawnInOrder;
      if IsDrawn(Types(nodes), edges[..n], e) {
        places := places + [n];
      }
    }
  }

  /** The link from the agent to a bead in progress that is assigned to it. */
  predicate IsWorkLink(assignee: string, status: string, id: Id, l: Link) {
    assignee != "" && status == "in_progress" && l == Reachability.Link("agent:" + assignee, id, "assigned_to")
  }

  /** Each node at work gets its link, once, unless it is drawn already. */
  lemma {:induction false} AgentLinksInOrder(nodes: seq<Node>, links: seq<Link>) returns (extra: seq<Link>)
    ensures AgentLinks(nodes, links) == links + extra
    ensures forall i, j :: 0 <= i < j < |extra| ==> extra[i] != extra[j]
    ensures forall l :: l in extra <==> l !in links && exists n <- nodes :: IsWorkLink(n.assignee, n.status, n.id, l)
  {
    if nodes == [] {
      extra := [];
    } else {
      var k := |nodes| - 1;
      extra := AgentLinksInOrder(nodes[..k], links);
      assert nodes == nodes[..k] + [nodes[k]];
      var l := AgentLink(nodes[k]);
      assert forall i | 0 <= i < |extra| :: extra[i] in extra;
      if Working(nodes[k]) && l !in links + extra {
        assert links + (extra + [l]) == links + extra + [l];
        extra := extra + [l];
      }
    }
  }

  /** The links of the graph: the drawn edges, then one link from its agent to each node at work that lacks it. */
  lemma LinksExactly(nodes: seq<ServerNode>, edges: seq<ServerEdge>)
      returns (drawn: seq<Link>, places: seq<nat>, extra: seq<Link>)
    requires DistinctServerIds(nodes)
    ensures BuildGraph(nodes, edges).links == drawn + extra
    ensures DrawnInOrder(Types(Imported(nodes)), edges, drawn, places)
    ensures forall i, j :: 0 <= i < j < |extra| ==> extra[i] != extra[j]
    ensures forall l :: l in extra <==> l !in drawn && LinksWorker(nodes, l)
  {
    var g := AddEdges(Graph(Imported(nodes), []), edges);
    drawn := g.links;
    places := EdgeLinksInOrder(Imported(nodes), edges);
    extra := AgentLinksInOrder(g.nodes, g.links);
    forall l
      ensures l in extra <==> l !in drawn && LinksWorker(nodes, l)
    {
      WorkersOfReply(nodes, edges, l);
    }
  }

  ghost predicate LinksWorker(nodes: seq<ServerNode>, l: Link) {
    exists r <- nodes :: IsWorkLink(r.assignee, r.status, r.id, l)
  }

  /** Only nodes of the reply are at work. */
  lemma WorkersOfReply(nodes: seq<ServerNode>, edges: seq<ServerEdge>, l: Link)
    requires DistinctServerIds(nodes)
    ensures LinksWorker(nodes, l) <==>
            exists n <- AddEdges(Graph(Imported(nodes), []), edges).nodes :: IsWorkLink(n.assignee, n.status, n.id, l)
  {
    var early := AddEdges(Graph(Imported(nodes), []), edges).nodes;
    if n :| n in early && IsWorkLink(n.assignee, n.status, n.id, l) {
      var w := WorkersComeFromReply(nodes, edges, n);
      assert w.assignee == n.assignee;
    }
    if r :| r in nodes && IsWorkLink(r.assignee, r.status, r.id, l) {
      var k := Node(r.id, r.title, r.status, r.issueType, r.assignee, false, r.blockedBy != []);
      assert FromReply(nodes, k);
      EarlyExactly(nodes, edges, k);
      assert k in early;
    }
  }
}
