/**
 What a drag covers, against the comments in and above getDragSubtree: which links an agent's drag
 follows, and when a bead's drag is its whole connected component.
 */
module DragScope {
  import opened DragSubtree
  import opened Reachability
  import opened Wrappers

  // ----- how far a drag goes

  /** A link between visible nodes with one end within reach has the other end within reach too. */
  ghost predicate ReachClosed(links: seq<Link>, dir: Direction, visible: set<Id>, start: Id) {
    forall v, w :: Near(links, dir, visible, start, v, MAX_HOPS) && w in visible && Adjacent(links, dir, v, w) ==>
        Near(links, dir, visible, start, w, MAX_HOPS)
  }

  /**
   The drag is the full connected component, as the comment above the function says of beads, iff no link
   leads out of it: four hops are then as good as any number.
   */
  lemma FullComponentIff(links: seq<Link>, dir: Direction, visible: set<Id>, start: Id)
    ensures (forall id, k: nat :: Near(links, dir, visible, start, id, k) ==>
                Near(links, dir, visible, start, id, MAX_HOPS)) <==>
            ReachClosed(links, dir, visible, start)
  {
    var within := Some(visible);
    if forall id, k: nat :: Near(links, dir, visible, start, id, k) ==> Near(links, dir, visible, start, id, MAX_HOPS) {
      forall v, w | Near(links, dir, visible, start, v, MAX_HOPS) && w in visible && Adjacent(links, dir, v, w)
        ensures Near(links, dir, visible, start, w, MAX_HOPS)
      {
        WalkExtends(links, dir, within, start, v, w, MAX_HOPS);
        assert Near(links, dir, visible, start, w, MAX_HOPS + 1);
      }
    }
    if ReachClosed(links, dir, visible, start) {
      forall id, k: nat | Near(links, dir, visible, start, id, k)
        ensures Near(links, dir, visible, start, id, MAX_HOPS)
      {
        NeverOutOfReach(links, dir, visible, start, id, k);
      }
    }
  }

  lemma {:induction false} NeverOutOfReach(links: seq<Link>, dir: Direction, visible: set<Id>, start: Id, id: Id,
                                           k: nat)
    requires ReachClosed(links, dir, visible, start) && Near(links, dir, visible, start, id, k)
    ensures Near(links, dir, visible, start, id, MAX_HOPS)
    decreases k
  {
    var within := Some(visible);
    if k <= MAX_HOPS {
      MoreHops(links, dir, within, start, id, k, MAX_HOPS);
    } else if Near(links, dir, visible, start, id, k - 1) {
      NeverOutOfReach(links, dir, visible, start, id, k - 1);
    } else {
      var mid := LastStep(links, dir, within, start, id, k - 1);
      NeverOutOfReach(links, dir, visible, start, mid, k - 1);
    }
  }

  /** Ids told apart by their length. */
  function Bead(i: nat): Id {
    seq(i, _ => 'b')
  }

  function Beads(n: nat): seq<Id> {
    seq(n, i requires 0 <= i < n => Bead(i))
  }

  function Chain(n: nat): seq<Link> {
    seq(n, i requires 0 <= i < n => Link(Bead(i), Bead(i + 1), "blocks"))
  }

  /** A chain of five links is longer than a drag: the last bead stays behind. */
  lemma ChainLeftBehind()
    ensures var links := Chain(MAX_HOPS + 1);
      var visible := Endpoints(links);
      && Near(links, Both, visible, Bead(0), Bead(MAX_HOPS + 1), MAX_HOPS + 1)
      && !Near(links, Both, visible, Bead(0), Bead(MAX_HOPS + 1), MAX_HOPS)
  {
    var n := MAX_HOPS + 1;
    var ids, links := Beads(n + 1), Chain(n);
    var visible := Endpoints(links);
    BeadLength(n);
    hide Bead, Endpoints;
    forall i | 0 <= i < n
      ensures Adjacent(links, Both, ids[i], ids[i + 1])
    {
      assert links[i] in links && Leads(links[i], Both, ids[i], ids[i + 1]);
    }
    forall i | 0 <= i <= n
      ensures ids[i] in visible
    {
      assert links[if i < n then i else n - 1] in links;
    }
    assert Walk(links, Both, Some(visible), Bead(0), Bead(n), ids);
    if Near(links, Both, visible, Bead(0), Bead(n), MAX_HOPS) {
      var walk :| Walk(links, Both, Some(visible), Bead(0), Bead(n), walk) && |walk| - 1 <= MAX_HOPS;
      AlongChain(n, walk, |walk| - 1);
    }
  }

  lemma BeadLength(i: nat)
    ensures |Bead(i)| == i
  {
  }

  lemma LinkLengths(n: nat, l: Link)
    requires l in Chain(n)
    ensures |l.target| == |l.source| + 1
  {
    var i :| 0 <= i < n && l == Link(Bead(i), Bead(i + 1), "blocks");
  }

  lemma {:induction false} AlongChain(n: nat, walk: seq<Id>, i: nat)
    requires i < |walk| && walk[0] == Bead(0)
    requires forall i :: 0 <= i < |walk| - 1 ==> Adjacent(Chain(n), Both, walk[i], walk[i + 1])
    ensures |walk[i]| <= i
  {
    if i > 0 {
      AlongChain(n, walk, i - 1);
      assert Adjacent(Chain(n), Both, walk[i - 1], walk[i - 1 + 1]);
      var l :| l in Chain(n) && Leads(l, Both, walk[i - 1], walk[i]);
      LinkLengths(n, l);
    }
  }

  // ----- which links a drag follows

  /** Only the ends of links matter: a drag follows links of every type. */
  lemma DragIgnoresTypes(links: seq<Link>, retyped: seq<Link>, dir: Direction, visible: set<Id>, start: Id, id: Id,
                         hops: nat)
    requires |links| == |retyped|
    requires forall i :: 0 <= i < |links| ==>
        links[i].source == retyped[i].source && links[i].target == retyped[i].target
    ensures Near(links, dir, visible, start, id, hops) <==> Near(retyped, dir, visible, start, id, hops)
  {
    forall v, w
      ensures Adjacent(links, dir, v, w) <==> Adjacent(retyped, dir, v, w)
    {
      if l :| l in links && Leads(l, dir, v, w) {
        var i :| 0 <= i < |links| && links[i] == l;
        assert retyped[i] in retyped && Leads(retyped[i], dir, v, w);
      }
      if l :| l in retyped && Leads(l, dir, v, w) {
        var i :| 0 <= i < |links| && retyped[i] == l;
        assert links[i] in links && Leads(links[i], dir, v, w);
      }
    }
    SameAdjacentSameNear(links, retyped, dir, visible, start, id, hops);
    SameAdjacentSameNear(retyped, links, dir, visible, start, id, hops);
  }

  lemma SameAdjacentSameNear(links: seq<Link>, others: seq<Link>, dir: Direction, visible: set<Id>, start: Id, id: Id,
                             hops: nat)
    requires forall v, w :: Adjacent(links, dir, v, w) <==> Adjacent(others, dir, v, w)
    ensures Near(links, dir, visible, start, id, hops) ==> Near(others, dir, visible, start, id, hops)
  {
    hide Adjacent;
    if Near(links, dir, visible, start, id, hops) {
      var walk :| Walk(links, dir, Some(visible), start, id, walk) && |walk| - 1 <= hops;
      assert Walk(others, dir, Some(visible), start, id, walk);
    }
  }

  /** Following only `kept` leads everywhere the drag leads, at every number of hops. */
  ghost predicate SameDrag(links: seq<Link>, kept: seq<Link>, dir: Direction, visible: set<Id>, start: Id) {
    forall id, k: nat :: k <= MAX_HOPS ==>
        (Near(links, dir, visible, start, id, k) <==> Near(kept, dir, visible, start, id, k))
  }

  /** Where a link leaves a node near along `kept`, `kept` leads to the other end just as soon. */
  ghost predicate LeadsNoFurther(l: Link, kept: seq<Link>, visible: set<Id>, start: Id) {
    l.target in visible ==>
      forall k: nat :: k < MAX_HOPS && Near(kept, Downstream, visible, start, l.source, k) ==>
          Near(kept, Downstream, visible, start, l.target, k + 1)
  }

  lemma {:induction false} NothingBeyondKept(links: seq<Link>, kept: seq<Link>, visible: set<Id>, start: Id, id: Id,
                                             k: nat)
    requires k <= MAX_HOPS && Near(links, Downstream, visible, start, id, k)
    requires forall l <- links :: LeadsNoFurther(l, kept, visible, start)
    ensures Near(kept, Downstream, visible, start, id, k)
    decreases k
  {
    var within := Some(visible);
    if k == 0 {
      ZeroHops(links, Downstream, within, start, id);
      ZeroHops(kept, Downstream, within, start, id);
    } else if Near(links, Downstream, visible, start, id, k - 1) {
      NothingBeyondKept(links, kept, visible, start, id, k - 1);
      MoreHops(kept, Downstream, within, start, id, k - 1, k);
    } else {
      var mid := LastStep(links, Downstream, within, start, id, k - 1);
      NothingBeyondKept(links, kept, visible, start, mid, k - 1);
      var l :| l in links && Leads(l, Downstream, mid, id);
      assert LeadsNoFurther(l, kept, visible, start);
    }
  }

  lemma KeptLeadsNoFurther(l: Link, kept: seq<Link>, visible: set<Id>, start: Id)
    requires l in kept
    ensures LeadsNoFurther(l, kept, visible, start)
  {
    assert Leads(l, Downstream, l.source, l.target);
    forall k: nat | k < MAX_HOPS && l.target in visible && Near(kept, Downstream, visible, start, l.source, k)
      ensures Near(kept, Downstream, visible, start, l.target, k + 1)
    {
      WalkExtends(kept, Downstream, Some(visible), start, l.source, l.target, k);
    }
  }

  /** Some of the links do for a drag downstream iff none of the others leads further. */
  lemma SameDragIff(links: seq<Link>, kept: seq<Link>, visible: set<Id>, start: Id)
    requires forall l <- kept :: l in links
    ensures SameDrag(links, kept, Downstream, visible, start) <==>
            forall l <- links :: l !in kept ==> LeadsNoFurther(l, kept, visible, start)
  {
    if SameDrag(links, kept, Downstream, visible, start) {
      forall l | l in links
        ensures LeadsNoFurther(l, kept, visible, start)
      {
        KeptLeadsNoFurther(l, links, visible, start);
        hide Near;
      }
    }
    if forall l <- links :: l !in kept ==> LeadsNoFurther(l, kept, visible, start) {
      forall l | l in links
        ensures LeadsNoFurther(l, kept, visible, start)
      {
        if l in kept {
          KeptLeadsNoFurther(l, kept, visible, start);
        }
      }
      forall id, k: nat | k <= MAX_HOPS
        ensures Near(links, Downstream, visible, start, id, k) <==> Near(kept, Downstream, visible, start, id, k)
      {
        if Near(kept, Downstream, visible, start, id, k) {
          FewerLinksFewerNear(kept, links, visible, start, id, k);
        }
        if Near(links, Downstream, visible, start, id, k) {
          NothingBeyondKept(links, kept, visible, start, id, k);
        }
      }
    }
  }

  lemma FewerLinksFewerNear(kept: seq<Link>, links: seq<Link>, visible: set<Id>, start: Id, id: Id, k: nat)
    requires (forall l <- kept :: l in links) && Near(kept, Downstream, visible, start, id, k)
    ensures Near(links, Downstream, visible, start, id, k)
  {
    var walk :| Walk(kept, Downstream, Some(visible), start, id, walk) && |walk| - 1 <= k;
    assert forall v, w :: Adjacent(kept, Downstream, v, w) ==> Adjacent(links, Downstream, v, w);
    assert Walk(links, Downstream, Some(visible), start, id, walk);
  }

  /** The links of an assignment. */
  function Assigned(links: seq<Link>): (kept: seq<Link>)
    ensures forall l :: l in kept <==> l in links && l.depType == "assigned_to"
  {
    if links == [] then []
    else
      var last := links[|links| - 1];
      Assigned(links[..|links| - 1]) + (if last.depType == "assigned_to" then [last] else [])
  }

  predicate AssignedTo(links: seq<Link>, agent: Id, bead: Id) {
    exists a <- links :: a.depType == "assigned_to" && a.source == agent && a.target == bead
  }

  /** The links of an assignment, and those that leave any node but the agent. */
  function AssignedFirst(links: seq<Link>, agent: Id): (kept: seq<Link>)
    ensures forall l :: l in kept <==> l in links && (l.depType == "assigned_to" || l.source != agent)
  {
    if links == [] then []
    else
      var last := links[|links| - 1];
      AssignedFirst(links[..|links| - 1], agent)
        + (if last.depType == "assigned_to" || last.source != agent then [last] else [])
  }

  /**
   An agent's drag follows assigned_to links only, as the comment above the function says, exactly when
   no other link leads further than they do.
   */
  lemma AgentDragsAssignedIff(links: seq<Link>, visible: map<Id, Node>, agent: Id)
    requires IsAgent(visible, agent)
    ensures SameDrag(links, Assigned(links), DragDirection(visible, agent), visible.Keys, agent) <==>
            forall l <- links :: l.depType != "assigned_to" ==>
                LeadsNoFurther(l, Assigned(links), visible.Keys, agent)
  {
    SameDragIff(links, Assigned(links), visible.Keys, agent);
    hide SameDrag, LeadsNoFurther;
  }

  /**
   It leaves the agent along assigned_to links and goes on along any, as the comment in the loop says,
   exactly when every visible bead the agent has a link to is assigned to it, or is the agent itself.
   */
  lemma AgentDragsAssignedFirstIff(links: seq<Link>, visible: map<Id, Node>, agent: Id)
    requires IsAgent(visible, agent)
    ensures SameDrag(links, AssignedFirst(links, agent), DragDirection(visible, agent), visible.Keys, agent) <==>
            forall l <- links :: l.source == agent != l.target && l.target in visible ==>
                AssignedTo(links, agent, l.target)
  {
    var kept := AssignedFirst(links, agent);
    SameDragIff(links, kept, visible.Keys, agent);
    hide SameDrag;
    forall l | l in links && l.source == agent && l.target in visible
      ensures LeadsNoFurther(l, kept, visible.Keys, agent) <==>
              l.target == agent || AssignedTo(links, agent, l.target)
    {
      LinkOfAgent(l, links, visible.Keys, agent);
    }
    hide LeadsNoFurther;
  }

  lemma LinkOfAgent(l: Link, links: seq<Link>, visible: set<Id>, agent: Id)
    requires l.source == agent && agent in visible && l.target in visible
    ensures LeadsNoFurther(l, AssignedFirst(links, agent), visible, agent) <==>
            l.target == agent || AssignedTo(links, agent, l.target)
  {
    var kept, within := AssignedFirst(links, agent), Some(visible);
    ZeroHops(kept, Downstream, within, agent, agent);
    ZeroHops(kept, Downstream, within, agent, l.target);
    if LeadsNoFurther(l, kept, visible, agent) && l.target != agent {
      assert Near(kept, Downstream, visible, agent, l.source, 0);
      var mid := LastStep(kept, Downstream, within, agent, l.target, 0);
      ZeroHops(kept, Downstream, within, agent, mid);
    }
    if l.target == agent || AssignedTo(links, agent, l.target) {
      if l.target == agent {
        MoreHops(kept, Downstream, within, agent, agent, 0, 1);
      } else {
        var a :| a in links && a.depType == "assigned_to" && a.source == agent && a.target == l.target;
        assert a in kept && Leads(a, Downstream, agent, l.target);
        WalkExtends(kept, Downstream, within, agent, agent, l.target, 0);
      }
      forall k: nat | k < MAX_HOPS && Near(kept, Downstream, visible, agent, l.source, k)
        ensures Near(kept, Downstream, visible, agent, l.target, k + 1)
      {
        MoreHops(kept, Downstream, within, agent, l.target, 1, k + 1);
      }
    }
  }

  /** So an agent drags along a bead it is not assigned to, by either comment. */
  lemma AgentDragsUnassigned()
    ensures var nodes := [Node("agent:ann", "agent", false), Node("b", "task", false)];
      var visible, ann := NodeById(nodes), "agent:ann";
      var links, dir := [Link(ann, "b", "blocks")], DragDirection(visible, ann);
      && Near(links, dir, visible.Keys, ann, "b", MAX_HOPS)
      && !SameDrag(links, Assigned(links), dir, visible.Keys, ann)
      && !SameDrag(links, AssignedFirst(links, ann), dir, visible.Keys, ann)
  {
    var nodes, ann := [Node("agent:ann", "agent", false), Node("b", "task", false)], "agent:ann";
    var links := [Link(ann, "b", "blocks")];
    assert nodes[0] in nodes && nodes[1] in nodes;
    assert ann[0] == 'a' && "b"[0] == 'b';
    assert "blocks"[0] == 'b' && "assigned_to"[0] == 'a';
    var visible := NodeById(nodes);
    assert visible[ann] == nodes[0];
    var l := links[0];
    assert l in links && Leads(l, Downstream, ann, "b");
    assert Walk(links, Downstream, Some(visible.Keys), ann, "b", [ann, "b"]);
    AgentDragsAssignedFirstIff(links, visible, ann);
    AgentDragsAssignedIff(links, visible, ann);
    NoAssignment(links, visible.Keys, ann, l);
    hide SameDrag, NodeById;
  }

  lemma NoAssignment(links: seq<Link>, visible: set<Id>, start: Id, l: Link)
    requires (forall k <- links :: k.depType != "assigned_to") && start in visible
    requires l.source == start != l.target && l.target in visible
    ensures !LeadsNoFurther(l, Assigned(links), visible, start)
  {
    var kept, within := Assigned(links), Some(visible);
    ZeroHops(kept, Downstream, within, start, start);
    ZeroHops(kept, Downstream, within, start, l.target);
    if Near(kept, Downstream, visible, start, l.target, 1) {
      var mid := LastStep(kept, Downstream, within, start, l.target, 0);
    }
    assert Near(kept, Downstream, visible, start, l.source, 0);
  }
}
