/**
 getDragSubtree: the depth-limited breadth-first search that decides which nodes follow a drag.
 */
module DragSubtree {
  import opened Reachability
  import opened Wrappers

  const MAX_HOPS: nat := 4

  datatype Node = Node(id: Id, issueType: string, hidden: bool)

  datatype Found = Found(node: Node, depth: nat)

  datatype Entry = Entry(id: Id, depth: nat)

  /** The `nodeById` map: visible nodes only, the last one listed under an id wins. */
  function NodeById(nodes: seq<Node>): (m: map<Id, Node>)
    ensures forall id <- m :: m[id] in nodes && m[id].id == id && !m[id].hidden
    ensures forall n <- nodes :: !n.hidden ==> n.id in m
  {
    if nodes == [] then map[]
    else
      var last := nodes[|nodes| - 1];
      var rest := NodeById(nodes[..|nodes| - 1]);
      if last.hidden then rest else rest[last.id := last]
  }

  method IndexVisible(nodes: seq<Node>) returns (nodeById: map<Id, Node>)
    ensures nodeById == NodeById(nodes)
  {
    nodeById := map[];
    for i := 0 to |nodes|
      invariant nodeById == NodeById(nodes[..i])
    {
      assert nodes[..i + 1][..i] == nodes[..i];
      if !nodes[i].hidden {
        nodeById := nodeById[nodes[i].id := nodes[i]];
      }
    }
    assert nodes[..|nodes|] == nodes;
  }

  predicate IsAgent(visible: map<Id, Node>, startId: Id) {
    startId in visible && visible[startId].issueType == "agent"
  }

  /** Agents pull only what they point at; other nodes pull both ways. */
  function DragDirection(visible: map<Id, Node>, startId: Id): Direction {
    if IsAgent(visible, startId) then Downstream else Both
  }

  /** What "reachable within k hops" means for a drag. */
  ghost predicate Near(links: seq<Link>, dir: Direction, visible: set<Id>, start: Id, id: Id, hops: nat) {
    WithinHops(links, dir, Some(visible), start, id, hops)
  }

  /** `depth` is the length of a shortest walk through visible nodes. */
  ghost predicate ShortestDepth(links: seq<Link>, dir: Direction, visible: set<Id>, start: Id, id: Id, depth: nat) {
    && Near(links, dir, visible, start, id, depth)
    && (depth > 0 ==> !Near(links, dir, visible, start, id, depth - 1))
  }

  // ----- the search state

  /** The queue is sorted by depth and spans at most two neighbouring depths. */
  ghost predicate QueueSorted(queue: seq<Entry>) {
    && (forall i, j :: 0 <= i <= j < |queue| ==> queue[i].depth <= queue[j].depth)
    && (forall i, j :: 0 <= i <= j < |queue| ==> queue[j].depth <= queue[i].depth + 1)
    && (forall e <- queue :: e.depth <= MAX_HOPS)
  }

  /** Every queued id is the start itself or next to an id already found one hop closer. */
  ghost predicate QueueJustified(links: seq<Link>, dir: Direction, start: Id, result: seq<Found>, queue: seq<Entry>) {
    forall e <- queue :: Justified(links, dir, start, result, e)
  }

  ghost predicate Justified(links: seq<Link>, dir: Direction, start: Id, result: seq<Found>, e: Entry) {
    || e == Entry(start, 0)
    || (e.depth > 0 && exists f <- result :: f.depth == e.depth - 1 && Adjacent(links, dir, f.node.id, e.id))
  }

  /** `id` is already visited or waits in the queue at `depth` or less. */
  ghost predicate Scheduled(visited: set<Id>, queue: seq<Entry>, id: Id, depth: nat) {
    id in visited || exists e <- queue :: e.id == id && e.depth <= depth
  }

  /** Everything next to a found node that still has hops left is scheduled. */
  ghost predicate NeighboursScheduled(links: seq<Link>, dir: Direction, visited: set<Id>, queue: seq<Entry>, f: Found) {
    f.depth < MAX_HOPS ==>
      forall w :: Adjacent(links, dir, f.node.id, w) ==> Scheduled(visited, queue, w, f.depth + 1)
  }

  ghost predicate ResultCorrect(links: seq<Link>, dir: Direction, visible: map<Id, Node>, start: Id,
                                result: seq<Found>) {
    && (forall f <- result :: f.node.id in visible && visible[f.node.id] == f.node && f.depth <= MAX_HOPS)
    && (forall f <- result :: ShortestDepth(links, dir, visible.Keys, start, f.node.id, f.depth))
    && (forall i, j :: 0 <= i < j < |result| ==> result[i].node.id != result[j].node.id)
    && (forall i, j :: 0 <= i < j < |result| ==> result[i].depth <= result[j].depth)
  }

  ghost predicate HeadFollows(queue: seq<Entry>, result: seq<Found>) {
    result != [] && queue != [] ==>
      result[|result| - 1].depth <= queue[0].depth <= result[|result| - 1].depth + 1
  }

  ghost predicate InResult(result: seq<Found>, id: Id) {
    exists f <- result :: f.node.id == id
  }

  ghost predicate VisitedAreFound(visible: map<Id, Node>, visited: set<Id>, result: seq<Found>) {
    forall id <- visible :: id in visited <==> InResult(result, id)
  }

  ghost predicate AllScheduled(links: seq<Link>, dir: Direction, start: Id, visited: set<Id>, queue: seq<Entry>,
                               result: seq<Found>) {
    && Scheduled(visited, queue, start, 0)
    && (forall f <- result :: NeighboursScheduled(links, dir, visited, queue, f))
  }

  ghost predicate Inv(links: seq<Link>, dir: Direction, visible: map<Id, Node>, start: Id,
                      visited: set<Id>, queue: seq<Entry>, result: seq<Found>) {
    && QueueSorted(queue)
    && QueueJustified(links, dir, start, result, queue)
    && ResultCorrect(links, dir, visible, start, result)
    && HeadFollows(queue, result)
    && VisitedAreFound(visible, visited, result)
    && AllScheduled(links, dir, start, visited, queue, result)
  }

  /** While the head of the queue stands at depth `k`, all nodes nearer than `k` have been found. */
  lemma {:induction false} NearerAreVisited(links: seq<Link>, dir: Direction, visible: map<Id, Node>, start: Id,
                         visited: set<Id>, queue: seq<Entry>, result: seq<Found>, k: nat, id: Id)
    requires Inv(links, dir, visible, start, visited, queue, result)
    requires k <= MAX_HOPS && forall e <- queue :: k < e.depth
    requires Near(links, dir, visible.Keys, start, id, k)
    ensures id in visited
    decreases k
  {
    var within := Some(visible.Keys);
    if k == 0 {
      ZeroHops(links, dir, within, start, id);
    } else if Near(links, dir, visible.Keys, start, id, k - 1) {
      NearerAreVisited(links, dir, visible, start, visited, queue, result, k - 1, id);
    } else {
      var mid := LastStep(links, dir, within, start, id, k - 1);
      NearerAreVisited(links, dir, visible, start, visited, queue, result, k - 1, mid);
      var walk :| Walk(links, dir, within, start, mid, walk) && |walk| - 1 <= k - 1;
      assert walk[|walk| - 1] in walk;
      assert mid in visible;
      assert InResult(result, mid);
      var f :| f in result && f.node.id == mid;
      assert f.depth <= k - 1;
      assert NeighboursScheduled(links, dir, visited, queue, f);
      assert Scheduled(visited, queue, id, f.depth + 1);
    }
  }

  /** What the loop over the links appends for one node. */
  ghost predicate Appended(links: seq<Link>, dir: Direction, visited: set<Id>, id: Id, depth: nat, more: seq<Entry>) {
    && (forall e <- more :: e.depth == depth && Adjacent(links, dir, id, e.id))
    && (forall l <- links, w :: Leads(l, dir, id, w) && w !in visited ==> Entry(w, depth) in more)
  }

  /** What the queue gains when the node at its head is visited. */
  ghost predicate Expansion(links: seq<Link>, dir: Direction, visited: set<Id>, e: Entry, more: seq<Entry>) {
    if e.depth >= MAX_HOPS then more == []
    else Appended(links, dir, visited, e.id, e.depth + 1, more)
  }

  /** The queue's ids come from a finite set, which bounds the search. */
  ghost predicate QueueWithin(queue: seq<Entry>, ids: set<Id>) {
    forall e <- queue :: e.id in ids
  }

  lemma QueueSplit(queue: seq<Entry>, ids: set<Id>)
    requires queue != [] && QueueWithin(queue, ids)
    ensures queue[0].id in ids && QueueWithin(queue[1..], ids)
  {
    assert queue[0] in queue;
  }

  lemma QueueJoin(a: seq<Entry>, b: seq<Entry>, ids: set<Id>)
    requires QueueWithin(a, ids) && exists few: set<Id> :: few <= ids && QueueWithin(b, few)
    ensures QueueWithin(a + b, ids)
  {
  }

  method QueueNeighbours(links: seq<Link>, isAgent: bool, visited: set<Id>, id: Id, depth: nat, queue: seq<Entry>)
      returns (queue': seq<Entry>)
    ensures queue <= queue'
    ensures Expansion(links, if isAgent then Downstream else Both, visited, Entry(id, depth), queue'[|queue|..])
    ensures QueueWithin(queue'[|queue|..], Endpoints(links))
  {
    if depth >= MAX_HOPS {
      return queue;
    }
    ghost var dir := if isAgent then Downstream else Both;
    ghost var more: seq<Entry> := [];
    queue' := queue;
    hide Appended;
    NothingAppended(dir, visited, id, depth + 1);
    assert links[..0] == [];
    for i := 0 to |links|
      invariant queue' == queue + more
      invariant Appended(links[..i], dir, visited, id, depth + 1, more)
    {
      ghost var added: seq<Entry> := [];
      var l := links[i];
      if isAgent {
        if l.source == id && l.target !in visited {
          queue', added := queue' + [Entry(l.target, depth + 1)], [Entry(l.target, depth + 1)];
        }
      } else {
        if l.source == id && l.target !in visited {
          queue', added := queue' + [Entry(l.target, depth + 1)], [Entry(l.target, depth + 1)];
        }
        if l.target == id && l.source !in visited {
          queue', added := queue' + [Entry(l.source, depth + 1)], added + [Entry(l.source, depth + 1)];
        }
      }
      assert added == OfLink(l, isAgent, visited, id, depth + 1);
      AppendedGrows(links, i, isAgent, visited, id, depth + 1, more);
      more := more + added;
    }
    assert links[..|links|] == links && queue'[|queue|..] == more;
    AppendedWithin(links, dir, visited, id, depth + 1, more);
  }

  lemma NothingAppended(dir: Direction, visited: set<Id>, id: Id, depth: nat)
    ensures Appended([], dir, visited, id, depth, [])
  {
  }

  /** What one link adds. */
  function OfLink(l: Link, isAgent: bool, visited: set<Id>, id: Id, depth: nat): seq<Entry> {
    (if l.source == id && l.target !in visited then [Entry(l.target, depth)] else [])
    + (if !isAgent && l.target == id && l.source !in visited then [Entry(l.source, depth)] else [])
  }

  lemma AppendedGrows(links: seq<Link>, i: nat, isAgent: bool, visited: set<Id>, id: Id, depth: nat, more: seq<Entry>)
    requires i < |links|
    requires Appended(links[..i], if isAgent then Downstream else Both, visited, id, depth, more)
    ensures Appended(links[..i + 1], if isAgent then Downstream else Both, visited, id, depth,
                     more + OfLink(links[i], isAgent, visited, id, depth))
  {
    var dir := if isAgent then Downstream else Both;
    var added := OfLink(links[i], isAgent, visited, id, depth);
    assert links[..i + 1] == links[..i] + [links[i]];
    forall e | e in more
      ensures Adjacent(links[..i + 1], dir, id, e.id)
    {
      var k :| k in links[..i] && Leads(k, dir, id, e.id);
      assert k in links[..i + 1];
    }
    forall e | e in added
      ensures Adjacent(links[..i + 1], dir, id, e.id)
    {
      assert links[i] in links[..i + 1];
    }
  }

  lemma AppendedWithin(links: seq<Link>, dir: Direction, visited: set<Id>, id: Id, depth: nat, more: seq<Entry>)
    requires Appended(links, dir, visited, id, depth, more)
    ensures QueueWithin(more, Endpoints(links))
  {
    forall e | e in more
      ensures e.id in Endpoints(links)
    {
      var l :| l in links && Leads(l, dir, id, e.id);
    }
  }

  // ----- how each branch of the loop keeps the invariant

  lemma ScheduleCarriesOver(visited: set<Id>, queue: seq<Entry>, more: seq<Entry>, id: Id, depth: nat)
    requires queue != [] && Scheduled(visited, queue, id, depth)
    ensures Scheduled(visited + {queue[0].id}, queue[1..] + more, id, depth)
  {
    if id !in visited && id != queue[0].id {
      var e :| e in queue && e.id == id && e.depth <= depth;
      assert e in queue[1..];
      assert e in queue[1..] + more;
    }
  }

  lemma NeighboursCarryOver(links: seq<Link>, dir: Direction, visited: set<Id>, queue: seq<Entry>, more: seq<Entry>,
                            f: Found)
    requires queue != [] && NeighboursScheduled(links, dir, visited, queue, f)
    ensures NeighboursScheduled(links, dir, visited + {queue[0].id}, queue[1..] + more, f)
  {
    if f.depth < MAX_HOPS {
      forall w | Adjacent(links, dir, f.node.id, w)
        ensures Scheduled(visited + {queue[0].id}, queue[1..] + more, w, f.depth + 1)
      {
        ScheduleCarriesOver(visited, queue, more, w, f.depth + 1);
      }
    }
  }

  /** Queued entries lie at most one hop behind the last node found. */
  lemma QueueCloseBehind(links: seq<Link>, dir: Direction, start: Id, queue: seq<Entry>, result: seq<Found>, e: Entry)
    requires QueueJustified(links, dir, start, result, queue) && result != [] && e in queue
    requires forall i, j :: 0 <= i < j < |result| ==> result[i].depth <= result[j].depth
    ensures e.depth <= result[|result| - 1].depth + 1
  {
    assert Justified(links, dir, start, result, e);
    if e.depth > 0 {
      var f :| f in result && f.depth == e.depth - 1;
      var i :| 0 <= i < |result| && result[i] == f;
    }
  }

  lemma SkipVisited(links: seq<Link>, dir: Direction, visible: map<Id, Node>, start: Id,
                    visited: set<Id>, queue: seq<Entry>, result: seq<Found>)
    requires Inv(links, dir, visible, start, visited, queue, result)
    requires queue != [] && (queue[0].id in visited || queue[0].id !in visible)
    ensures Inv(links, dir, visible, start, visited + {queue[0].id}, queue[1..], result)
  {
    var rest := queue[1..];
    assert rest == rest + [];
    assert forall e <- rest :: e in queue;
    ScheduleCarriesOver(visited, queue, [], start, 0);
    forall f | f in result
      ensures NeighboursScheduled(links, dir, visited + {queue[0].id}, rest, f)
    {
      NeighboursCarryOver(links, dir, visited, queue, [], f);
    }
    if result != [] && rest != [] {
      QueueCloseBehind(links, dir, start, queue, result, rest[0]);
    }
  }

  /** The first sight of a visible node: its queue depth is its true distance. */
  lemma FirstSight(links: seq<Link>, dir: Direction, visible: map<Id, Node>, start: Id,
                   visited: set<Id>, queue: seq<Entry>, result: seq<Found>)
    requires Inv(links, dir, visible, start, visited, queue, result)
    requires queue != [] && queue[0].id !in visited && queue[0].id in visible
    ensures ShortestDepth(links, dir, visible.Keys, start, queue[0].id, queue[0].depth)
  {
    var e := queue[0];
    var within := Some(visible.Keys);
    assert Justified(links, dir, start, result, e);
    if e.depth == 0 {
      ZeroHops(links, dir, within, start, start);
    } else {
      var f :| f in result && f.depth == e.depth - 1 && Adjacent(links, dir, f.node.id, e.id);
      WalkExtends(links, dir, within, start, f.node.id, e.id, f.depth);
      if Near(links, dir, visible.Keys, start, e.id, e.depth - 1) {
        NearerAreVisited(links, dir, visible, start, visited, queue, result, e.depth - 1, e.id);
      }
    }
  }

  lemma ExpansionSorted(queue: seq<Entry>, more: seq<Entry>)
    requires queue != [] && QueueSorted(queue)
    requires forall e <- more :: e.depth == queue[0].depth + 1 && e.depth <= MAX_HOPS
    ensures QueueSorted(queue[1..] + more)
    ensures forall e <- queue[1..] + more :: queue[0].depth <= e.depth <= queue[0].depth + 1
  {
    var queue' := queue[1..] + more;
    var d := queue[0].depth;
    forall i | 0 <= i < |queue'|
      ensures d <= queue'[i].depth <= d + 1 && queue'[i].depth <= MAX_HOPS
      ensures i >= |queue| - 1 ==> queue'[i].depth == d + 1
    {
      if i < |queue| - 1 {
        assert queue'[i] == queue[i + 1] && queue[i + 1] in queue;
      } else {
        assert queue'[i] in more;
      }
    }
  }

  lemma ExpansionJustified(links: seq<Link>, dir: Direction, start: Id, visited: set<Id>, queue: seq<Entry>,
                           result: seq<Found>, found: Found, more: seq<Entry>)
    requires queue != [] && QueueJustified(links, dir, start, result, queue)
    requires Expansion(links, dir, visited + {queue[0].id}, queue[0], more)
    requires found.node.id == queue[0].id && found.depth == queue[0].depth
    ensures QueueJustified(links, dir, start, result + [found], queue[1..] + more)
  {
    forall e | e in queue[1..] + more
      ensures Justified(links, dir, start, result + [found], e)
    {
      if e in queue[1..] {
        assert e in queue;
        assert Justified(links, dir, start, result, e);
        if e != Entry(start, 0) {
          var f :| f in result && f.depth == e.depth - 1 && Adjacent(links, dir, f.node.id, e.id);
          assert f in result + [found];
        }
      } else {
        assert found in result + [found];
      }
    }
  }

  lemma NewestLast(visible: map<Id, Node>, visited: set<Id>, queue: seq<Entry>, result: seq<Found>, found: Found)
    requires queue != [] && HeadFollows(queue, result) && VisitedAreFound(visible, visited, result)
    requires queue[0].id in visible && queue[0].id !in visited
    requires found.node.id == queue[0].id && found.depth == queue[0].depth
    requires forall i, j :: 0 <= i < j < |result| ==> result[i].depth <= result[j].depth
    ensures forall f <- result :: f.node.id != found.node.id && f.depth <= found.depth
  {
    assert !InResult(result, queue[0].id);
  }

  lemma FoundExtends(links: seq<Link>, dir: Direction, visible: map<Id, Node>, start: Id,
                     visited: set<Id>, queue: seq<Entry>, result: seq<Found>, found: Found)
    requires queue != [] && ResultCorrect(links, dir, visible, start, result)
    requires HeadFollows(queue, result) && VisitedAreFound(visible, visited, result)
    requires queue[0].id in visible && queue[0].id !in visited && queue[0].depth <= MAX_HOPS
    requires found == Found(visible[queue[0].id], queue[0].depth) && found.node.id == queue[0].id
    requires ShortestDepth(links, dir, visible.Keys, start, queue[0].id, queue[0].depth)
    ensures ResultCorrect(links, dir, visible, start, result + [found])
    ensures VisitedAreFound(visible, visited + {queue[0].id}, result + [found])
  {
    hide ShortestDepth;
    NewestLast(visible, visited, queue, result, found);
    assert forall i | 0 <= i < |result| :: result[i] in result;
    FoundIsVisited(visible, visited, result, found);
  }

  lemma FoundIsVisited(visible: map<Id, Node>, visited: set<Id>, result: seq<Found>, found: Found)
    requires VisitedAreFound(visible, visited, result)
    ensures VisitedAreFound(visible, visited + {found.node.id}, result + [found])
  {
    var result' := result + [found];
    assert found in result' && forall f <- result :: f in result';
    forall id | id in visible
      ensures id in visited + {found.node.id} <==> InResult(result', id)
    {
      assert id in visited <==> InResult(result, id);
    }
  }

  lemma ExpansionScheduled(links: seq<Link>, dir: Direction, start: Id, visited: set<Id>, queue: seq<Entry>,
                           result: seq<Found>, found: Found, more: seq<Entry>)
    requires queue != [] && AllScheduled(links, dir, start, visited, queue, result)
    requires Expansion(links, dir, visited + {queue[0].id}, queue[0], more)
    requires found.node.id == queue[0].id && found.depth == queue[0].depth
    ensures AllScheduled(links, dir, start, visited + {queue[0].id}, queue[1..] + more, result + [found])
  {
    var visited', queue' := visited + {queue[0].id}, queue[1..] + more;
    ScheduleCarriesOver(visited, queue, more, start, 0);
    forall f | f in result + [found]
      ensures NeighboursScheduled(links, dir, visited', queue', f)
    {
      if f in result {
        NeighboursCarryOver(links, dir, visited, queue, more, f);
      } else if f.depth < MAX_HOPS {
        forall w | Adjacent(links, dir, f.node.id, w)
          ensures Scheduled(visited', queue', w, f.depth + 1)
        {
          var l :| l in links && Leads(l, dir, f.node.id, w);
          if w !in visited' {
            assert Entry(w, f.depth + 1) in more;
            assert Entry(w, f.depth + 1) in queue';
          }
        }
      }
    }
  }

  lemma VisitFound(links: seq<Link>, dir: Direction, visible: map<Id, Node>, start: Id,
                   visited: set<Id>, queue: seq<Entry>, result: seq<Found>, more: seq<Entry>)
    requires Inv(links, dir, visible, start, visited, queue, result)
    requires queue != [] && queue[0].id !in visited && queue[0].id in visible
    requires visible[queue[0].id].id == queue[0].id
    requires Expansion(links, dir, visited + {queue[0].id}, queue[0], more)
    ensures var e := queue[0];
      Inv(links, dir, visible, start, visited + {e.id}, queue[1..] + more, result + [Found(visible[e.id], e.depth)])
  {
    var found := Found(visible[queue[0].id], queue[0].depth);
    FirstSight(links, dir, visible, start, visited, queue, result);
    assert queue[0] in queue;
    ExpansionSorted(queue, more);
    ExpansionJustified(links, dir, start, visited, queue, result, found, more);
    FoundExtends(links, dir, visible, start, visited, queue, result, found);
    ExpansionScheduled(links, dir, start, visited, queue, result, found, more);
  }

  /**
   The subtree dragged along with `startId`: every visible node within four hops along visible
   nodes, once, at its shortest distance, nearest first; and nothing else.
   */
  method GetDragSubtree(nodes: seq<Node>, links: seq<Link>, startId: Id) returns (result: seq<Found>)
    ensures var visible := NodeById(nodes);
      var dir := if startId in visible && visible[startId].issueType == "agent" then Downstream else Both;
      && (forall id :: Near(links, dir, visible.Keys, startId, id, 4) <==> InResult(result, id))
      && ResultCorrect(links, dir, visible, startId, result)
  {
    var nodeById := IndexVisible(nodes);
    result := [];
    var visited: set<Id> := {};
    var queue := [Entry(startId, 0)];
    var isAgent := IsAgent(nodeById, startId);
    ghost var dir := DragDirection(nodeById, startId);
    ghost var universe := {startId} + Endpoints(links);
    InvAtStart(links, dir, nodeById, startId);
    hide Inv, Expansion, Near, QueueWithin, InResult, ResultCorrect;
    while queue != []
      invariant Inv(links, dir, nodeById, startId, visited, queue, result)
      invariant visited <= universe && QueueWithin(queue, universe)
      decreases universe - visited, |queue|
    {
      var id, depth := queue[0].id, queue[0].depth;
      ghost var before := queue;
      queue := queue[1..];
      QueueSplit(before, universe);
      if id in visited {
        SkipVisited(links, dir, nodeById, startId, visited, before, result);
        assert visited + {id} == visited;
        continue;
      }
      if id !in nodeById {
        SkipVisited(links, dir, nodeById, startId, visited, before, result);
        visited := visited + {id};
        continue;
      }
      ghost var seen, found := visited, result;
      visited := visited + {id};
      result := result + [Found(nodeById[id], depth)];
      ghost var rest := queue;
      queue := QueueNeighbours(links, isAgent, visited, id, depth, queue);
      ghost var more := queue[|rest|..];
      assert queue == rest + more;
      QueueJoin(rest, more, universe);
      VisitFound(links, dir, nodeById, startId, seen, before, found, more);
    }
    SearchComplete(links, dir, nodeById, startId, visited, result);
  }

  lemma InvAtStart(links: seq<Link>, dir: Direction, visible: map<Id, Node>, start: Id)
    ensures Inv(links, dir, visible, start, {}, [Entry(start, 0)], [])
  {
    assert [Entry(start, 0)][0] in [Entry(start, 0)];
  }

  /** With the queue empty, what was found is what lies within reach. */
  lemma SearchComplete(links: seq<Link>, dir: Direction, visible: map<Id, Node>, start: Id,
                       visited: set<Id>, result: seq<Found>)
    requires Inv(links, dir, visible, start, visited, [], result)
    ensures forall id :: Near(links, dir, visible.Keys, start, id, MAX_HOPS) <==> InResult(result, id)
    ensures ResultCorrect(links, dir, visible, start, result)
  {
    forall id
      ensures Near(links, dir, visible.Keys, start, id, MAX_HOPS) <==> InResult(result, id)
    {
      if Near(links, dir, visible.Keys, start, id, MAX_HOPS) {
        NearerAreVisited(links, dir, visible, start, visited, [], result, MAX_HOPS, id);
        var walk :| Walk(links, dir, Some(visible.Keys), start, id, walk);
        assert walk[|walk| - 1] in walk;
      }
      if f :| f in result && f.node.id == id {
        MoreHops(links, dir, Some(visible.Keys), start, id, f.depth, MAX_HOPS);
      }
    }
  }
}
