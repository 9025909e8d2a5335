/**
 getConnectedComponent and highlightSubgraph: the two unbounded queue searches of the viewer.
 */
module Highlight {
  import opened Reachability
  import opened Wrappers

  // ----- the invariant both searches share

  /** Everything visited or queued is reachable, and nothing next to a visited id was forgotten. */
  ghost predicate SearchInv(links: seq<Link>, dir: Direction, start: Id, visited: set<Id>, queue: seq<Id>) {
    && (start in visited || start in queue)
    && (forall v <- visited :: Reachable(links, dir, start, v))
    && (forall v <- queue :: Reachable(links, dir, start, v))
    && (forall v, w :: v in visited && Adjacent(links, dir, v, w) ==> w in visited || w in queue)
  }

  /** What one pass over the links queues for `current`. */
  ghost predicate QueuedFor(links: seq<Link>, dir: Direction, visited: set<Id>, current: Id, more: seq<Id>) {
    && (forall w <- more :: Adjacent(links, dir, current, w))
    && (forall l <- links, w :: Leads(l, dir, current, w) && w !in visited ==> w in more)
  }

  lemma SkipKeepsSearch(links: seq<Link>, dir: Direction, start: Id, visited: set<Id>, queue: seq<Id>)
    requires SearchInv(links, dir, start, visited, queue) && queue != [] && queue[0] in visited
    ensures SearchInv(links, dir, start, visited, queue[1..])
  {
    assert forall w <- queue :: w == queue[0] || w in queue[1..];
  }

  lemma VisitKeepsSearch(links: seq<Link>, dir: Direction, start: Id, visited: set<Id>, queue: seq<Id>, more: seq<Id>)
    requires SearchInv(links, dir, start, visited, queue) && queue != []
    requires QueuedFor(links, dir, visited + {queue[0]}, queue[0], more)
    ensures SearchInv(links, dir, start, visited + {queue[0]}, queue[1..] + more)
  {
    var current := queue[0];
    assert forall w <- queue :: w == current || w in queue[1..];
    forall w | w in more
      ensures Reachable(links, dir, start, w)
    {
      ReachableStep(links, dir, start, current, w);
    }
    forall w | Adjacent(links, dir, current, w) && w !in visited + {current}
      ensures w in more
    {
      var l :| l in links && Leads(l, dir, current, w);
    }
  }

  /** With the queue empty the visited ids are exactly the reachable ones. */
  lemma SearchDone(links: seq<Link>, dir: Direction, start: Id, visited: set<Id>)
    requires SearchInv(links, dir, start, visited, [])
    ensures forall id :: id in visited <==> Reachable(links, dir, start, id)
  {
    forall id | Reachable(links, dir, start, id)
      ensures id in visited
    {
      var walk :| Walk(links, dir, None, start, id, walk);
      ClosedSetHoldsWalk(links, dir, visited, start, id, walk);
    }
  }

  /** Looking at one more link can only add its far end. */
  lemma QueuedForGrows(links: seq<Link>, i: nat, dir: Direction, visited: set<Id>, current: Id, more: seq<Id>,
                       added: seq<Id>)
    requires i < |links| && QueuedFor(links[..i], dir, visited, current, more)
    requires forall w <- added :: Leads(links[i], dir, current, w)
    requires forall w :: Leads(links[i], dir, current, w) && w !in visited ==> w in added
    ensures QueuedFor(links[..i + 1], dir, visited, current, more + added)
  {
    assert links[..i + 1] == links[..i] + [links[i]];
    forall w | w in more + added
      ensures Adjacent(links[..i + 1], dir, current, w)
    {
      if w in more {
        var l :| l in links[..i] && Leads(l, dir, current, w);
        assert l in links[..i + 1];
      } else {
        assert links[i] in links[..i + 1];
      }
    }
  }

  // ----- getConnectedComponent

  method GetConnectedComponent(links: seq<Link>, startId: Id) returns (visited: set<Id>)
    ensures forall id :: id in visited <==> Reachable(links, Both, startId, id)
  {
    visited := {};
    var queue := [startId];
    ReachableRefl(links, Both, startId);
    ghost var universe := {startId} + Endpoints(links);
    while queue != []
      invariant SearchInv(links, Both, startId, visited, queue)
      invariant visited <= universe && forall v <- queue :: v in universe
      decreases universe - visited, |queue|
    {
      var current := queue[0];
      ghost var before, seen := queue, visited;
      queue := queue[1..];
      if current in visited {
        SkipKeepsSearch(links, Both, startId, visited, before);
        continue;
      }
      visited := visited + {current};
      ghost var more := [];
      for i := 0 to |links|
        invariant queue == before[1..] + more
        invariant QueuedFor(links[..i], Both, visited, current, more)
        invariant forall v <- queue :: v in universe
      {
        var l := links[i];
        ghost var added := [];
        if l.source == current && l.target !in visited {
          queue, added := queue + [l.target], added + [l.target];
        }
        if l.target == current && l.source !in visited {
          queue, added := queue + [l.source], added + [l.source];
        }
        QueuedForGrows(links, i, Both, visited, current, more, added);
        more := more + added;
      }
      assert links[..|links|] == links;
      VisitKeepsSearch(links, Both, startId, seen, before, more);
    }
    SearchDone(links, Both, startId, visited);
  }

  /** Components partition the ids: belonging together is an equivalence. */
  lemma ComponentsAreEquivalence(links: seq<Link>, u: Id, v: Id, w: Id)
    ensures Reachable(links, Both, u, u)
    ensures Reachable(links, Both, u, v) <==> Reachable(links, Both, v, u)
    ensures Reachable(links, Both, u, v) && Reachable(links, Both, v, w) ==> Reachable(links, Both, u, w)
  {
    ReachableRefl(links, Both, u);
    if Reachable(links, Both, u, v) {
      ReachableFlips(links, Both, u, v);
    }
    if Reachable(links, Both, v, u) {
      ReachableFlips(links, Both, v, u);
    }
    if Reachable(links, Both, u, v) && Reachable(links, Both, v, w) {
      ReachableTransitive(links, Both, u, v, w);
    }
  }

  /** Two searches return either the same component or two that share no id. */
  lemma ComponentsEqualOrDisjoint(links: seq<Link>, u: Id, v: Id, cu: set<Id>, cv: set<Id>)
    requires forall id :: id in cu <==> Reachable(links, Both, u, id)
    requires forall id :: id in cv <==> Reachable(links, Both, v, id)
    ensures if v in cu then cu == cv else cu !! cv
  {
    forall id
      ensures v in cu && id in cu ==> id in cv
      ensures v in cu && id in cv ==> id in cu
      ensures id in cu && id in cv ==> v in cu
    {
      ComponentsAreEquivalence(links, u, v, id);
      ComponentsAreEquivalence(links, v, u, id);
      ComponentsAreEquivalence(links, u, id, v);
      ComponentsAreEquivalence(links, v, id, v);
    }
  }

  // ----- highlightSubgraph

  /** The key under which a link is highlighted. */
  function LinkKey(l: Link): string {
    l.source + "->" + l.target
  }

  /** The end of a link that a walk in direction `dir` leaves from. */
  function NearEnd(l: Link, dir: Direction): Id {
    if dir.Upstream? then l.target else l.source
  }

  function KeysLeaving(links: seq<Link>, dir: Direction, ids: set<Id>): set<string> {
    set l | l in links && NearEnd(l, dir) in ids :: LinkKey(l)
  }

  method HighlightLinksOf(links: seq<Link>, dir: Direction, visited: set<Id>, current: Id,
                          queue: seq<Id>, keys: set<string>)
      returns (queue': seq<Id>, keys': set<string>, ghost more: seq<Id>)
    requires !dir.Both?
    ensures queue' == queue + more && QueuedFor(links, dir, visited, current, more)
    ensures keys' == keys + KeysLeaving(links, dir, {current})
    ensures forall w <- more :: w in Endpoints(links)
  {
    queue', keys', more := queue, keys, [];
    for i := 0 to |links|
      invariant queue' == queue + more && QueuedFor(links[..i], dir, visited, current, more)
      invariant keys' == keys + KeysLeaving(links[..i], dir, {current})
      invariant forall w <- more :: w in Endpoints(links)
    {
      var l := links[i];
      ghost var added := [];
      KeysLeavingGrows(links, i, dir, {current});
      if dir.Downstream? {
        if l.source == current {
          keys' := keys' + {LinkKey(l)};
          if l.target !in visited {
            queue', added := queue' + [l.target], [l.target];
          }
        }
      } else {
        if l.target == current {
          keys' := keys' + {LinkKey(l)};
          if l.source !in visited {
            queue', added := queue' + [l.source], [l.source];
          }
        }
      }
      QueuedForGrows(links, i, dir, visited, current, more, added);
      more := more + added;
    }
    assert links[..|links|] == links;
  }

  lemma KeysLeavingGrows(links: seq<Link>, i: nat, dir: Direction, ids: set<Id>)
    requires i < |links|
    ensures KeysLeaving(links[..i + 1], dir, ids) ==
            KeysLeaving(links[..i], dir, ids) + (if NearEnd(links[i], dir) in ids then {LinkKey(links[i])} else {})
  {
    assert links[..i + 1] == links[..i] + [links[i]];
  }

  method HighlightSubgraph(links: seq<Link>, nodeId: Id, dir: Direction)
      returns (highlightNodes: set<Id>, highlightLinks: set<string>)
    requires !dir.Both?
    ensures forall id :: id in highlightNodes <==> Reachable(links, dir, nodeId, id)
    ensures highlightLinks == KeysLeaving(links, dir, highlightNodes)
  {
    highlightNodes, highlightLinks := {}, {};
    var visited: set<Id> := {};
    var queue := [nodeId];
    ReachableRefl(links, dir, nodeId);
    ghost var universe := {nodeId} + Endpoints(links);
    while queue != []
      invariant SearchInv(links, dir, nodeId, visited, queue)
      invariant highlightNodes == visited && highlightLinks == KeysLeaving(links, dir, visited)
      invariant visited <= universe && forall v <- queue :: v in universe
      decreases universe - visited, |queue|
    {
      var current := queue[0];
      ghost var before, seen := queue, visited;
      queue := queue[1..];
      if current in visited {
        SkipKeepsSearch(links, dir, nodeId, visited, before);
        continue;
      }
      visited := visited + {current};
      highlightNodes := highlightNodes + {current};
      ghost var more;
      queue, highlightLinks, more := HighlightLinksOf(links, dir, visited, current, queue, highlightLinks);
      VisitKeepsSearch(links, dir, nodeId, seen, before, more);
    }
    SearchDone(links, dir, nodeId, visited);
  }

  function ReverseLinks(links: seq<Link>): (r: seq<Link>)
    ensures |r| == |links|
    ensures forall i :: 0 <= i < |links| ==> r[i] == Link(links[i].target, links[i].source, links[i].depType)
  {
    if links == [] then [] else [Link(links[0].target, links[0].source, links[0].depType)] + ReverseLinks(links[1..])
  }

  lemma AdjacentReversed(links: seq<Link>, dir: Direction, v: Id, w: Id)
    ensures Adjacent(ReverseLinks(links), Flip(dir), v, w) <==> Adjacent(links, dir, v, w)
  {
    var rev := ReverseLinks(links);
    if Adjacent(links, dir, v, w) {
      var l :| l in links && Leads(l, dir, v, w);
      var i :| 0 <= i < |links| && links[i] == l;
      assert rev[i] in rev && Leads(rev[i], Flip(dir), v, w);
    }
    if Adjacent(rev, Flip(dir), v, w) {
      var l :| l in rev && Leads(l, Flip(dir), v, w);
      var i :| 0 <= i < |rev| && rev[i] == l;
      assert links[i] in links && Leads(links[i], dir, v, w);
    }
  }

  /** Highlighting upstream is highlighting downstream in the graph with every link turned round. */
  lemma UpstreamIsReversedDownstream(links: seq<Link>, start: Id, id: Id)
    ensures Reachable(links, Upstream, start, id) <==> Reachable(ReverseLinks(links), Downstream, start, id)
  {
    var rev := ReverseLinks(links);
    forall v, w
      ensures Adjacent(rev, Downstream, v, w) <==> Adjacent(links, Upstream, v, w)
    {
      AdjacentReversed(links, Upstream, v, w);
    }
    if Reachable(links, Upstream, start, id) {
      var walk :| Walk(links, Upstream, None, start, id, walk);
      assert Walk(rev, Downstream, None, start, id, walk);
    }
    if Reachable(rev, Downstream, start, id) {
      var walk :| Walk(rev, Downstream, None, start, id, walk);
      assert Walk(links, Upstream, None, start, id, walk);
    }
  }

  // ----- what the keys can and cannot tell apart

  predicate HasArrow(s: string) {
    exists i :: 0 <= i < |s| - 1 && s[i] == '-' && s[i + 1] == '>'
  }

  /** Without an arrow in source ids, a key names one pair of endpoints. */
  lemma KeysIdentifyLinks(a: Link, b: Link)
    requires !HasArrow(a.source) && !HasArrow(b.source)
    ensures LinkKey(a) == LinkKey(b) <==> a.source == b.source && a.target == b.target
  {
    if LinkKey(a) == LinkKey(b) {
      ArrowPosition(a, b);
      ArrowPosition(b, a);
      var k, n := LinkKey(a), |a.source|;
      assert k[..n] == a.source && LinkKey(b)[..n] == b.source;
      assert k[n + 2..] == a.target && LinkKey(b)[n + 2..] == b.target;
    }
  }

  lemma ArrowPosition(a: Link, b: Link)
    requires LinkKey(a) == LinkKey(b) && !HasArrow(b.source)
    ensures |a.source| >= |b.source|
  {
    var k, n := LinkKey(a), |a.source|;
    assert k[n] == '-' && k[n + 1] == '>' && k[|b.source|] == '-';
    assert forall i | 0 <= i < |b.source| :: k[i] == b.source[i];
  }

  /** A link is highlighted exactly when it leaves the ids. */
  ghost predicate ExactFor(links: seq<Link>, dir: Direction, ids: set<Id>) {
    forall l <- links :: LinkKey(l) in KeysLeaving(links, dir, ids) <==> NearEnd(l, dir) in ids
  }

  /** Two links that share a key leave from the same id. */
  ghost predicate KeysTellApart(links: seq<Link>, dir: Direction) {
    forall a, b :: a in links && b in links && LinkKey(a) == LinkKey(b) ==> NearEnd(a, dir) == NearEnd(b, dir)
  }

  /** Highlighting is exact for every set of ids iff no two links leaving from different ids share a key. */
  lemma ExactForAllIff(links: seq<Link>, dir: Direction)
    ensures KeysTellApart(links, dir) <==> forall ids :: ExactFor(links, dir, ids)
  {
    if KeysTellApart(links, dir) {
      forall ids: set<Id>
        ensures ExactFor(links, dir, ids)
      {
      }
    }
    if a, b :| a in links && b in links && LinkKey(a) == LinkKey(b) && NearEnd(a, dir) != NearEnd(b, dir) {
      assert LinkKey(b) in KeysLeaving(links, dir, {NearEnd(a, dir)});
      assert !ExactFor(links, dir, {NearEnd(a, dir)});
    }
  }

  /** What highlightSubgraph reaches from `start`. */
  ghost function ReachedFrom(links: seq<Link>, dir: Direction, start: Id): set<Id> {
    set id | id in {start} + Endpoints(links) && Reachable(links, dir, start, id)
  }

  lemma ReachedFromExactly(links: seq<Link>, dir: Direction, start: Id)
    ensures forall id :: id in ReachedFrom(links, dir, start) <==> Reachable(links, dir, start, id)
  {
    forall id | Reachable(links, dir, start, id)
      ensures id in {start} + Endpoints(links)
    {
      var walk :| Walk(links, dir, None, start, id, walk);
      ClosedSetHoldsWalk(links, dir, {start} + Endpoints(links), start, id, walk);
    }
  }

  /**
   A key is highlighted iff it is that of a link whose source is reached, or whose target is, upstream; the
   other end is then reached as well.
   */
  lemma HighlightedLinks(links: seq<Link>, start: Id, key: string)
    ensures key in KeysLeaving(links, Downstream, ReachedFrom(links, Downstream, start)) <==>
            exists l <- links :: key == l.source + "->" + l.target && Reachable(links, Downstream, start, l.source)
    ensures key in KeysLeaving(links, Upstream, ReachedFrom(links, Upstream, start)) <==>
            exists l <- links :: key == l.source + "->" + l.target && Reachable(links, Upstream, start, l.target)
    ensures forall l <- links :: Reachable(links, Downstream, start, l.source) ==>
              Reachable(links, Downstream, start, l.target)
    ensures forall l <- links :: Reachable(links, Upstream, start, l.target) ==>
              Reachable(links, Upstream, start, l.source)
  {
    ReachedFromExactly(links, Downstream, start);
    ReachedFromExactly(links, Upstream, start);
    forall l | l in links && Reachable(links, Downstream, start, l.source)
      ensures Reachable(links, Downstream, start, l.target)
    {
      assert Leads(l, Downstream, l.source, l.target);
      ReachableStep(links, Downstream, start, l.source, l.target);
    }
    forall l | l in links && Reachable(links, Upstream, start, l.target)
      ensures Reachable(links, Upstream, start, l.source)
    {
      assert Leads(l, Upstream, l.target, l.source);
      ReachableStep(links, Upstream, start, l.target, l.source);
    }
    hide Reachable, ReachedFrom;
  }

  /**
   For what highlightSubgraph computes less is enough, and needed: links that share a key must leave
   from ids that reach each other.
   */
  lemma HighlightExactIff(links: seq<Link>, dir: Direction)
    ensures (forall a, b :: a in links && b in links && LinkKey(a) == LinkKey(b) ==>
               Reachable(links, dir, NearEnd(a, dir), NearEnd(b, dir)))
            <==> forall start :: ExactFor(links, dir, ReachedFrom(links, dir, start))
  {
    if forall a, b :: a in links && b in links && LinkKey(a) == LinkKey(b) ==>
         Reachable(links, dir, NearEnd(a, dir), NearEnd(b, dir))
    {
      forall start: Id
        ensures ExactFor(links, dir, ReachedFrom(links, dir, start))
      {
        ReachedFromExactly(links, dir, start);
        forall l | l in links && LinkKey(l) in KeysLeaving(links, dir, ReachedFrom(links, dir, start))
          ensures NearEnd(l, dir) in ReachedFrom(links, dir, start)
        {
          var k :| k in links && NearEnd(k, dir) in ReachedFrom(links, dir, start) && LinkKey(k) == LinkKey(l);
          ReachableTransitive(links, dir, start, NearEnd(k, dir), NearEnd(l, dir));
        }
      }
    } else {
      var a, b :| a in links && b in links && LinkKey(a) == LinkKey(b)
          && !Reachable(links, dir, NearEnd(a, dir), NearEnd(b, dir));
      var start := NearEnd(a, dir);
      ReachedFromExactly(links, dir, start);
      ReachableRefl(links, dir, start);
      assert LinkKey(b) in KeysLeaving(links, dir, ReachedFrom(links, dir, start));
      assert !ExactFor(links, dir, ReachedFrom(links, dir, start));
    }
  }

  /** Without arrows in source ids a link is highlighted exactly when it leaves the reached set. */
  lemma HighlightedIffLeaving(links: seq<Link>, dir: Direction, ids: set<Id>)
    requires forall k <- links :: !HasArrow(k.source)
    ensures ExactFor(links, dir, ids)
  {
    forall a, b | a in links && b in links && LinkKey(a) == LinkKey(b)
      ensures NearEnd(a, dir) == NearEnd(b, dir)
    {
      KeysIdentifyLinks(a, b);
    }
    ExactForAllIff(links, dir);
  }

  /** With an arrow inside an id, a link that leaves nothing reached can share a highlighted key. */
  lemma ArrowIdsCollide()
    ensures var links := [Link("a", "b->c", "blocks"), Link("a->b", "c", "blocks")];
      && !Reachable(links, Downstream, "a", "a->b")
      && LinkKey(links[1]) in KeysLeaving(links, Downstream, {"a", "b->c"})
  {
    var links := [Link("a", "b->c", "blocks"), Link("a->b", "c", "blocks")];
    assert |"a->b"| == 4;
    forall v, w | v in {"a", "b->c"} && Adjacent(links, Downstream, v, w)
      ensures w in {"a", "b->c"}
    {
      assert "b->c"[0] == 'b' && "a->b"[0] == 'a';
    }
    forall walk | Walk(links, Downstream, None, "a", "a->b", walk)
      ensures "a->b" in {"a", "b->c"}
    {
      ClosedSetHoldsWalk(links, Downstream, {"a", "b->c"}, "a", "a->b", walk);
    }
    assert "a->b"[0] == 'a' && "b->c"[0] == 'b';
    assert LinkKey(links[1]) == LinkKey(links[0]);
    assert links[0] in links && NearEnd(links[0], Downstream) in {"a", "b->c"};
  }
}
