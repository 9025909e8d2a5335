/**
 Walks in the viewer's link list: the reference definitions that the queue-based searches are
 proved against.
 */
module Reachability {
  import opened Wrappers

  type Id = string

  datatype Link = Link(source: Id, target: Id, depType: string)

  /** Which end of a link a search may leave from. */
  datatype Direction = Downstream | Upstream | Both

  predicate Leads(l: Link, dir: Direction, from: Id, to: Id) {
    || (!dir.Upstream? && l.source == from && l.target == to)
    || (!dir.Downstream? && l.target == from && l.source == to)
  }

  predicate Adjacent(links: seq<Link>, dir: Direction, from: Id, to: Id) {
    exists l <- links :: Leads(l, dir, from, to)
  }

  /** A walk may be confined to a set of ids. */
  predicate Allowed(within: Option<set<Id>>, id: Id) {
    within.None? || id in within.value
  }

  /** `walk` goes from `from` to `to` along links, through allowed ids only. */
  ghost predicate Walk(links: seq<Link>, dir: Direction, within: Option<set<Id>>, from: Id, to: Id, walk: seq<Id>) {
    && walk != [] && walk[0] == from && walk[|walk| - 1] == to
    && (forall id <- walk :: Allowed(within, id))
    && (forall i :: 0 <= i < |walk| - 1 ==> Adjacent(links, dir, walk[i], walk[i + 1]))
  }

  /** Some walk of at most `hops` links leads from `from` to `to`. */
  ghost predicate WithinHops(links: seq<Link>, dir: Direction, within: Option<set<Id>>, from: Id, to: Id, hops: nat) {
    exists walk :: Walk(links, dir, within, from, to, walk) && |walk| - 1 <= hops
  }

  ghost predicate Reachable(links: seq<Link>, dir: Direction, from: Id, to: Id) {
    exists walk :: Walk(links, dir, None, from, to, walk)
  }

  // ----- building and splitting walks

  lemma WalkStays(links: seq<Link>, dir: Direction, within: Option<set<Id>>, from: Id, hops: nat)
    requires Allowed(within, from)
    ensures WithinHops(links, dir, within, from, from, hops)
  {
    assert Walk(links, dir, within, from, from, [from]);
  }

  lemma WalkExtends(links: seq<Link>, dir: Direction, within: Option<set<Id>>, from: Id, mid: Id, to: Id, hops: nat)
    requires WithinHops(links, dir, within, from, mid, hops)
    requires Adjacent(links, dir, mid, to) && Allowed(within, to)
    ensures WithinHops(links, dir, within, from, to, hops + 1)
  {
    var walk :| Walk(links, dir, within, from, mid, walk) && |walk| - 1 <= hops;
    assert Walk(links, dir, within, from, to, walk + [to]);
  }

  lemma LastStep(links: seq<Link>, dir: Direction, within: Option<set<Id>>, from: Id, to: Id, hops: nat)
      returns (mid: Id)
    requires WithinHops(links, dir, within, from, to, hops + 1)
    requires !WithinHops(links, dir, within, from, to, hops)
    ensures WithinHops(links, dir, within, from, mid, hops) && Adjacent(links, dir, mid, to)
    ensures Allowed(within, to)
  {
    var walk :| Walk(links, dir, within, from, to, walk) && |walk| - 1 <= hops + 1;
    assert |walk| >= 2;
    var front := walk[..|walk| - 1];
    mid := front[|front| - 1];
    assert Walk(links, dir, within, from, mid, front);
    assert Adjacent(links, dir, walk[|walk| - 2], walk[|walk| - 1]);
  }

  lemma MoreHops(links: seq<Link>, dir: Direction, within: Option<set<Id>>, from: Id, to: Id, less: nat, more: nat)
    requires less <= more && WithinHops(links, dir, within, from, to, less)
    ensures WithinHops(links, dir, within, from, to, more)
  {
    var walk :| Walk(links, dir, within, from, to, walk) && |walk| - 1 <= less;
  }

  lemma ZeroHops(links: seq<Link>, dir: Direction, within: Option<set<Id>>, from: Id, to: Id)
    ensures WithinHops(links, dir, within, from, to, 0) <==> from == to && Allowed(within, from)
  {
    if from == to && Allowed(within, from) {
      WalkStays(links, dir, within, from, 0);
    }
  }

  // ----- reachability as a relation

  /** A set that contains `from` and everything adjacent to its members contains all that is reachable. */
  lemma {:induction false} ClosedSetHoldsWalk(links: seq<Link>, dir: Direction, closed: set<Id>, from: Id, to: Id,
                                              walk: seq<Id>)
    requires from in closed && Walk(links, dir, None, from, to, walk)
    requires forall v, w :: v in closed && Adjacent(links, dir, v, w) ==> w in closed
    ensures to in closed
    decreases |walk|
  {
    if |walk| > 1 {
      assert Adjacent(links, dir, walk[0], walk[1]);
      var rest := walk[1..];
      forall i | 0 <= i < |rest| - 1
        ensures Adjacent(links, dir, rest[i], rest[i + 1])
      {
        assert Adjacent(links, dir, walk[i + 1], walk[i + 1 + 1]);
      }
      ClosedSetHoldsWalk(links, dir, closed, walk[1], to, rest);
    }
  }

  lemma ReachableRefl(links: seq<Link>, dir: Direction, v: Id)
    ensures Reachable(links, dir, v, v)
  {
    assert Walk(links, dir, None, v, v, [v]);
  }

  lemma ReachableStep(links: seq<Link>, dir: Direction, from: Id, mid: Id, to: Id)
    requires Reachable(links, dir, from, mid) && Adjacent(links, dir, mid, to)
    ensures Reachable(links, dir, from, to)
  {
    var walk :| Walk(links, dir, None, from, mid, walk);
    assert Walk(links, dir, None, from, to, walk + [to]);
  }

  lemma ReachableTransitive(links: seq<Link>, dir: Direction, u: Id, v: Id, w: Id)
    requires Reachable(links, dir, u, v) && Reachable(links, dir, v, w)
    ensures Reachable(links, dir, u, w)
  {
    var p :| Walk(links, dir, None, u, v, p);
    var q :| Walk(links, dir, None, v, w, q);
    var walk := p + q[1..];
    forall i | 0 <= i < |walk| - 1
      ensures Adjacent(links, dir, walk[i], walk[i + 1])
    {
      if i < |p| - 1 {
        assert Adjacent(links, dir, p[i], p[i + 1]);
      } else {
        var j := i - (|p| - 1);
        assert Adjacent(links, dir, q[j], q[j + 1]);
      }
    }
    assert Walk(links, dir, None, u, w, walk);
  }

  function Flip(dir: Direction): Direction {
    match dir
    case Downstream => Upstream
    case Upstream => Downstream
    case Both => Both
  }

  function Reversed(walk: seq<Id>): (r: seq<Id>)
    ensures |r| == |walk|
    ensures forall i :: 0 <= i < |walk| ==> r[i] == walk[|walk| - 1 - i]
  {
    if walk == [] then [] else Reversed(walk[1..]) + [walk[0]]
  }

  /** Walking back along a path needs the opposite direction. */
  lemma ReachableFlips(links: seq<Link>, dir: Direction, u: Id, v: Id)
    requires Reachable(links, dir, u, v)
    ensures Reachable(links, Flip(dir), v, u)
  {
    var p :| Walk(links, dir, None, u, v, p);
    var r := Reversed(p);
    forall i | 0 <= i < |r| - 1
      ensures Adjacent(links, Flip(dir), r[i], r[i + 1])
    {
      var j := |p| - 2 - i;
      assert Adjacent(links, dir, p[j], p[j + 1]);
      var l :| l in links && Leads(l, dir, p[j], p[j + 1]);
      assert Leads(l, Flip(dir), p[j + 1], p[j]);
    }
    assert Walk(links, Flip(dir), None, v, u, r);
  }

  // ----- the finite universe of a search

  function Endpoints(links: seq<Link>): (ids: set<Id>)
    ensures forall l <- links :: l.source in ids && l.target in ids
  {
    if links == [] then {} else {links[0].source, links[0].target} + Endpoints(links[1..])
  }
}
