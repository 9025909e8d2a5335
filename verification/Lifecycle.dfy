/**
 What pouring and burning guarantee: exact shape, crash safety, undo, and ordering.

 Most results hold of any work asked of the store; `WorkFor` ties the work to the steps it is for.
 */
module Lifecycle {
  import opened Wrappers
  import opened BeadStore
  import opened Formula
  import opened Molecule
  import opened Burn
  import opened Walks
  import Template

  // ----- crash safety

  /** The step beads that do not yet hang below the molecule. */
  function Unlinked(g: Progress): seq<Id>
    requires g.linked <= |g.created|
  {
    g.created[g.linked..]
  }

  /** A reached state in terms of ids and edges only. */
  ghost predicate Extends(before: Contents, after: Contents, mol: Id, created: seq<Id>, linked: nat, blocks: set<Dep>) {
    && FreshIds(before, mol, created) && linked <= |created| <= linked + 1
    && after.beads.Keys == before.beads.Keys + {mol} + (set c | c in created)
    && (forall id <- before.beads :: after.beads[id] == before.beads[id])
    && after.deps == before.deps + ParentDeps(created[..linked], mol) + blocks
    && (forall d <- blocks :: d.bead in created && d.dependsOn in created && d.typ == "blocks")
    && (blocks != {} ==> linked == |created|)
  }

  lemma ReachedExtends(w: Work, before: Contents, after: Contents, g: Progress)
    requires Reached(w, before, after, g) && g.mol.Some?
    ensures Extends(before, after, g.mol.value, g.created, g.linked, BlockDeps(g.created, w.edges[..g.ordered]))
  {
    assert w.edges[..0] == [] && BlockDeps(g.created, []) == {};
    hide NoRepeats, Stored;
  }

  lemma ExtendsStaysClosed(before: Contents, after: Contents, mol: Id, created: seq<Id>, linked: nat, blocks: set<Dep>)
    requires Closed(before) && Extends(before, after, mol, created, linked, blocks)
    ensures Closed(after) && before.deps <= after.deps
    ensures forall d <- after.deps - before.deps :: d.bead !in before.beads && d.dependsOn !in before.beads
  {
    assert forall c <- created[..linked] :: c in created;
  }

  /**
   Wherever a pour stops, nothing that was there is touched, no dependency lacks an end, at most one
   step bead is not linked, and ordering edges exist only once every step is created and linked.
   */
  lemma CrashSafe(w: Work, before: Contents, after: Contents, g: Progress)
    requires Closed(before) && Reached(w, before, after, g)
    ensures Closed(after)
    ensures |Unlinked(g)| <= 1
    ensures forall id <- before.beads :: id in after.beads && after.beads[id] == before.beads[id]
    ensures before.deps <= after.deps
    ensures forall d <- after.deps - before.deps :: d.bead !in before.beads && d.dependsOn !in before.beads
    ensures (exists d <- after.deps - before.deps :: d.typ == "blocks") ==>
              |g.created| == |w.beads| && forall c <- g.created :: Parent(c, g.mol.value) in after.deps
  {
    if g.mol.Some? {
      ReachedExtends(w, before, after, g);
      var blocks := BlockDeps(g.created, w.edges[..g.ordered]);
      ExtendsStaysClosed(before, after, g.mol.value, g.created, g.linked, blocks);
      if d :| d in after.deps - before.deps && d.typ == "blocks" {
        assert d in blocks && w.edges[..g.ordered] != [];
        assert g.created[..g.linked] == g.created;
      }
    }
  }

  // ----- the shape of a finished molecule

  /** The orderings among active steps. */
  function ActiveOrder(active: seq<Step>): set<Edge> {
    set e | e in DependsOn(active) && e.1 in StepIds(active)
  }

  /** The dependencies of a type, as plain pairs. */
  function Pairs(deps: set<Dep>, typ: string): set<Edge> {
    set d | d in deps && d.typ == typ :: (d.bead, d.dependsOn)
  }

  function AllPairs(deps: set<Dep>): set<Edge> {
    set d | d in deps :: (d.bead, d.dependsOn)
  }

  /** The work is that of these steps: ids distinct, a bead for each, and an edge for each order among them. */
  ghost predicate WorkFor(w: Work, active: seq<Step>) {
    && DistinctIds(active) && |w.beads| == |active|
    && forall e :: e in w.edges <==> e.0 < |active| && e.1 < |active| && active[e.1].id in active[e.0].dependsOn
  }

  lemma {:induction false} PlaceIs(active: seq<Step>, i: nat)
    requires DistinctIds(active) && i < |active|
    ensures Place(active, active[i].id) == Some(i)
  {
    if i < |active| - 1 {
      PlaceIs(active[..|active| - 1], i);
    }
  }

  lemma {:induction false} StepPlacesExact(active: seq<Step>, i: nat, deps: seq<string>)
    requires DistinctIds(active)
    ensures forall e :: e in StepPlaces(active, i, deps) <==> e.0 == i && e.1 < |active| && active[e.1].id in deps
  {
    if deps != [] {
      var front, last := deps[..|deps| - 1], deps[|deps| - 1];
      StepPlacesExact(active, i, front);
      assert deps == front + [last];
      forall j | 0 <= j < |active|
        ensures active[j].id == last <==> Place(active, last) == Some(j)
      {
        PlaceIs(active, j);
      }
      hide Place, StepIds;
    }
  }

  lemma {:induction false} EdgePlacesExact(active: seq<Step>, n: nat)
    requires DistinctIds(active) && n <= |active|
    ensures forall e :: e in EdgePlaces(active, n) <==>
        e.0 < n && e.1 < |active| && active[e.1].id in active[e.0].dependsOn
  {
    if n > 0 {
      EdgePlacesExact(active, n - 1);
      PlaceIs(active, n - 1);
      StepPlacesExact(active, n - 1, active[n - 1].dependsOn);
      hide Place, StepPlaces;
    }
  }

  /** The work of a plan with distinct ids is the work of its steps. */
  lemma PlannedWork(p: Plan)
    requires DistinctIds(p.active)
    ensures WorkFor(WorkOf(p), p.active)
  {
    WorkFacts(p);
    EdgePlacesExact(p.active, |p.active|);
    hide WorkOf, StepBead, MoleculeBead, EdgePlaces;
  }

  function StepToBead(active: seq<Step>, g: Progress): map<string, Id>
    requires |g.created| <= |active|
  {
    IdMap(active, g.created)
  }

  lemma StepToBeadExact(active: seq<Step>, g: Progress)
    requires |g.created| == |active| && NoRepeats(g.created) && DistinctIds(active)
    ensures Injective(StepToBead(active, g)) && StepToBead(active, g).Keys == StepIds(active)
    ensures forall i :: 0 <= i < |active| ==>
        active[i].id in StepToBead(active, g) && StepToBead(active, g)[active[i].id] == g.created[i]
    ensures StepToBead(active, g).Values == set c | c in g.created
  {
    NamesOfAll(active, g.created);
    var m := StepToBead(active, g);
    forall i | 0 <= i < |active|
      ensures active[i].id in m && m[active[i].id] == g.created[i]
    {
      PlaceIs(active, i);
      assert active[i] in active;
    }
    hide IdMap, Place;
    InjectiveFromPlaces(active, g.created, m);
    ValuesFromPlaces(active, g.created, m);
  }

  lemma InjectiveFromPlaces(active: seq<Step>, created: seq<Id>, m: map<string, Id>)
    requires |created| == |active| && NoRepeats(created) && m.Keys == StepIds(active)
    requires forall i :: 0 <= i < |active| ==> active[i].id in m && m[active[i].id] == created[i]
    ensures Injective(m)
  {
    forall a, b | a in m && b in m && m[a] == m[b]
      ensures a == b
    {
      var i := PlaceOf(active, a);
      var j := PlaceOf(active, b);
      assert created[i] == created[j];
    }
  }

  lemma PlaceOf(active: seq<Step>, id: string) returns (i: nat)
    requires id in StepIds(active)
    ensures i < |active| && active[i].id == id
  {
    var s :| s in active && s.id == id;
    i :| 0 <= i < |active| && active[i] == s;
  }

  lemma ValuesFromPlaces(active: seq<Step>, created: seq<Id>, m: map<string, Id>)
    requires |created| == |active| && m.Keys == StepIds(active)
    requires forall i :: 0 <= i < |active| ==> active[i].id in m && m[active[i].id] == created[i]
    ensures m.Values == set c | c in created
  {
    forall c | c in created
      ensures c in m.Values
    {
      var i :| 0 <= i < |created| && created[i] == c;
      assert active[i].id in m;
    }
    forall c | c in m.Values
      ensures c in created
    {
      var id :| id in m && m[id] == c;
      var i := PlaceOf(active, id);
    }
  }

  /** In a finished pour the ordering edges are the image of the order among active steps. */
  lemma BlocksAreImage(w: Work, active: seq<Step>, g: Progress)
    requires WorkFor(w, active) && Complete(w, g) && NoRepeats(g.created)
    ensures IsImage(ActiveOrder(active), StepToBead(active, g), AllPairs(BlockDeps(g.created, w.edges)))
  {
    var m, blocks := StepToBead(active, g), BlockDeps(g.created, w.edges);
    StepToBeadExact(active, g);
    hide StepToBead, Injective, NoRepeats;
    forall e | e in ActiveOrder(active)
      ensures e.0 in m && e.1 in m && (m[e.0], m[e.1]) in AllPairs(blocks)
    {
      var i, j := OrderAtPlaces(active, e);
      assert (i, j) in w.edges;
      assert Blocks(g.created[i], g.created[j]) in blocks;
    }
    forall f | f in AllPairs(blocks)
      ensures exists e <- ActiveOrder(active) :: f == (m[e.0], m[e.1])
    {
      var d :| d in blocks && f == (d.bead, d.dependsOn);
      var e :| e in w.edges && e.0 < |g.created| && e.1 < |g.created| && d == Blocks(g.created[e.0], g.created[e.1]);
      PlacesAreOrder(active, e.0, e.1);
      assert f == (m[active[e.0].id], m[active[e.1].id]);
    }
  }

  lemma OrderAtPlaces(active: seq<Step>, e: Edge) returns (i: nat, j: nat)
    requires e in ActiveOrder(active) && DistinctIds(active)
    ensures i < |active| && j < |active| && active[i].id == e.0 && active[j].id == e.1 && e.1 in active[i].dependsOn
  {
    var s :| s in active && s.id == e.0 && e.1 in s.dependsOn;
    i :| 0 <= i < |active| && active[i] == s;
    j := PlaceOf(active, e.1);
  }

  lemma PlacesAreOrder(active: seq<Step>, i: nat, j: nat)
    requires i < |active| && j < |active| && active[j].id in active[i].dependsOn
    ensures (active[i].id, active[j].id) in ActiveOrder(active)
  {
    assert active[i] in active && active[j] in active;
  }

  /**
   A finished pour creates one molecule and one bead per active step, all of them new, and nothing
   else; the step-to-bead map is injective.
   */
  lemma PourCreatesBeads(w: Work, active: seq<Step>, before: Contents, after: Contents, g: Progress)
    requires WorkFor(w, active) && Reached(w, before, after, g) && Complete(w, g)
    ensures var mol, m := g.mol.value, StepToBead(active, g);
      && m.Keys == StepIds(active) && Injective(m) && m.Values !! before.beads.Keys + {mol}
      && after.beads.Keys == before.beads.Keys + {mol} + m.Values
      && mol !in before.beads && after.beads[mol] == Stored(w.molecule)
      && (forall i :: 0 <= i < |active| ==> active[i].id in m && after.beads[m[active[i].id]] == Stored(w.beads[i]))
  {
    StepToBeadExact(active, g);
    hide StepToBead, WorkFor, Injective, NoRepeats, Stored, StepIds;
  }

  /** It adds one parent-child edge per step bead and ordering edges, and no other dependency. */
  lemma PourLinksEveryStep(w: Work, active: seq<Step>, before: Contents, after: Contents, g: Progress)
    requires Closed(before) && WorkFor(w, active) && Reached(w, before, after, g) && Complete(w, g)
    ensures Pairs(after.deps - before.deps, "parent-child") ==
            (set b | b in StepToBead(active, g).Values :: (b, g.mol.value))
    ensures forall d <- after.deps - before.deps :: d.typ == "parent-child" || d.typ == "blocks"
  {
    FinishedExtends(w, before, after, g);
    StepToBeadExact(active, g);
    hide Reached, StepToBead, Extends, Pairs, Complete, Closed, FreshIds, WorkFor, Injective;
    NewDeps(before, after, g.mol.value, g.created, BlockDeps(g.created, w.edges));
  }

  /** Its ordering edges are, under the step-to-bead map, exactly the order among active steps. */
  lemma PourKeepsOrder(w: Work, active: seq<Step>, before: Contents, after: Contents, g: Progress)
    requires Closed(before) && WorkFor(w, active) && Reached(w, before, after, g) && Complete(w, g)
    ensures IsImage(ActiveOrder(active), StepToBead(active, g), Pairs(after.deps - before.deps, "blocks"))
  {
    FinishedExtends(w, before, after, g);
    BlocksAreImage(w, active, g);
    hide Reached, StepToBead, Extends, Pairs, Complete, Closed, FreshIds, IsImage, ActiveOrder, WorkFor;
    NewDeps(before, after, g.mol.value, g.created, BlockDeps(g.created, w.edges));
  }

  lemma FinishedExtends(w: Work, before: Contents, after: Contents, g: Progress)
    requires Reached(w, before, after, g) && Complete(w, g)
    ensures Extends(before, after, g.mol.value, g.created, |g.created|, BlockDeps(g.created, w.edges))
    ensures NoRepeats(g.created)
  {
    ReachedExtends(w, before, after, g);
    assert w.edges[..|w.edges|] == w.edges;
    hide BlockDeps, Extends;
  }

  lemma NewDeps(before: Contents, after: Contents, mol: Id, created: seq<Id>, blocks: set<Dep>)
    requires Closed(before) && Extends(before, after, mol, created, |created|, blocks)
    ensures after.deps - before.deps == ParentDeps(created, mol) + blocks
    ensures Pairs(after.deps - before.deps, "parent-child") == (set c | c in created :: (c, mol))
    ensures Pairs(after.deps - before.deps, "blocks") == AllPairs(blocks)
    ensures forall d <- after.deps - before.deps :: d.typ == "parent-child" || d.typ == "blocks"
  {
    assert created[..|created|] == created;
    var extra := after.deps - before.deps;
    assert extra == ParentDeps(created, mol) + blocks;
    forall c | c in created
      ensures (c, mol) in Pairs(extra, "parent-child")
    {
      assert Parent(c, mol) in extra;
    }
    forall d | d in blocks
      ensures (d.bead, d.dependsOn) in Pairs(extra, "blocks")
    {
      assert d in extra;
    }
  }

  // ----- when a pour succeeds

  /** What the store itself can object to is visible in the work. */
  ghost predicate Pourable(w: Work, types: set<string>) {
    AllAccepted(w, types) && NoRepeats(w.edges)
  }

  /**
   A pour that ran to an end either failed for want of the store, or succeeded exactly when the work
   could be done: titles, priorities and types acceptable, and no ordering edge asked for twice.
   */
  lemma PourSucceedsIffPourable(w: Work, types: set<string>, before: Contents, after: Contents, g: Progress,
                                r: Result<(), StoreError>)
    requires Reached(w, before, after, g)
    requires r.Ok? ==> Complete(w, g) && AllAccepted(w, types)
    requires r.Err? ==> Explained(w, types, g, r.error) && !r.error.Unavailable?
    ensures r.Ok? <==> Pourable(w, types)
  {
    assert w.edges[..|w.edges|] == w.edges;
    hide Acceptable, NoRepeats;
  }

  function Known(deps: seq<string>, ids: set<string>): seq<string> {
    if deps == [] then []
    else Known(deps[..|deps| - 1], ids) + (if deps[|deps| - 1] in ids then [deps[|deps| - 1]] else [])
  }

  lemma {:induction false} StepPlacesAreKnown(active: seq<Step>, i: nat, deps: seq<string>)
    ensures var known, places := Known(deps, StepIds(active)), StepPlaces(active, i, deps);
      && |places| == |known|
      && forall k :: 0 <= k < |known| ==> known[k] in StepIds(active) && places[k] == (i, Place(active, known[k]).value)
  {
    if deps != [] {
      StepPlacesAreKnown(active, i, deps[..|deps| - 1]);
      hide Place;
    }
  }

  lemma StepRepeatsIff(active: seq<Step>, i: nat, deps: seq<string>)
    ensures NoRepeats(StepPlaces(active, i, deps)) <==> NoRepeats(Known(deps, StepIds(active)))
  {
    StepPlacesAreKnown(active, i, deps);
    var known, places := Known(deps, StepIds(active)), StepPlaces(active, i, deps);
    hide Known, StepPlaces;
    if !NoRepeats(known) {
      var j, k :| 0 <= j < k < |known| && known[j] == known[k];
      assert places[j] == places[k];
    }
    if !NoRepeats(places) {
      var j, k :| 0 <= j < k < |places| && places[j] == places[k];
      assert active[Place(active, known[j]).value].id == known[j];
      assert active[Place(active, known[k]).value].id == known[k];
    }
  }

  /** No edge is asked for twice exactly when no step names a kept step twice. */
  lemma {:induction false} NoEdgeTwiceIff(active: seq<Step>, n: nat)
    requires DistinctIds(active) && n <= |active|
    ensures NoRepeats(EdgePlaces(active, n)) <==>
            forall i :: 0 <= i < n ==> NoRepeats(Known(active[i].dependsOn, StepIds(active)))
  {
    if n > 0 {
      NoEdgeTwiceIff(active, n - 1);
      var a, b := EdgePlaces(active, n - 1), StepPlaces(active, n - 1, active[n - 1].dependsOn);
      PlaceIs(active, n - 1);
      EdgePlacesExact(active, n - 1);
      StepPlacesExact(active, n - 1, active[n - 1].dependsOn);
      StepRepeatsIff(active, n - 1, active[n - 1].dependsOn);
      assert EdgePlaces(active, n) == a + b;
      ConcatRepeats(a, b);
      hide Known, StepPlaces, EdgePlaces, NoRepeats, Place;
    }
  }

  lemma ConcatRepeats(a: seq<(nat, nat)>, b: seq<(nat, nat)>)
    requires forall e <- a :: e !in b
    ensures NoRepeats(a + b) <==> NoRepeats(a) && NoRepeats(b)
  {
    var s := a + b;
    if NoRepeats(s) {
      assert forall i, j | 0 <= i < j < |a| :: s[i] == a[i] && s[j] == a[j] && a[i] != a[j];
      forall i, j | 0 <= i < j < |b|
        ensures b[i] != b[j]
      {
        assert s[|a| + i] == b[i] && s[|a| + j] == b[j];
      }
    }
    if NoRepeats(a) && NoRepeats(b) {
      forall i, j | 0 <= i < j < |s|
        ensures s[i] != s[j]
      {
        if i < |a| <= j {
          assert s[i] in a && s[j] == b[j - |a|];
        }
      }
    }
  }

  // ----- burning

  lemma ChildrenOfMolecule(w: Work, before: Contents, after: Contents, g: Progress)
    requires Closed(before) && Reached(w, before, after, g) && g.mol.Some?
    ensures Children(after, g.mol.value) == set c | c in g.created[..g.linked]
  {
    ReachedExtends(w, before, after, g);
    ExtendsChildren(before, after, g.mol.value, g.created, g.linked, BlockDeps(g.created, w.edges[..g.ordered]));
    hide Reached;
  }

  lemma ExtendsChildren(before: Contents, after: Contents, mol: Id, created: seq<Id>, linked: nat, blocks: set<Dep>)
    requires Closed(before) && Extends(before, after, mol, created, linked, blocks)
    ensures Children(after, mol) == set c | c in created[..linked]
  {
    forall c | c in created[..linked]
      ensures c in Children(after, mol)
    {
      assert Parent(c, mol) in after.deps;
    }
  }

  /**
   What a burn leaves of a pour: the step beads that it could not delete, those that were never linked, and
   the order among the former. All that was there before is as it was.
   */
  ghost predicate Leftover(before: Contents, left: Contents, unlinked: seq<Id>, failed: set<Id>) {
    && left.beads.Keys == before.beads.Keys + (set c | c in unlinked) + failed
    && (forall id <- before.beads :: left.beads[id] == before.beads[id])
    && before.deps <= left.deps
    && (forall d <- left.deps - before.deps :: d.bead in failed && d.dependsOn in failed && d.typ == "blocks")
  }

  /** Wherever the pour stopped, and whichever children the burn could not delete. */
  lemma BurnLeaves(w: Work, before: Contents, after: Contents, g: Progress, failed: set<Id>)
    requires Closed(before) && Reached(w, before, after, g) && g.mol.Some?
    requires failed <= Children(after, g.mol.value)
    ensures Leftover(before, Erase(after, Children(after, g.mol.value) - failed + {g.mol.value}), Unlinked(g), failed)
  {
    ChildrenOfMolecule(w, before, after, g);
    ReachedExtends(w, before, after, g);
    hide Reached, Leftover;
    EraseExtension(before, after, g.mol.value, g.created, g.linked, BlockDeps(g.created, w.edges[..g.ordered]), failed);
  }

  lemma EraseExtension(before: Contents, after: Contents, mol: Id, created: seq<Id>, linked: nat, blocks: set<Dep>,
                       failed: set<Id>)
    requires Closed(before) && Extends(before, after, mol, created, linked, blocks)
    requires failed <= set c | c in created[..linked]
    ensures Leftover(before, Erase(after, (set c | c in created[..linked]) - failed + {mol}), created[linked..], failed)
  {
    var gone := (set c | c in created[..linked]) - failed + {mol};
    assert created == created[..linked] + created[linked..];
    assert forall x <- gone :: x !in before.beads;
    EraseKeepsOldDeps(before, after, mol, created, linked, blocks, failed);
    NotAmongLinked(created, linked);
    hide NoRepeats, Closed;
  }

  lemma EraseKeepsOldDeps(before: Contents, after: Contents, mol: Id, created: seq<Id>, linked: nat, blocks: set<Dep>,
                          failed: set<Id>)
    requires Closed(before) && Extends(before, after, mol, created, linked, blocks)
    ensures var left := Erase(after, (set c | c in created[..linked]) - failed + {mol});
      && before.deps <= left.deps
      && forall d <- left.deps - before.deps :: d.bead in failed && d.dependsOn in failed && d.typ == "blocks"
  {
    hide NoRepeats;
    var gone := (set c | c in created[..linked]) - failed + {mol};
    assert forall x <- gone :: x !in before.beads;
    if blocks != {} {
      assert created[..linked] == created;
    }
  }

  lemma NotAmongLinked(created: seq<Id>, linked: nat)
    requires linked <= |created| && NoRepeats(created)
    ensures forall c <- created[linked..] :: c !in created[..linked]
  {
    forall i | linked <= i < |created|
      ensures created[i] !in created[..linked]
    {
    }
  }

  /**
   So burning undoes pouring, wherever the pour stopped: with every child deleted everything is as before
   except for the one step bead that was not yet linked; after a complete pour nothing is left at all.
   */
  lemma BurnUndoesPour(w: Work, before: Contents, after: Contents, g: Progress)
    requires Closed(before) && Reached(w, before, after, g) && g.mol.Some?
    ensures var left := Erase(after, Children(after, g.mol.value) + {g.mol.value});
      && left.deps == before.deps
      && left.beads.Keys == before.beads.Keys + (set c | c in Unlinked(g))
      && (forall id <- before.beads :: left.beads[id] == before.beads[id])
      && (Unlinked(g) == [] ==> left == before)
  {
    BurnLeaves(w, before, after, g, {});
    hide Reached, Children, Erase;
    var children := Children(after, g.mol.value);
    assert children - {} == children;
    NothingFailed(before, Erase(after, children + {g.mol.value}), Unlinked(g));
  }

  lemma NothingFailed(before: Contents, left: Contents, unlinked: seq<Id>)
    requires Leftover(before, left, unlinked, {})
    ensures left.deps == before.deps
    ensures left.beads.Keys == before.beads.Keys + (set c | c in unlinked)
    ensures unlinked == [] ==> left == before
  {
    assert left.deps == before.deps + (left.deps - before.deps);
    if unlinked == [] {
      assert left.beads == before.beads;
    }
  }

  lemma HowFar(w: Work, before: Contents, after: Contents, g: Progress)
    requires Reached(w, before, after, g)
    ensures g.linked <= |g.created| <= g.linked + 1
    ensures Complete(w, g) ==> g.mol.Some? && Unlinked(g) == []
  {
  }

  lemma StoredAsMolecule(p: Plan)
    ensures Stored(WorkOf(p).molecule).typ == "molecule"
  {
    WorkFacts(p);
    MoleculeBeadMeans(p);
    hide WorkOf, MoleculeBead, Stored;
  }

  lemma PouredIsMolecule(w: Work, before: Contents, after: Contents, g: Progress)
    requires Reached(w, before, after, g) && g.mol.Some? && Stored(w.molecule).typ == "molecule"
    ensures g.mol.value in after.beads && after.beads[g.mol.value].typ == "molecule"
  {
    hide FreshIds, OrderedLast, BlockDeps, ParentDeps, Stored;
  }

  /**
   The two commands one after the other, however the first one ended. A pour that went through names its
   molecule; one that failed does not, and the caller has to find the molecule, `found`.
   */
  method PourThenBurn(store: Store, formulaId: Id, o: Options, found: Id)
      returns (poured: Result<Option<Poured>, PourError>, burned: Option<Result<Outcome, BurnError>>, ghost g: Progress)
    requires Closed(store.State())
    modifies store
    ensures g.linked <= |g.created| <= g.linked + 1
    ensures poured == Ok(None) ==> o.dryRun && store.State() == old(store.State())
    ensures burned.None? <==> poured == Ok(None)
    ensures poured.Ok? && burned.Some? ==> g.mol.Some? && Unlinked(g) == []
    ensures burned.Some? && g.mol.Some? && (poured.Ok? || g.mol.value == found) ==>
      match burned.value
      case Ok(outcome) => outcome.Burned? && Leftover(old(store.State()), store.State(), Unlinked(g), outcome.failed)
      case Err(e) => e.Failed?
    ensures poured.Ok? && burned == Some(Ok(Burned({}))) ==> store.State() == old(store.State())
  {
    hide Reached, Complete, Planned, WorkOf, IdMap, AllAccepted, Explained, Leftover;
    ghost var before := store.State();
    ghost var plan;
    poured, plan, g := RunFormulaApply(store, formulaId, o);
    burned := None;
    if poured == Ok(None) {
      return;
    }
    ghost var after := store.State();
    if plan.Ok? && !o.dryRun {
      HowFar(WorkOf(plan.value), before, after, g);
    }
    var mol := if poured.Ok? then poured.value.value.mol else found;
    var b;
    ghost var removed;
    b, removed := BurnMolecule(store, mol, false, true);
    burned := Some(b);
    if g.mol == Some(mol) {
      StoredAsMolecule(plan.value);
      PouredIsMolecule(WorkOf(plan.value), before, after, g);
      if b.Ok? {
        BurnLeaves(WorkOf(plan.value), before, after, g, b.value.failed);
        if poured.Ok? && b.value.failed == {} {
          NothingFailed(before, store.State(), Unlinked(g));
        }
      }
    }
  }

  // ----- ordering

  /** The whole store has a dependency cycle after a complete pour iff it had one or the steps have one. */
  lemma PourAcyclicIff(w: Work, active: seq<Step>, before: Contents, after: Contents, g: Progress)
    requires Closed(before) && WorkFor(w, active) && Reached(w, before, after, g) && Complete(w, g)
    ensures Cyclic(AllPairs(after.deps)) <==> Cyclic(AllPairs(before.deps)) || Cyclic(ActiveOrder(active))
  {
    FinishedExtends(w, before, after, g);
    BlocksAreImage(w, active, g);
    StepToBeadExact(active, g);
    var blocks := BlockDeps(g.created, w.edges);
    hide Reached, StepToBead, IsImage, ActiveOrder, Injective, WorkFor, BlockDeps, Cyclic, Complete;
    ExtensionAcyclicIff(before, after, g.mol.value, g.created, blocks);
    CyclicIffImage(ActiveOrder(active), StepToBead(active, g), AllPairs(blocks));
  }

  lemma ExtensionAcyclicIff(before: Contents, after: Contents, mol: Id, created: seq<Id>, blocks: set<Dep>)
    requires Closed(before) && Extends(before, after, mol, created, |created|, blocks)
    ensures Cyclic(AllPairs(after.deps)) <==> Cyclic(AllPairs(before.deps)) || Cyclic(AllPairs(blocks))
  {
    var known, ordering := AllPairs(before.deps), AllPairs(blocks);
    var parents: set<Edge> := set c | c in created :: (c, mol);
    assert created[..|created|] == created;
    AllPairsUnion(before.deps, created, mol, blocks);
    NewNodesApart(before, after, mol, created, |created|, blocks);
    hide Cyclic;
    CycleOldOrNew(known, ordering + parents, (set c | c in created) + {mol});
    SinkAddsNoCycle(ordering, parents, mol);
  }

  lemma NewNodesApart(before: Contents, after: Contents, mol: Id, created: seq<Id>, linked: nat, blocks: set<Dep>)
    requires Closed(before) && Extends(before, after, mol, created, linked, blocks)
    ensures var novel := (set c | c in created) + {mol};
      && (forall e <- AllPairs(before.deps) :: e.0 !in novel && e.1 !in novel)
      && (forall e <- AllPairs(blocks) :: e.0 in novel && e.1 in novel && e.0 != mol)
  {
  }

  lemma AllPairsUnion(deps: set<Dep>, created: seq<Id>, mol: Id, blocks: set<Dep>)
    ensures AllPairs(deps + ParentDeps(created, mol) + blocks) ==
            AllPairs(deps) + (AllPairs(blocks) + (set c | c in created :: (c, mol)))
  {
    forall c | c in created
      ensures (c, mol) in AllPairs(deps + ParentDeps(created, mol) + blocks)
    {
      assert Parent(c, mol) in deps + ParentDeps(created, mol) + blocks;
    }
  }

  /** The steps of `active` stand in exactly the order that the formula gives them. */
  ghost predicate Induced(active: seq<Step>, steps: seq<Step>) {
    && StepIds(active) <= StepIds(steps)
    && forall s, d :: (s, d) in DependsOn(active) <==>
        (s, d) in DependsOn(steps) && s in StepIds(active) && d in StepIds(active)
  }

  /**
   A plan made from a validated formula has its kept steps, each once, at least one, in the formula's
   order, and the work for them.
   */
  lemma PlanOfValidated(beads: map<Id, Bead>, formulaId: Id, o: Options, p: Plan, steps: seq<Step>)
    requires Planned(beads, formulaId, o) == Ok(p)
    requires "steps" in beads[formulaId].fields && beads[formulaId].fields["steps"] == Steps(steps) && WellFormed(steps)
    ensures p.active == ActiveSteps(steps, p.vars) != []
        && StepIds(p.active) == StepIds(steps) - SkippedIds(steps, p.vars)
    ensures Induced(p.active, steps) && WorkFor(WorkOf(p), p.active)
  {
    hide ActiveSteps, ResolvedVars, WellFormed, WorkOf, WorkFor, SkippedIds;
    ExpansionInducesSubgraph(steps, p.vars);
    PlannedWork(p);
  }

  /** So pouring a formula without cycles into a store without cycles makes none. */
  lemma PourKeepsAcyclic(w: Work, active: seq<Step>, steps: seq<Step>, before: Contents, after: Contents, g: Progress)
    requires Closed(before) && WorkFor(w, active) && Reached(w, before, after, g) && Complete(w, g)
    requires Induced(active, steps) && !Cyclic(AllPairs(before.deps)) && !Cyclic(DependsOn(steps))
    ensures !Cyclic(AllPairs(after.deps))
  {
    PourAcyclicIff(w, active, before, after, g);
    hide Reached, WorkFor, Complete, Closed;
    assert ActiveOrder(active) <= DependsOn(steps);
    if Cyclic(ActiveOrder(active)) {
      var v :| Leads(ActiveOrder(active), v, v);
      LeadsMonotone(ActiveOrder(active), DependsOn(steps), v, v);
    }
  }

  /** `b` comes before `a` in the formula through steps that are all kept. */
  ghost predicate OrderedThroughKept(steps: seq<Step>, kept: set<string>, a: string, b: string) {
    exists w :: IsWalk(DependsOn(steps), w) && w[0] == a && w[|w| - 1] == b && forall v <- w :: v in kept
  }

  /**
   One created bead waits for another, directly or through others, exactly when the formula orders
   their steps through steps that are kept. Nothing is added; an order through a skipped step is lost.
   */
  lemma OrderSurvivesIff(w: Work, active: seq<Step>, steps: seq<Step>, g: Progress, a: string, b: string)
    requires WorkFor(w, active) && Complete(w, g) && NoRepeats(g.created) && Induced(active, steps)
    requires a in StepIds(active) && b in StepIds(active)
    ensures StepToBead(active, g).Keys == StepIds(active)
    ensures var m := StepToBead(active, g);
      Leads(AllPairs(BlockDeps(g.created, w.edges)), m[a], m[b]) <==> OrderedThroughKept(steps, StepIds(active), a, b)
  {
    StepToBeadExact(active, g);
    BlocksAreImage(w, active, g);
    hide StepToBead, WorkFor, BlockDeps, AllPairs;
    LeadsIffImage(ActiveOrder(active), StepToBead(active, g), AllPairs(BlockDeps(g.created, w.edges)), a, b);
    KeptOrder(active, steps, a, b);
  }

  lemma KeptOrder(active: seq<Step>, steps: seq<Step>, a: string, b: string)
    requires Induced(active, steps)
    ensures Leads(ActiveOrder(active), a, b) <==> OrderedThroughKept(steps, StepIds(active), a, b)
  {
    var kept := StepIds(active);
    if Leads(ActiveOrder(active), a, b) {
      var w :| IsWalk(ActiveOrder(active), w) && w[0] == a && w[|w| - 1] == b;
      forall i | 0 <= i < |w|
        ensures w[i] in kept
      {
        var k := if i == 0 then 0 else i - 1;
        assert (w[k], w[k + 1]) in ActiveOrder(active);
        assert (w[k], w[k + 1]) in DependsOn(active);
      }
      assert IsWalk(DependsOn(steps), w);
    }
    if OrderedThroughKept(steps, kept, a, b) {
      var w :| IsWalk(DependsOn(steps), w) && w[0] == a && w[|w| - 1] == b && forall v <- w :: v in kept;
      forall i | 0 <= i < |w| - 1
        ensures (w[i], w[i + 1]) in ActiveOrder(active)
      {
        assert (w[i], w[i + 1]) in DependsOn(steps) && w[i] in w && w[i + 1] in w;
      }
      assert IsWalk(ActiveOrder(active), w);
    }
  }

  function Chain(): seq<Step> {
    [Step("a", "A", "", "", None, [], [], "", "", []),
     Step("b", "B", "", "", None, [], ["a"], "", Template.Placeholder("x"), []),
     Step("c", "C", "", "", None, [], ["b"], "", "", [])]
  }

  lemma ChainFacts()
    ensures WellFormed(Chain())
    ensures DependsOn(Chain()) == {("b", "a"), ("c", "b")}
  {
    var steps := Chain();
    assert steps[0] in steps && steps[1] in steps && steps[2] in steps;
    assert StepIds(steps) == {"a", "b", "c"};
  }

  lemma ChainSkipsB()
    ensures SkippedIds(Chain(), map[]) == {"b"}
  {
    hide Template.EvaluateCondition, Template.Placeholder;
    var steps := Chain();
    Template.PlaceholderCondition("x", map[]);
    assert steps[1] in steps && steps[1].condition != "" by {
      PlaceholderNotEmpty("x");
    }
  }

  lemma PlaceholderNotEmpty(name: string)
    ensures Template.Placeholder(name) != ""
  {
  }

  /** A concrete loss: c waits for b and b for a; with b skipped, c no longer waits for a. */
  lemma SkippedStepLosesOrder()
    ensures WellFormed(Chain())
    ensures Leads(DependsOn(Chain()), "c", "a")
    ensures SkippedIds(Chain(), map[]) == {"b"}
    ensures DependsOn(ActiveSteps(Chain(), map[])) == {}
  {
    ChainFacts();
    ChainSkipsB();
    hide Chain, WellFormed, SkippedIds, ActiveSteps, DependsOn;
    assert IsWalk(DependsOn(Chain()), ["c", "b", "a"]);
    BothOrdersDropped(Chain(), map[]);
  }

  lemma BothOrdersDropped(steps: seq<Step>, vars: map<string, string>)
    requires WellFormed(steps) && SkippedIds(steps, vars) == {"b"}
    requires DependsOn(steps) == {("b", "a"), ("c", "b")}
    ensures DependsOn(ActiveSteps(steps, vars)) == {}
  {
    ExpansionInducesSubgraph(steps, vars);
    hide ActiveSteps, WellFormed, SkippedIds;
    var kept := DependsOn(ActiveSteps(steps, vars));
    assert forall e <- kept :: (e.0, e.1) == e;
    assert kept <= {("b", "a"), ("c", "b")} - {("b", "a"), ("c", "b")};
  }
}
