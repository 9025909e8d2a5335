/** kd mol burn: deleting the children of a molecule, then the molecule. */
module Burn {
  import opened Wrappers
  import opened BeadStore

  datatype Outcome = Previewed | NeedsForce | Burned(failed: set<Id>)

  datatype BurnError = NoMolecule | NotAMolecule | Failed(e: StoreError)

  /** The beads that hang below `id`. */
  ghost function Children(c: Contents, id: Id): set<Id> {
    set d | d in c.deps && d.dependsOn == id && d.typ == "parent-child" :: d.bead
  }

  lemma EraseTwice(c: Contents, a: set<Id>, b: set<Id>)
    ensures Erase(Erase(c, a), b) == Erase(c, a + b)
  {
    assert c.beads - a - b == c.beads - (a + b);
  }

  method CollectChildren(revDeps: seq<Dep>, ghost c: Contents, id: Id) returns (childIds: seq<Id>)
    requires forall d :: d in revDeps <==> d in c.deps && d.dependsOn == id
    requires forall i, j :: 0 <= i < j < |revDeps| ==> revDeps[i] != revDeps[j]
    ensures forall x :: x in childIds <==> x in Children(c, id)
    ensures forall i, j :: 0 <= i < j < |childIds| ==> childIds[i] != childIds[j]
  {
    childIds := [];
    for i := 0 to |revDeps|
      invariant forall x :: x in childIds <==>
          exists k :: 0 <= k < i && revDeps[k].typ == "parent-child" && revDeps[k].bead == x
      invariant forall i, j :: 0 <= i < j < |childIds| ==> childIds[i] != childIds[j]
    {
      assert forall k | 0 <= k < |childIds| :: childIds[k] in childIds;
      assert forall k | 0 <= k <= i :: revDeps[k] in revDeps;
      if revDeps[i].typ == "parent-child" {
        childIds := childIds + [revDeps[i].bead];
      }
    }
    forall x
      ensures x in childIds <==> x in Children(c, id)
    {
      if x in Children(c, id) {
        var d :| d in c.deps && d.dependsOn == id && d.typ == "parent-child" && d.bead == x;
        assert d in revDeps;
      }
    }
  }

  /** A child that cannot be deleted is passed over; the others and the molecule still go. */
  method BurnMolecule(store: Store, id: Id, dryRun: bool, force: bool)
      returns (r: Result<Outcome, BurnError>, ghost removed: set<Id>)
    modifies store
    ensures store.State() == Erase(old(store.State()), removed)
    ensures removed <= Children(old(store.State()), id) + {id}
    ensures r.Ok? && r.value.Burned? ==>
      && id in old(store.beads) && old(store.beads)[id].typ == "molecule"
      && (force || Children(old(store.State()), id) == {})
      && r.value.failed <= Children(old(store.State()), id)
      && removed == Children(old(store.State()), id) - r.value.failed + {id}
    ensures r.Ok? && !r.value.Burned? ==> removed == {}
    ensures r.Err? ==> match r.error
      case NoMolecule => id !in old(store.beads)
      case NotAMolecule => id in old(store.beads) && old(store.beads)[id].typ != "molecule"
      case Failed(_) => id in old(store.beads) && old(store.beads)[id].typ == "molecule"
    ensures r.Ok? ==> match r.value
      case Previewed => dryRun
      case NeedsForce => !dryRun && !force && Children(old(store.State()), id) != {}
      case Burned(_) => !dryRun
  {
    ghost var before := store.State();
    removed := {};
    assert Erase(before, {}) == before by {
      assert before.beads - {} == before.beads;
    }
    if id !in store.beads {
      return Err(NoMolecule), removed;
    }
    if store.beads[id].typ != "molecule" {
      return Err(NotAMolecule), removed;
    }
    var rev := store.ReverseDependencies(id);
    if rev.Err? {
      return Err(Failed(rev.error)), removed;
    }
    var childIds := CollectChildren(rev.value, before, id);
    if dryRun {
      return Ok(Previewed), removed;
    }
    if !force && |childIds| > 0 {
      assert childIds[0] in childIds;
      return Ok(NeedsForce), removed;
    }
    var failed: set<Id> := {};
    ghost var tried: set<Id> := {};
    for i := 0 to |childIds|
      invariant tried == (set x | x in childIds[..i]) && removed <= tried && failed <= tried
      invariant removed + failed == tried && removed !! failed
      invariant store.State() == Erase(before, removed)
    {
      assert childIds[..i + 1] == childIds[..i] + [childIds[i]];
      assert childIds[i] !in tried;
      tried := tried + {childIds[i]};
      var d := store.DeleteBead(childIds[i]);
      if d.Err? {
        failed := failed + {childIds[i]};
      } else {
        EraseTwice(before, removed, {childIds[i]});
        removed := removed + {childIds[i]};
      }
    }
    assert childIds[..|childIds|] == childIds;
    assert tried == Children(before, id);
    var d := store.DeleteBead(id);
    if d.Err? {
      return Err(Failed(d.error)), removed;
    }
    EraseTwice(before, removed, {id});
    removed := removed + {id};
    r := Ok(Burned(failed));
  }
}
