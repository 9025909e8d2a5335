/**
 The bead store behind the client calls: beads by id and typed dependencies between them.

 Identifiers are random and the primary key refuses a clash, so a created id is always new.
 Dependencies are keyed by both ends and type and reference existing beads; deleting a bead
 deletes the dependencies at it. Any call may also fail for reasons outside the model.
 */
module BeadStore {
  import opened Wrappers
  import opened Text

  type Id = string

  /** Variable definition of a formula. */
  datatype VarDef = VarDef(name: string, required: bool, default: string, options: seq<string>)

  datatype Step = Step(id: string, title: string, description: string, typ: string, priority: Option<int>,
                       labels: seq<string>, dependsOn: seq<string>, assignee: string, condition: string,
                       roles: seq<string>)

  /** The values kept under the keys of a bead's fields. */
  datatype Value =
    | Text(text: string)
    | Flag(flag: bool)
    | Names(names: seq<string>)
    | VarMap(vars: map<string, string>)
    | VarDefs(defs: seq<VarDef>)
    | Steps(steps: seq<Step>)

  datatype Bead = Bead(typ: string, title: string, description: string, priority: int, labels: seq<string>,
                       assignee: string, createdBy: string, fields: map<string, Value>)

  datatype Dep = Dep(bead: Id, dependsOn: Id, typ: string)

  datatype StoreError = Unavailable | Refused | Duplicate | MissingEndpoint | NotFound

  datatype Contents = Contents(beads: map<Id, Bead>, deps: set<Dep>)

  /** Deprecated type names are stored under their current ones. */
  function CanonicalType(typ: string): string {
    if typ == "template" then "formula" else if typ == "bundle" then "molecule" else typ
  }

  /** The server's checks on a new bead. */
  predicate Acceptable(b: Bead, types: set<string>) {
    && 0 < |TrimSpace(b.title)| <= 500
    && 0 <= b.priority <= 4
    && CanonicalType(b.typ) in types
  }

  function Stored(b: Bead): Bead {
    b.(typ := CanonicalType(b.typ))
  }

  /** No dependency hangs in the air. */
  ghost predicate Closed(c: Contents) {
    forall d <- c.deps :: d.bead in c.beads && d.dependsOn in c.beads
  }

  /** What is left once the beads of `ids` are deleted. */
  ghost function Erase(c: Contents, ids: set<Id>): Contents {
    Contents(c.beads - ids, set d | d in c.deps && d.bead !in ids && d.dependsOn !in ids)
  }

  class Store {
    var beads: map<Id, Bead>
    var deps: set<Dep>
    const types: set<string>   // bead types with a configuration

    constructor (types: set<string>)
      ensures State() == Contents(map[], {}) && this.types == types
    {
      this.types := types;
      beads, deps := map[], {};
    }

    ghost function State(): Contents
      reads this
    {
      Contents(beads, deps)
    }

    method CreateBead(b: Bead) returns (r: Result<Id, StoreError>)
      modifies this
      ensures deps == old(deps)
      ensures r.Ok? ==> r.value !in old(beads) && beads == old(beads)[r.value := Stored(b)] && Acceptable(b, types)
      ensures r.Err? ==> beads == old(beads)
      ensures r.Err? ==> r.error == if Acceptable(b, types) then Unavailable else Refused
    {
      if !Acceptable(b, types) {
        return Err(Refused);
      }
      var up: bool := *;
      var id: Id := *;
      if !up || id in beads {
        return Err(Unavailable);
      }
      beads := beads[id := Stored(b)];
      r := Ok(id);
    }

    method AddDependency(d: Dep) returns (r: Result<(), StoreError>)
      modifies this
      ensures beads == old(beads)
      ensures r.Ok? ==> deps == old(deps) + {d} && d !in old(deps) && d.bead in beads && d.dependsOn in beads
      ensures r.Err? ==> deps == old(deps)
      ensures r.Err? ==> match r.error
        case MissingEndpoint => !(d.bead in beads && d.dependsOn in beads)
        case Duplicate => d in deps
        case e => e == Unavailable
    {
      if d in deps {
        return Err(Duplicate);
      }
      if !(d.bead in beads && d.dependsOn in beads) {
        return Err(MissingEndpoint);
      }
      var up: bool := *;
      if !up {
        return Err(Unavailable);
      }
      deps := deps + {d};
      r := Ok(());
    }

    method DeleteBead(id: Id) returns (r: Result<(), StoreError>)
      modifies this
      ensures r.Ok? ==> id in old(beads) && State() == Erase(old(State()), {id})
      ensures r.Err? ==> State() == old(State())
    {
      if id !in beads {
        return Err(NotFound);
      }
      var up: bool := *;
      if !up {
        return Err(Unavailable);
      }
      beads := beads - {id};
      deps := set d | d in deps && d.bead != id && d.dependsOn != id;
      r := Ok(());
    }

    /** The server merges the sent fields into the stored ones; a key that is not sent stays. */
    method UpdateFields(id: Id, patch: map<string, Value>) returns (r: Result<(), StoreError>)
      modifies this
      ensures deps == old(deps)
      ensures r.Ok? ==> id in old(beads)
      ensures r.Ok? ==> beads == old(beads)[id := old(beads)[id].(fields := old(beads)[id].fields + patch)]
      ensures r.Err? ==> beads == old(beads)
    {
      if id !in beads {
        return Err(NotFound);
      }
      var up: bool := *;
      if !up {
        return Err(Unavailable);
      }
      beads := beads[id := beads[id].(fields := beads[id].fields + patch)];
      r := Ok(());
    }

    /** The dependencies that point at `id`, each once, in no particular order. */
    method ReverseDependencies(id: Id) returns (r: Result<seq<Dep>, StoreError>)
      ensures r.Ok? ==> forall d :: d in r.value <==> d in deps && d.dependsOn == id
      ensures r.Ok? ==> forall i, j :: 0 <= i < j < |r.value| ==> r.value[i] != r.value[j]
    {
      var up: bool := *;
      if !up {
        return Err(Unavailable);
      }
      var rest, found := set d | d in deps && d.dependsOn == id, [];
      while rest != {}
        invariant forall d :: (d in found || d in rest) <==> d in deps && d.dependsOn == id
        invariant forall d :: !(d in found && d in rest)
        invariant forall i, j :: 0 <= i < j < |found| ==> found[i] != found[j]
        decreases |rest|
      {
        var d :| d in rest;
        assert forall i | 0 <= i < |found| :: found[i] in found;
        rest, found := rest - {d}, found + [d];
      }
      r := Ok(found);
    }
  }
}
