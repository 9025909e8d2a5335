/**
 Pouring a formula into a molecule and burning the molecule again, one store call at a time.

 Any store call may fail and ends the pour; `Progress` records how far it came, so a result holds
 for every prefix of its calls.
 */
module Molecule {
  import opened Wrappers
  import opened Template
  import opened BeadStore
  import opened Formula

  // ----- labels and priorities

  /** `so` followed by the labels of `extra` that are not in it yet, each once. */
  function AddNew(so: seq<string>, extra: seq<string>): seq<string> {
    if extra == [] then so
    else
      var front, last := AddNew(so, extra[..|extra| - 1]), extra[|extra| - 1];
      if last in front then front else front + [last]
  }

  /** With nothing to add the base comes back as it is, repeats included. */
  function MergedLabels(base: seq<string>, extra: seq<string>): seq<string> {
    if extra == [] then base else AddNew(AddNew([], base), extra)
  }

  method AppendNew(so: seq<string>, seen: set<string>, extra: seq<string>)
      returns (result: seq<string>, seen': set<string>)
    requires forall l :: l in seen <==> l in so
    ensures result == AddNew(so, extra) && forall l :: l in seen' <==> l in result
  {
    result, seen' := so, seen;
    for i := 0 to |extra|
      invariant result == AddNew(so, extra[..i]) && forall l :: l in seen' <==> l in result
    {
      assert extra[..i + 1][..i] == extra[..i];
      if extra[i] !in seen' {
        seen' := seen' + {extra[i]};
        result := result + [extra[i]];
      }
    }
    assert extra[..|extra|] == extra;
  }

  method MergeLabels(base: seq<string>, extra: seq<string>) returns (result: seq<string>)
    ensures result == MergedLabels(base, extra)
  {
    if |extra| == 0 {
      return base;
    }
    var seen: set<string> := {};
    result := [];
    result, seen := AppendNew(result, seen, base);
    result, seen := AppendNew(result, seen, extra);
  }

  ghost predicate NoRepeats<T(!new)>(s: seq<T>) {
    forall i, j :: 0 <= i < j < |s| ==> s[i] != s[j]
  }

  lemma {:induction false} AddNewSound(so: seq<string>, extra: seq<string>)
    ensures forall l :: l in AddNew(so, extra) <==> l in so || l in extra
    ensures NoRepeats(so) ==> NoRepeats(AddNew(so, extra))
    ensures so <= AddNew(so, extra)
  {
    if extra != [] {
      AddNewSound(so, extra[..|extra| - 1]);
      assert extra == extra[..|extra| - 1] + [extra[|extra| - 1]];
    }
  }

  /** Merging gives the union; it is free of repeats unless there was nothing to merge in. */
  lemma MergedLabelsSound(base: seq<string>, extra: seq<string>)
    ensures forall l :: l in MergedLabels(base, extra) <==> l in base || l in extra
    ensures NoRepeats(MergedLabels(base, extra)) <==> extra != [] || NoRepeats(base)
  {
    AddNewSound([], base);
    AddNewSound(AddNew([], base), extra);
  }

  function PriorityOrDefault(p: Option<int>, default: int): int {
    match p case Some(v) => v case None => default
  }

  // ----- what a pour asks the store to create

  datatype Options = Options(pairs: seq<string>, labels: seq<string>, assignee: string, dryRun: bool,
                             ephemeral: bool, actor: string)

  datatype Definition = Definition(defs: seq<VarDef>, steps: seq<Step>, defaultRoles: seq<string>,
                                   assignedAgent: string)

  /** Reading the fields of a formula; a key of the wrong kind is a parse error. */
  function Decode(fields: map<string, Value>): Option<Definition> {
    if ("vars" in fields && !fields["vars"].VarDefs?) || ("steps" in fields && !fields["steps"].Steps?)
       || ("default_roles" in fields && !fields["default_roles"].Names?)
       || ("assigned_agent" in fields && !fields["assigned_agent"].Text?)
    then None
    else Some(Definition(
      if "vars" in fields then fields["vars"].defs else [],
      if "steps" in fields then fields["steps"].steps else [],
      if "default_roles" in fields then fields["default_roles"].names else [],
      if "assigned_agent" in fields then fields["assigned_agent"].text else ""))
  }

  /** Everything about a pour that no longer changes once its steps are being created. */
  datatype Plan = Plan(formulaId: Id, formula: Bead, vars: Vars, active: seq<Step>, defaultRoles: seq<string>,
                       assignee: string, labels: seq<string>, ephemeral: bool, actor: string)

  function MoleculeBead(p: Plan): Bead {
    Bead("molecule", SubstituteVars(p.formula.title, p.vars), SubstituteVars(p.formula.description, p.vars),
         p.formula.priority, MergedLabels(p.formula.labels, p.labels), p.assignee, p.actor,
         map["formula_id" := Text(p.formulaId), "applied_vars" := VarMap(p.vars)]
         + (if p.ephemeral then map["ephemeral" := Flag(true)] else map[]))
  }

  function RoleLabels(roles: seq<string>): (r: seq<string>)
    ensures |r| == |roles|
  {
    seq(|roles|, i requires 0 <= i < |roles| => "role:" + roles[i])
  }

  /** The roles a step is for: its own, or the formula's. */
  function EffectiveRoles(p: Plan, s: Step): seq<string> {
    if s.roles == [] then p.defaultRoles else s.roles
  }

  function StepBead(p: Plan, s: Step): Bead {
    Bead(if s.typ == "" then "task" else s.typ, s.title, s.description,
         PriorityOrDefault(s.priority, p.formula.priority),
         MergedLabels(MergedLabels(MergedLabels(p.formula.labels, p.labels), s.labels),
                      RoleLabels(EffectiveRoles(p, s))),
         if s.assignee == "" then p.assignee else s.assignee, p.actor, map[])
  }

  /**
   A step bead has the title and description of its step, a type, priority and assignee of its own or a
   default; it carries every label of the molecule and of the step, one label for each role and no other,
   and no label twice unless the formula's labels did.
   */
  lemma StepBeadMeans(p: Plan, s: Step)
    ensures var b, mol := StepBead(p, s), MoleculeBead(p);
      && b.title == s.title && b.description == s.description && b.createdBy == p.actor && b.fields == map[]
      && b.typ == (if s.typ == "" then "task" else s.typ)
      && (forall l <- mol.labels :: l in b.labels)
      && (forall l :: l in b.labels <==>
          || l in mol.labels || l in s.labels
          || exists r <- if |s.roles| > 0 then s.roles else p.defaultRoles :: l == "role:" + r)
      && (NoRepeats(mol.labels) || s.labels != [] || EffectiveRoles(p, s) != [] ==> NoRepeats(b.labels))
      && b.assignee == (if s.assignee == "" then mol.assignee else s.assignee)
      && b.priority == (if s.priority.Some? then s.priority.value else mol.priority)
  {
    var roles := EffectiveRoles(p, s);
    var molLabels := MergedLabels(p.formula.labels, p.labels);
    var withStep := MergedLabels(molLabels, s.labels);
    MergedLabelsSound(molLabels, s.labels);
    MergedLabelsSound(withStep, RoleLabels(roles));
    RoleLabelsExactly(roles);
    hide MergedLabels, SubstituteVars, RoleLabels, NoRepeats;
  }

  lemma RoleLabelsExactly(roles: seq<string>)
    ensures forall l :: l in RoleLabels(roles) <==> exists r <- roles :: l == "role:" + r
    ensures RoleLabels(roles) == [] <==> roles == []
  {
    forall r | r in roles
      ensures "role:" + r in RoleLabels(roles)
    {
      var i :| 0 <= i < |roles| && roles[i] == r;
      assert RoleLabels(roles)[i] == "role:" + r;
    }
  }

  /**
   The molecule is stored as one, carries the labels of formula and command line, names its formula, and
   keeps the variables under which the formula's own title and description are its title and description.
   */
  lemma MoleculeBeadMeans(p: Plan)
    ensures var mol := MoleculeBead(p);
      && Stored(mol).typ == "molecule"
      && (forall l :: l in mol.labels <==> l in p.formula.labels || l in p.labels)
      && mol.fields["formula_id"] == Text(p.formulaId) && mol.fields["applied_vars"].VarMap?
      && mol.title == SubstituteVars(p.formula.title, mol.fields["applied_vars"].vars)
      && mol.description == SubstituteVars(p.formula.description, mol.fields["applied_vars"].vars)
      && mol.priority == p.formula.priority && mol.assignee == p.assignee && mol.createdBy == p.actor
      && (if p.ephemeral then mol.fields.Keys == {"formula_id", "applied_vars", "ephemeral"}
                              && mol.fields["ephemeral"] == Flag(true)
          else mol.fields.Keys == {"formula_id", "applied_vars"})
  {
    MergedLabelsSound(p.formula.labels, p.labels);
    hide MergedLabels, SubstituteVars;
  }

  // ----- the calls of a pour

  /**
   What a pour asks of the store: the molecule, a bead for each step, and which bead waits for which,
   by position and in the order of the calls.
   */
  datatype Work = Work(molecule: Bead, beads: seq<Bead>, edges: seq<(nat, nat)>)

  /** The last step of that id: when an id repeats, the later bead takes its place in the id map. */
  function Place(active: seq<Step>, id: string): (r: Option<nat>)
    ensures r.Some? ==> r.value < |active| && active[r.value].id == id
    ensures r.Some? <==> id in StepIds(active)
  {
    if active == [] then None
    else
      var n := |active| - 1;
      assert active == active[..n] + [active[n]];
      if active[n].id == id then Some(n) else Place(active[..n], id)
  }

  /** What one bead waits for; ids that name no step are passed over. */
  function StepPlaces(active: seq<Step>, i: nat, deps: seq<string>): seq<(nat, nat)> {
    if deps == [] then []
    else
      var place := Place(active, deps[|deps| - 1]);
      StepPlaces(active, i, deps[..|deps| - 1]) + (if place.Some? then [(i, place.value)] else [])
  }

  /** What the beads of the first `n` steps wait for. */
  function EdgePlaces(active: seq<Step>, n: nat): seq<(nat, nat)>
    requires n <= |active|
  {
    if n == 0 then []
    else
      var s := active[n - 1];
      EdgePlaces(active, n - 1) + StepPlaces(active, Place(active, s.id).value, s.dependsOn)
  }

  function WorkOf(p: Plan): (w: Work)
    ensures |w.beads| == |p.active| && forall i :: 0 <= i < |w.beads| ==> w.beads[i] == StepBead(p, p.active[i])
  {
    Work(MoleculeBead(p), seq(|p.active|, i requires 0 <= i < |p.active| => StepBead(p, p.active[i])),
         EdgePlaces(p.active, |p.active|))
  }

  /** The beads of `w` are those of the plan's steps. */
  ghost predicate Builds(p: Plan, w: Work) {
    |w.beads| == |p.active| && forall i :: 0 <= i < |w.beads| ==> w.beads[i] == StepBead(p, p.active[i])
  }

  ghost predicate Coherent(w: Work) {
    forall e <- w.edges :: e.0 < |w.beads| && e.1 < |w.beads|
  }

  lemma {:induction false} StepPlacesCoherent(active: seq<Step>, i: nat, deps: seq<string>)
    ensures forall e <- StepPlaces(active, i, deps) :: e.0 == i && e.1 < |active|
  {
    if deps != [] {
      StepPlacesCoherent(active, i, deps[..|deps| - 1]);
    }
  }

  lemma {:induction false} EdgePlacesCoherent(active: seq<Step>, n: nat)
    requires n <= |active|
    ensures forall e <- EdgePlaces(active, n) :: e.0 < |active| && e.1 < |active|
  {
    if n > 0 {
      EdgePlacesCoherent(active, n - 1);
      StepPlacesCoherent(active, Place(active, active[n - 1].id).value, active[n - 1].dependsOn);
    }
  }

  lemma WorkFacts(p: Plan)
    ensures var w := WorkOf(p);
      && w.molecule == MoleculeBead(p) && Builds(p, w)
      && w.edges == EdgePlaces(p.active, |p.active|) && Coherent(w)
  {
    hide MoleculeBead, StepBead;
    EdgePlacesCoherent(p.active, |p.active|);
  }

  // ----- progress

  datatype Progress = Progress(
    mol: Option<Id>,        // the molecule, once created
    created: seq<Id>,       // the beads of the first steps, in order
    linked: nat,            // how many of them hang below the molecule
    ordered: nat            // how many ordering edges were added
  )

  const NOTHING_DONE := Progress(None, [], 0, 0)

  function Parent(child: Id, mol: Id): Dep {
    Dep(child, mol, "parent-child")
  }

  function ParentDeps(children: seq<Id>, mol: Id): set<Dep> {
    set c | c in children :: Parent(c, mol)
  }

  function Blocks(bead: Id, dependsOn: Id): Dep {
    Dep(bead, dependsOn, "blocks")
  }

  function BlockDeps(created: seq<Id>, edges: seq<(nat, nat)>): set<Dep> {
    set e | e in edges && e.0 < |created| && e.1 < |created| :: Blocks(created[e.0], created[e.1])
  }

  ghost predicate FreshIds(before: Contents, mol: Id, created: seq<Id>) {
    mol !in before.beads && NoRepeats(created) && forall c <- created :: c !in before.beads && c != mol
  }

  /** The beads of before, the molecule, and one bead for each of the first steps; no others. */
  ghost predicate BeadsMade(w: Work, before: map<Id, Bead>, after: map<Id, Bead>, mol: Id, created: seq<Id>) {
    && |created| <= |w.beads|
    && after.Keys == before.Keys + {mol} + (set c | c in created)
    && (forall id <- before :: after[id] == before[id])
    && after[mol] == Stored(w.molecule)
    && forall i :: 0 <= i < |created| ==> created[i] in after && after[created[i]] == Stored(w.beads[i])
  }

  /** Ordering edges come last, each once. */
  ghost predicate OrderedLast(w: Work, g: Progress) {
    && g.ordered <= |w.edges| && NoRepeats(w.edges[..g.ordered])
    && (g.ordered > 0 ==> g.linked == |g.created| == |w.beads|)
  }

  /** The store after `g`, starting from `before`. */
  ghost predicate Reached(w: Work, before: Contents, after: Contents, g: Progress) {
    match g.mol
    case None => g == NOTHING_DONE && after == before
    case Some(mol) =>
      && FreshIds(before, mol, g.created)
      && g.linked <= |g.created| <= g.linked + 1
      && OrderedLast(w, g)
      && BeadsMade(w, before.beads, after.beads, mol, g.created)
      && after.deps == before.deps + ParentDeps(g.created[..g.linked], mol) + BlockDeps(g.created, w.edges[..g.ordered])
  }

  ghost predicate Complete(w: Work, g: Progress) {
    g.mol.Some? && g.linked == |g.created| == |w.beads| && g.ordered == |w.edges|
  }

  /** Step id to bead id; when an id repeats the later step wins. */
  function IdMap(active: seq<Step>, created: seq<Id>): (m: map<string, Id>)
    requires |created| <= |active|
  {
    if created == [] then map[]
    else
      var n := |created| - 1;
      IdMap(active, created[..n])[active[n].id := created[n]]
  }

  lemma IdMapGrows(active: seq<Step>, created: seq<Id>)
    requires |created| <= |active|
    ensures created == [] ==> IdMap(active, created) == map[]
    ensures var n := |created| - 1;
      n >= 0 ==> IdMap(active, created) == IdMap(active, created[..n])[active[n].id := created[n]]
  {
  }

  lemma {:induction false} IdMapPlaces(active: seq<Step>, created: seq<Id>)
    requires |created| <= |active|
    ensures IdMap(active, created).Keys == StepIds(active[..|created|])
    ensures forall id <- IdMap(active, created) ::
              IdMap(active, created)[id] == created[Place(active[..|created|], id).value]
  {
    if created != [] {
      var n := |created| - 1;
      IdMapPlaces(active, created[..n]);
      assert active[..n + 1] == active[..n] + [active[n]];
      assert active[..n + 1][..n] == active[..n];
    }
  }

  // ----- step 1 and 2: resolve and expand

  datatype PourError =
    | NoFormula | NotAFormulaBead | NoFields | BadFields | NoStepsInFormula
    | VarProblem(e: VarError) | NothingToCreate | Failed(s: StoreError)

  function Planned(beads: map<Id, Bead>, formulaId: Id, o: Options): Result<Plan, PourError> {
    if formulaId !in beads then Err(NoFormula)
    else
      var f := beads[formulaId];
      if f.typ != "formula" then Err(NotAFormulaBead)
      else if f.fields == map[] then Err(NoFields)
      else
        match Decode(f.fields)
        case None => Err(BadFields)
        case Some(d) =>
          if d.steps == [] then Err(NoStepsInFormula)
          else
            match ResolvedVars(o.pairs, d.defs)
            case Err(e) => Err(VarProblem(e))
            case Ok(vars) =>
              var active := ActiveSteps(d.steps, vars);
              if active == [] then Err(NothingToCreate)
              else Ok(Plan(formulaId, f, vars, active, d.defaultRoles,
                           if o.assignee == "" then d.assignedAgent else o.assignee, o.labels, o.ephemeral, o.actor))
  }

  method MakePlan(store: Store, formulaId: Id, o: Options) returns (r: Result<Plan, PourError>)
    ensures r == Planned(store.beads, formulaId, o)
  {
    if formulaId !in store.beads {
      return Err(NoFormula);
    }
    var bead := store.beads[formulaId];
    if bead.typ != "formula" {
      return Err(NotAFormulaBead);
    }
    if bead.fields == map[] {
      return Err(NoFields);
    }
    var d := Decode(bead.fields);
    if d.None? {
      return Err(BadFields);
    }
    if |d.value.steps| == 0 {
      return Err(NoStepsInFormula);
    }
    var assignee := o.assignee;
    if assignee == "" && d.value.assignedAgent != "" {
      assignee := d.value.assignedAgent;
    }
    var vars := ResolveVars(o.pairs, d.value.defs);
    if vars.Err? {
      return Err(VarProblem(vars.error));
    }
    var active := ExpandSteps(d.value.steps, vars.value);
    if |active| == 0 {
      return Err(NothingToCreate);
    }
    r := Ok(Plan(formulaId, bead, vars.value, active, d.value.defaultRoles, assignee, o.labels, o.ephemeral, o.actor));
  }

  // ----- step 3: create

  /** Why a pour can be refused by the store on its own account. */
  ghost predicate Explained(w: Work, types: set<string>, g: Progress, e: StoreError) {
    match e
    case Unavailable => true
    case Refused =>
      if g.mol.None? then !Acceptable(w.molecule, types)
      else |g.created| < |w.beads| && !Acceptable(w.beads[|g.created|], types)
    case Duplicate =>
      |g.created| == |w.beads| && !NoRepeats(w.edges)
    case _ => false
  }

  ghost predicate AllAccepted(w: Work, types: set<string>) {
    Acceptable(w.molecule, types) && forall i :: 0 <= i < |w.beads| ==> Acceptable(w.beads[i], types)
  }

  method BuildStepBead(p: Plan, molLabels: seq<string>, s: Step) returns (b: Bead)
    requires molLabels == MergedLabels(p.formula.labels, p.labels)
    ensures b == StepBead(p, s)
  {
    var typ := if s.typ == "" then "task" else s.typ;
    var assignee := if s.assignee == "" then p.assignee else s.assignee;
    var roles := if |s.roles| == 0 then p.defaultRoles else s.roles;
    var roleLabels := [];
    for i := 0 to |roles|
      invariant |roleLabels| == i && roleLabels == RoleLabels(roles)[..i]
    {
      roleLabels := roleLabels + ["role:" + roles[i]];
    }
    assert roleLabels == RoleLabels(roles);
    var labels := MergeLabels(molLabels, s.labels);
    labels := MergeLabels(labels, roleLabels);
    b := Bead(typ, s.title, s.description, PriorityOrDefault(s.priority, p.formula.priority), labels, assignee,
        p.actor, map[]);
  }

  /** The state while steps are created: all beads made so far are linked. */
  ghost predicate StepsDone(w: Work, before: Contents, after: Contents, mol: Id, created: seq<Id>) {
    Reached(w, before, after, Progress(Some(mol), created, |created|, 0))
  }

  lemma MoleculeCreated(w: Work, before: Contents, mol: Id)
    requires mol !in before.beads
    ensures StepsDone(w, before, Contents(before.beads[mol := Stored(w.molecule)], before.deps), mol, [])
  {
    var none: seq<Id> := [];
    assert none[..0] == none && w.edges[..0] == [];
    assert ParentDeps([], mol) == {} && BlockDeps([], []) == {};
  }

  lemma BeadsGrow(w: Work, before: map<Id, Bead>, mid: map<Id, Bead>, mol: Id, created: seq<Id>, id: Id)
    requires BeadsMade(w, before, mid, mol, created) && |created| < |w.beads| && id !in mid
    ensures BeadsMade(w, before, mid[id := Stored(w.beads[|created|])], mol, created + [id])
  {
    hide Stored;
    assert (set c | c in created + [id]) == (set c | c in created) + {id};
  }

  lemma FreshGrow(before: Contents, mid: map<Id, Bead>, mol: Id, created: seq<Id>, id: Id)
    requires FreshIds(before, mol, created) && id !in mid
    requires mid.Keys == before.beads.Keys + {mol} + (set c | c in created)
    ensures FreshIds(before, mol, created + [id])
  {
  }

  lemma StepCreated(w: Work, before: Contents, mid: Contents, mol: Id, created: seq<Id>, id: Id)
    requires StepsDone(w, before, mid, mol, created) && |created| < |w.beads| && id !in mid.beads
    ensures Reached(w, before, Contents(mid.beads[id := Stored(w.beads[|created|])], mid.deps),
                    Progress(Some(mol), created + [id], |created|, 0))
  {
    BeadsGrow(w, before.beads, mid.beads, mol, created, id);
    FreshGrow(before, mid.beads, mol, created, id);
    hide BeadsMade, FreshIds, NoRepeats, Stored;
    assert (created + [id])[..|created|] == created[..|created|];
    assert w.edges[..0] == [] && BlockDeps(created + [id], []) == BlockDeps(created, []) == {};
  }

  lemma StepLinked(w: Work, before: Contents, mid: Contents, mol: Id, created: seq<Id>, id: Id)
    requires Reached(w, before, mid, Progress(Some(mol), created + [id], |created|, 0))
    ensures StepsDone(w, before, Contents(mid.beads, mid.deps + {Parent(id, mol)}), mol, created + [id])
  {
    hide BeadsMade, FreshIds;
    assert (created + [id])[..|created|] == created;
    assert (created + [id])[..|created| + 1] == created + [id];
    assert ParentDeps(created + [id], mol) == ParentDeps(created, mol) + {Parent(id, mol)};
  }

  lemma LinkIsNew(w: Work, before: Contents, mid: Contents, mol: Id, created: seq<Id>, id: Id)
    requires Closed(before) && StepsDone(w, before, mid, mol, created) && id !in mid.beads
    ensures Parent(id, mol) !in mid.deps && mol in mid.beads
  {
    assert w.edges[..0] == [] && created[..|created|] == created;
  }

  method CreateStep(store: Store, mol: Id, b: Bead, ghost w: Work, ghost before: Contents, ghost created: seq<Id>)
      returns (r: Result<Id, StoreError>, ghost g: Progress)
    requires Closed(before) && Reached(w, before, store.State(), Progress(Some(mol), created, |created|, 0))
    requires |created| < |w.beads| && b == w.beads[|created|]
    modifies store
    ensures Reached(w, before, store.State(), g)
    ensures r.Ok? ==> g == Progress(Some(mol), created + [r.value], |created| + 1, 0)
    ensures r.Ok? ==> Acceptable(b, store.types)
    ensures r.Err? ==> Explained(w, store.types, g, r.error)
    ensures r.Err? ==> g.mol == Some(mol) && g.ordered == 0
  {
    r := store.CreateBead(b);
    if r.Err? {
      g := Progress(Some(mol), created, |created|, 0);
      return;
    }
    ghost var mid := old(store.State());
    StepCreated(w, before, mid, mol, created, r.value);
    g := Progress(Some(mol), created + [r.value], |created|, 0);
    LinkIsNew(w, before, mid, mol, created, r.value);
    var l := store.AddDependency(Dep(r.value, mol, "parent-child"));
    if l.Err? {
      return Err(l.error), g;
    }
    StepLinked(w, before, Contents(store.beads, mid.deps), mol, created, r.value);
    g := Progress(Some(mol), created + [r.value], |created| + 1, 0);
  }

  method CreateSteps(store: Store, p: Plan, mol: Id, molLabels: seq<string>, ghost w: Work, ghost before: Contents)
      returns (r: Result<map<string, Id>, StoreError>, ghost g: Progress)
    requires molLabels == MergedLabels(p.formula.labels, p.labels) && Builds(p, w)
    requires Closed(before) && Reached(w, before, store.State(), Progress(Some(mol), [], 0, 0))
    modifies store
    ensures Reached(w, before, store.State(), g) && g.mol == Some(mol) && g.ordered == 0
    ensures r.Ok? ==> g.linked == |g.created| == |p.active| && r.value == IdMap(p.active, g.created)
    ensures r.Ok? ==> forall i :: 0 <= i < |w.beads| ==> Acceptable(w.beads[i], store.types)
    ensures r.Err? ==> Explained(w, store.types, g, r.error)
  {
    hide Acceptable, StepBead, Explained, Reached, IdMap, MergedLabels;
    var stepBeadIds: map<string, Id> := map[];
    ghost var created: seq<Id> := [];
    IdMapGrows(p.active, created);
    g := Progress(Some(mol), [], 0, 0);
    for i := 0 to |p.active|
      invariant |created| == i && g == Progress(Some(mol), created, |created|, 0)
      invariant Reached(w, before, store.State(), g)
      invariant stepBeadIds == IdMap(p.active, created)
      invariant forall k :: 0 <= k < i ==> Acceptable(w.beads[k], store.types)
    {
      var b := BuildStepBead(p, molLabels, p.active[i]);
      var c;
      c, g := CreateStep(store, mol, b, w, before, created);
      if c.Err? {
        return Err(c.error), g;
      }
      stepBeadIds := stepBeadIds[p.active[i].id := c.value];
      created := created + [c.value];
      IdMapGrows(p.active, created);
      assert created[..i] == created[..|created| - 1];
    }
    r := Ok(stepBeadIds);
  }

  // ----- ordering edges

  /** What is known of the store while ordering edges are added. */
  ghost predicate OrderDone(w: Work, before: Contents, after: Contents, mol: Id, created: seq<Id>, n: nat) {
    |created| == |w.beads| && Reached(w, before, after, Progress(Some(mol), created, |created|, n))
  }

  /** The store has got the next edge only if this pour has added it before, and it has both ends. */
  lemma EdgeIsNew(w: Work, before: Contents, mid: Contents, mol: Id, created: seq<Id>, n: nat)
    requires Closed(before) && Coherent(w) && OrderDone(w, before, mid, mol, created, n) && n < |w.edges|
    ensures var (i, j) := w.edges[n];
      && i < |created| && j < |created| && created[i] in mid.beads && created[j] in mid.beads
      && (Blocks(created[i], created[j]) in mid.deps <==> w.edges[n] in w.edges[..n])
  {
    var (i, j) := w.edges[n];
    assert w.edges[n] in w.edges;
    assert created[i] in created && created[j] in created;
    assert Blocks(created[i], created[j]) !in before.deps;
    EdgeAmong(created, w.edges[..n], w.edges[n]);
    hide BlockDeps, NoRepeats, Stored;
  }

  lemma EdgeAmong(created: seq<Id>, edges: seq<(nat, nat)>, e: (nat, nat))
    requires NoRepeats(created) && e.0 < |created| && e.1 < |created|
    ensures Blocks(created[e.0], created[e.1]) in BlockDeps(created, edges) <==> e in edges
  {
    forall f | f in edges && f.0 < |created| && f.1 < |created|
      ensures Blocks(created[e.0], created[e.1]) == Blocks(created[f.0], created[f.1]) ==> f == e
    {
    }
  }

  lemma EdgeAdded(w: Work, before: Contents, mid: Contents, mol: Id, created: seq<Id>, n: nat)
    requires Coherent(w) && OrderDone(w, before, mid, mol, created, n) && n < |w.edges|
    requires w.edges[n].0 < |created| && w.edges[n].1 < |created| && w.edges[n] !in w.edges[..n]
    ensures var e := Blocks(created[w.edges[n].0], created[w.edges[n].1]);
      OrderDone(w, before, Contents(mid.beads, mid.deps + {e}), mol, created, n + 1)
  {
    hide BeadsMade, FreshIds;
    assert w.edges[..n + 1] == w.edges[..n] + [w.edges[n]];
    assert BlockDeps(created, w.edges[..n + 1]) ==
      BlockDeps(created, w.edges[..n]) + {Blocks(created[w.edges[n].0], created[w.edges[n].1])};
  }

  lemma RepeatedEdge(edges: seq<(nat, nat)>, n: nat)
    requires n < |edges| && edges[n] in edges[..n]
    ensures !NoRepeats(edges)
  {
    var k :| 0 <= k < n && edges[k] == edges[n];
  }

  method AddBlock(store: Store, bead: Id, dependsOn: Id, ghost w: Work, ghost before: Contents, ghost mol: Id,
                  ghost created: seq<Id>, ghost n: nat)
      returns (r: Result<(), StoreError>)
    requires Closed(before) && Coherent(w) && OrderDone(w, before, store.State(), mol, created, n)
    requires n < |w.edges| && w.edges[n].0 < |created| && w.edges[n].1 < |created|
    requires bead == created[w.edges[n].0] && dependsOn == created[w.edges[n].1]
    modifies store
    ensures OrderDone(w, before, store.State(), mol, created, if r.Ok? then n + 1 else n)
    ensures r.Err? ==> Explained(w, store.types, Progress(Some(mol), created, |created|, n), r.error)
  {
    EdgeIsNew(w, before, store.State(), mol, created, n);
    r := store.AddDependency(Dep(bead, dependsOn, "blocks"));
    if r.Err? {
      if w.edges[n] in w.edges[..n] {
        RepeatedEdge(w.edges, n);
      }
      return;
    }
    EdgeAdded(w, before, old(store.State()), mol, created, n);
  }

  lemma {:induction false} StepPlacesPrefix(active: seq<Step>, i: nat, deps: seq<string>, j: nat)
    requires j <= |deps|
    ensures StepPlaces(active, i, deps[..j]) <= StepPlaces(active, i, deps)
  {
    hide Place;
    if j == |deps| {
      assert deps[..j] == deps;
    } else {
      assert deps[..|deps| - 1][..j] == deps[..j];
      StepPlacesPrefix(active, i, deps[..|deps| - 1], j);
    }
  }

  lemma {:induction false} EdgePlacesPrefix(active: seq<Step>, m: nat, n: nat)
    requires m <= n <= |active|
    ensures EdgePlaces(active, m) <= EdgePlaces(active, n)
  {
    hide Place;
    if m < n {
      EdgePlacesPrefix(active, m, n - 1);
    }
  }

  /** The next call of the nested loops is the next edge of the plan. */
  lemma NextEdge(active: seq<Step>, i: nat, j: nat)
    requires i < |active| && j < |active[i].dependsOn| && active[i].dependsOn[j] in StepIds(active)
    ensures var a, b, deps :=
        Place(active, active[i].id).value, Place(active, active[i].dependsOn[j]).value, active[i].dependsOn;
      var n := |EdgePlaces(active, i)| + |StepPlaces(active, a, deps[..j])|;
      && n < |EdgePlaces(active, |active|)| && EdgePlaces(active, |active|)[n] == (a, b)
      && |StepPlaces(active, a, deps[..j + 1])| == |StepPlaces(active, a, deps[..j])| + 1
  {
    hide Place;
    var a, deps := Place(active, active[i].id).value, active[i].dependsOn;
    assert deps[..j + 1][..j] == deps[..j];
    StepPlacesPrefix(active, a, deps, j + 1);
    EdgePlacesPrefix(active, i + 1, |active|);
  }

  lemma NoEdge(active: seq<Step>, a: nat, deps: seq<string>, j: nat)
    requires j < |deps| && deps[j] !in StepIds(active)
    ensures StepPlaces(active, a, deps[..j + 1]) == StepPlaces(active, a, deps[..j])
  {
    hide Place;
    assert deps[..j + 1][..j] == deps[..j];
  }

  lemma FirstEdges(active: seq<Step>, i: nat)
    requires i < |active|
    ensures active[i].id in StepIds(active)
    ensures var a, deps := Place(active, active[i].id).value, active[i].dependsOn;
      && StepPlaces(active, a, deps[..0]) == [] && deps[..|deps|] == deps
      && |EdgePlaces(active, i + 1)| == |EdgePlaces(active, i)| + |StepPlaces(active, a, deps)|
  {
    hide Place;
    assert active[i] in active;
  }

  /** The id map holds the bead at each step's place. */
  ghost predicate Names(active: seq<Step>, created: seq<Id>, ids: map<string, Id>) {
    && |created| == |active| && ids.Keys == StepIds(active)
    && forall id <- ids :: ids[id] == created[Place(active, id).value]
  }

  method AddBlocksOfStep(store: Store, p: Plan, stepBeadIds: map<string, Id>, i: nat,
                         ghost w: Work, ghost before: Contents, ghost mol: Id, ghost created: seq<Id>)
      returns (r: Result<(), StoreError>, ghost n: nat)
    requires i < |p.active| && Names(p.active, created, stepBeadIds)
    requires Closed(before) && Coherent(w) && w.edges == EdgePlaces(p.active, |p.active|)
    requires OrderDone(w, before, store.State(), mol, created, |EdgePlaces(p.active, i)|)
    modifies store
    ensures OrderDone(w, before, store.State(), mol, created, n)
    ensures r.Ok? ==> n == |EdgePlaces(p.active, i + 1)|
    ensures r.Err? ==> Explained(w, store.types, Progress(Some(mol), created, |created|, n), r.error)
  {
    hide OrderDone, Explained, Coherent, Closed, Place, StepIds, StepPlaces, EdgePlaces;
    var s := p.active[i];
    FirstEdges(p.active, i);
    ghost var a := Place(p.active, s.id).value;
    n := |EdgePlaces(p.active, i)|;
    for j := 0 to |s.dependsOn|
      invariant OrderDone(w, before, store.State(), mol, created, n)
      invariant n == |EdgePlaces(p.active, i)| + |StepPlaces(p.active, a, s.dependsOn[..j])|
    {
      var dep := s.dependsOn[j];
      if dep !in stepBeadIds {
        NoEdge(p.active, a, s.dependsOn, j);
        continue;
      }
      NextEdge(p.active, i, j);
      var b := AddBlock(store, stepBeadIds[s.id], stepBeadIds[dep], w, before, mol, created, n);
      if b.Err? {
        return Err(b.error), n;
      }
      n := n + 1;
    }
    r := Ok(());
  }

  method AddBlocks(store: Store, p: Plan, stepBeadIds: map<string, Id>, ghost w: Work, ghost before: Contents,
                   ghost mol: Id, ghost created: seq<Id>)
      returns (r: Result<(), StoreError>, ghost n: nat)
    requires Names(p.active, created, stepBeadIds)
    requires Closed(before) && Coherent(w) && w.edges == EdgePlaces(p.active, |p.active|)
    requires OrderDone(w, before, store.State(), mol, created, 0)
    modifies store
    ensures OrderDone(w, before, store.State(), mol, created, n)
    ensures r.Ok? ==> n == |w.edges|
    ensures r.Err? ==> Explained(w, store.types, Progress(Some(mol), created, |created|, n), r.error)
  {
    hide OrderDone, Explained, Coherent, Closed, Names;
    n := 0;
    for i := 0 to |p.active|
      invariant OrderDone(w, before, store.State(), mol, created, n)
      invariant n == |EdgePlaces(p.active, i)|
    {
      r, n := AddBlocksOfStep(store, p, stepBeadIds, i, w, before, mol, created);
      if r.Err? {
        return;
      }
    }
    r := Ok(());
  }

  lemma NamesOfAll(active: seq<Step>, created: seq<Id>)
    requires |created| == |active|
    ensures Names(active, created, IdMap(active, created))
  {
    IdMapPlaces(active, created);
    assert active[..|created|] == active;
  }

  method BuildMoleculeBead(p: Plan, molLabels: seq<string>) returns (b: Bead)
    requires molLabels == MergedLabels(p.formula.labels, p.labels)
    ensures b == MoleculeBead(p)
  {
    var fields := map["formula_id" := Text(p.formulaId), "applied_vars" := VarMap(p.vars)];
    if p.ephemeral {
      fields := fields["ephemeral" := Flag(true)];
    }
    b := Bead("molecule", SubstituteVars(p.formula.title, p.vars), SubstituteVars(p.formula.description, p.vars),
              p.formula.priority, molLabels, p.assignee, p.actor, fields);
  }

  /** What a pour reports: the molecule, and the bead of each step. */
  datatype Poured = Poured(mol: Id, steps: map<string, Id>)

  method CreateAll(store: Store, p: Plan) returns (r: Result<Poured, StoreError>, ghost g: Progress)
    requires Closed(store.State())
    modifies store
    ensures Reached(WorkOf(p), old(store.State()), store.State(), g)
    ensures r.Ok? ==> Complete(WorkOf(p), g) && r.value == Poured(g.mol.value, IdMap(p.active, g.created))
    ensures r.Ok? ==> AllAccepted(WorkOf(p), store.types)
    ensures r.Err? ==> Explained(WorkOf(p), store.types, g, r.error)
  {
    hide WorkOf, Builds, MoleculeBead, BeadsMade, Coherent, EdgePlaces, MergedLabels, FreshIds, Acceptable, Place;
    ghost var before, w := store.State(), WorkOf(p);
    WorkFacts(p);
    g := NOTHING_DONE;
    var molLabels := MergeLabels(p.formula.labels, p.labels);
    var molBead := BuildMoleculeBead(p, molLabels);
    var mol := store.CreateBead(molBead);
    if mol.Err? {
      return Err(mol.error), g;
    }
    MoleculeCreated(w, before, mol.value);
    var steps;
    steps, g := CreateSteps(store, p, mol.value, molLabels, w, before);
    if steps.Err? {
      return Err(steps.error), g;
    }
    ghost var created := g.created;
    NamesOfAll(p.active, created);
    var blocked;
    ghost var n;
    blocked, n := AddBlocks(store, p, steps.value, w, before, mol.value, created);
    g := Progress(Some(mol.value), created, |created|, n);
    if blocked.Err? {
      return Err(blocked.error), g;
    }
    r := Ok(Poured(mol.value, steps.value));
  }

  /** pour, wisp and apply: a plan, then one molecule, its steps, and their ordering. */
  method RunFormulaApply(store: Store, formulaId: Id, o: Options)
      returns (r: Result<Option<Poured>, PourError>, ghost plan: Result<Plan, PourError>, ghost g: Progress)
    requires Closed(store.State())
    modifies store
    ensures plan == Planned(old(store.beads), formulaId, o)
    ensures plan.Err? ==> r == Err(plan.error)
    ensures plan.Err? || o.dryRun ==> g == NOTHING_DONE && store.State() == old(store.State())
    ensures plan.Ok? && o.dryRun ==> r == Ok(None)
    ensures plan.Ok? && !o.dryRun ==>
      && Reached(WorkOf(plan.value), old(store.State()), store.State(), g)
      && (r.Ok? ==> Complete(WorkOf(plan.value), g) && AllAccepted(WorkOf(plan.value), store.types))
      && (r.Ok? ==> r.value == Some(Poured(g.mol.value, IdMap(plan.value.active, g.created))))
      && (r.Err? ==> r.error.Failed? && Explained(WorkOf(plan.value), store.types, g, r.error.s))
  {
    hide Planned, Reached, Complete, Explained, AllAccepted, WorkOf, IdMap;
    g := NOTHING_DONE;
    var m := MakePlan(store, formulaId, o);
    plan := m;
    if m.Err? {
      return Err(m.error), plan, g;
    }
    if o.dryRun {
      return Ok(None), plan, g;
    }
    var c;
    c, g := CreateAll(store, m.value);
    r := if c.Ok? then Ok(Some(c.value)) else Err(Failed(c.error));
  }
}
