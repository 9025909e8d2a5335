/**
 What pour, wisp and apply make of their inputs: the plan told from the command line and the stored
 formula, the reasons for having none, and what the created beads then hold.
 */
module Plans {
  import opened Wrappers
  import opened Places
  import Text
  import opened Template
  import opened BeadStore
  import opened Formula
  import opened Molecule
  import opened Lifecycle

  /** The list kept under a key of a formula's fields; a missing key means an empty one. */
  function StoredDefs(f: Bead): seq<VarDef> {
    if "vars" in f.fields && f.fields["vars"].VarDefs? then f.fields["vars"].defs else []
  }

  /** Whether the fields have the kinds a formula's fields have. */
  predicate Readable(f: Bead) {
    && ("vars" in f.fields ==> f.fields["vars"].VarDefs?)
    && ("steps" in f.fields ==> f.fields["steps"].Steps?)
    && ("default_roles" in f.fields ==> f.fields["default_roles"].Names?)
    && ("assigned_agent" in f.fields ==> f.fields["assigned_agent"].Text?)
  }

  /**
   A plan is for a formula with steps. Its labels, actor and kind are the options'; its assignee is the
   option's, else the formula's agent; its roles are the formula's.
   */
  lemma PlanFromInputs(beads: map<Id, Bead>, formulaId: Id, o: Options, p: Plan)
    requires Planned(beads, formulaId, o) == Ok(p)
    ensures formulaId in beads
    ensures var f := beads[formulaId];
      && f.typ == "formula" && Readable(f) && "steps" in f.fields && f.fields["steps"].steps != []
      && p.formulaId == formulaId && p.formula == f
      && p.labels == o.labels && p.actor == o.actor && p.ephemeral == o.ephemeral
      && (o.assignee != "" ==> p.assignee == o.assignee)
      && (o.assignee == "" && "assigned_agent" in f.fields ==> f.fields["assigned_agent"] == Text(p.assignee))
      && (o.assignee == "" && "assigned_agent" !in f.fields ==> p.assignee == "")
      && (if "default_roles" in f.fields then f.fields["default_roles"] == Names(p.defaultRoles)
          else p.defaultRoles == [])
  {
    hide ResolvedVars, ActiveSteps;
  }

  /**
   Each variable of a plan is the text after the equals sign of the last pair for its name on the command
   line, else the first default of that name in the formula that is not empty; no other has a value.
   */
  lemma PlanVariables(beads: map<Id, Bead>, formulaId: Id, o: Options, p: Plan, name: string, value: string)
    requires Planned(beads, formulaId, o) == Ok(p)
    ensures formulaId in beads
    ensures var defs := StoredDefs(beads[formulaId]);
      name in p.vars && p.vars[name] == value <==>
        || (exists i :: LastPair(o.pairs, name, value, i))
        || (!Named(o.pairs, name) &&
            exists j: nat :: FirstDefault(defs, j) && defs[j].name == name && defs[j].default == value)
  {
    var defs := StoredDefs(beads[formulaId]);
    assert ResolvedVars(o.pairs, defs) == Ok(p.vars) by {
      hide ResolvedVars, ActiveSteps;
    }
    ValuesFromPairs(o.pairs, defs, name, value);
    hide ResolvedVars, LastPair, Named, FirstDefault;
  }

  /**
   The steps of a plan are, in the formula's order, those without a condition or whose condition holds of
   its variables, filled in with them and without references to the others.
   */
  lemma PlanSteps(beads: map<Id, Bead>, formulaId: Id, o: Options, p: Plan) returns (places: seq<nat>)
    requires Planned(beads, formulaId, o) == Ok(p)
    ensures formulaId in beads && "steps" in beads[formulaId].fields && beads[formulaId].fields["steps"].Steps?
    ensures var steps := beads[formulaId].fields["steps"].steps;
      && |p.active| == |places| > 0
      && (forall j, k :: 0 <= j < k < |places| ==> places[j] < places[k])
      && (forall i: nat :: i < |steps| ==>
            (i in places <==> steps[i].condition == "" || EvaluateCondition(steps[i].condition, p.vars)))
      && (forall k :: 0 <= k < |places| ==>
            places[k] < |steps| && FilledIn(steps[places[k]], p.vars, SkippedIds(steps, p.vars), p.active[k]))
  {
    PlanFromInputs(beads, formulaId, o, p);
    var steps := beads[formulaId].fields["steps"].steps;
    assert p.active == ActiveFrom(steps, p.vars, SkippedIds(steps, p.vars)) != [] by {
      hide ResolvedVars, ActiveFrom;
    }
    places := ActiveInOrder(steps, p.vars, SkippedIds(steps, p.vars));
    hide Planned, EvaluateCondition, FilledIn;
  }

  /** Why there is no plan: the first of these that is the case. */
  ghost predicate Reason(beads: map<Id, Bead>, formulaId: Id, o: Options, e: PourError) {
    if formulaId !in beads then e == NoFormula
    else
      var f := beads[formulaId];
      if f.typ != "formula" then e == NotAFormulaBead
      else if f.fields.Keys == {} then e == NoFields
      else if !Readable(f) then e == BadFields
      else if "steps" !in f.fields || f.fields["steps"].steps == [] then e == NoStepsInFormula
      else e.VarProblem? || e == NothingToCreate
  }

  lemma NoPlanReason(beads: map<Id, Bead>, formulaId: Id, o: Options)
    requires Planned(beads, formulaId, o).Err?
    ensures Reason(beads, formulaId, o, Planned(beads, formulaId, o).error)
  {
    hide ResolvedVars, ActiveSteps;
    if formulaId in beads {
      assert beads[formulaId].fields == map[] <==> beads[formulaId].fields.Keys == {};
    }
  }

  /** `given` holds just what the pairs say. */
  ghost predicate GivenBy(pairs: seq<string>, given: Vars) {
    forall name, value :: Lookup(given, name) == Some(value) <==> exists k :: LastPair(pairs, name, value, k)
  }

  /** `vars` holds just what the pairs and the defaults say. */
  ghost predicate ValuedBy(pairs: seq<string>, defs: seq<VarDef>, vars: Vars) {
    forall name, value ::
      Lookup(vars, name) == Some(value) <==>
        || (exists i :: LastPair(pairs, name, value, i))
        || (!Named(pairs, name) &&
            exists j: nat :: FirstDefault(defs, j) && defs[j].name == name && defs[j].default == value)
  }

  ghost predicate DefinitionNotMet(pairs: seq<string>, defs: seq<VarDef>, e: VarError) {
    exists given: Vars, i: int :: GivenBy(pairs, given) && RefusedFor(defs, given, e, i)
  }

  /** A problem with the variables: a text that is no pair, or a definition that is not met. */
  lemma VariableProblemExplained(beads: map<Id, Bead>, formulaId: Id, o: Options, e: VarError)
    requires Planned(beads, formulaId, o) == Err(VarProblem(e))
    ensures formulaId in beads
    ensures match e
      case BadPair(s) => s in o.pairs && !IsSomePair(s)
      case _ => DefinitionNotMet(o.pairs, StoredDefs(beads[formulaId]), e)
  {
    var defs := StoredDefs(beads[formulaId]);
    assert ResolvedVars(o.pairs, defs) == Err(e) by {
      hide ResolvedVars, ActiveSteps;
    }
    if ParsePairs(o.pairs).Err? {
      BadPairIsThere(o.pairs);
    } else {
      var given := ParsePairs(o.pairs).value;
      assert GivenBy(o.pairs, given) by {
        forall name, value
          ensures Lookup(given, name) == Some(value) <==> exists k :: LastPair(o.pairs, name, value, k)
        {
          PairsExactly(o.pairs, name, value);
        }
      }
      var i := RefusalExplained(defs, given);
      hide Planned, ParsePairs, GivenBy;
      assert e.BadPair? ==> !RefusedFor(defs, given, e, i);
    }
  }

  lemma {:induction false} BadPairIsThere(pairs: seq<string>)
    requires ParsePairs(pairs).Err?
    ensures ParsePairs(pairs).error.BadPair? && ParsePairs(pairs).error.pair in pairs
    ensures !IsSomePair(ParsePairs(pairs).error.pair)
  {
    var n := |pairs| - 1;
    if ParsePairs(pairs[..n]).Err? {
      BadPairIsThere(pairs[..n]);
      hide IsSomePair, SplitField;
    } else {
      forall k: string, v: string
        ensures !IsPair(pairs[n], k, v)
      {
        SplitExactly(pairs[n], k, v);
      }
    }
  }

  ghost predicate NoneHolds(pairs: seq<string>, defs: seq<VarDef>, steps: seq<Step>) {
    exists vars: Vars ::
      ValuedBy(pairs, defs, vars) && forall s <- steps :: s.condition != "" && !EvaluateCondition(s.condition, vars)
  }

  /** There is nothing to create when no step's condition holds. */
  lemma NothingToCreateExplained(beads: map<Id, Bead>, formulaId: Id, o: Options)
    requires Planned(beads, formulaId, o) == Err(NothingToCreate)
    ensures formulaId in beads && "steps" in beads[formulaId].fields && beads[formulaId].fields["steps"].Steps?
    ensures NoneHolds(o.pairs, StoredDefs(beads[formulaId]), beads[formulaId].fields["steps"].steps)
  {
    hide EvaluateCondition, ActiveFrom;
    var steps := beads[formulaId].fields["steps"].steps;
    var vars := ResolvedVars(o.pairs, StoredDefs(beads[formulaId])).value;
    assert ActiveFrom(steps, vars, SkippedIds(steps, vars)) == [];
    var places := ActiveInOrder(steps, vars, SkippedIds(steps, vars));
    forall s | s in steps
      ensures s.condition != "" && !EvaluateCondition(s.condition, vars)
    {
      var i :| 0 <= i < |steps| && steps[i] == s;
      assert i !in places;
    }
    ResolvedIsValued(o.pairs, StoredDefs(beads[formulaId]), vars);
  }

  lemma ResolvedIsValued(pairs: seq<string>, defs: seq<VarDef>, vars: Vars)
    requires ResolvedVars(pairs, defs) == Ok(vars)
    ensures ValuedBy(pairs, defs, vars)
  {
    forall name, value
      ensures Lookup(vars, name) == Some(value) <==>
        || (exists i :: LastPair(pairs, name, value, i))
        || (!Named(pairs, name) &&
            exists j: nat :: FirstDefault(defs, j) && defs[j].name == name && defs[j].default == value)
    {
      ValuesFromPairs(pairs, defs, name, value);
    }
  }

  // ----- from the file to the plan

  /** What a formula created from a file holds is read back as the file, with the assignee as its agent. */
  lemma CreatedIsRead(file: FormulaFile, assignee: string)
    ensures Decode(CreatedFields(file, assignee)) ==
            Some(Definition(file.defs, file.steps, file.defaultRoles, assignee))
    ensures CreatedFields(file, assignee).Keys ==
            {"vars", "steps"} + (if |file.defaultRoles| > 0 then {"default_roles"} else {})
            + if |assignee| > 0 then {"assigned_agent"} else {}
  {
  }

  /** After an update the new file is read back, with the roles of the old one, and the agent unless one was named. */
  lemma UpdatedIsRead(first: FormulaFile, second: FormulaFile, before: string, assignee: string, clear: bool)
    ensures Decode(UpdatedFields(CreatedFields(first, before), Some(second), assignee, clear)) ==
            Some(Definition(second.defs, second.steps, first.defaultRoles,
                            if clear || assignee == "" then before else assignee))
  {
  }

  // ----- what is created

  /** The store takes a bead with a title of 1 to 500 characters, a priority of 0 to 4 and a configured type. */
  lemma AcceptedMeans(b: Bead, types: set<string>)
    ensures Acceptable(b, types) <==>
      && 1 <= |Text.TrimSpace(b.title)| <= 500 && b.priority in {0, 1, 2, 3, 4}
      && (if b.typ == "template" then "formula" in types else if b.typ == "bundle" then "molecule" in types
          else b.typ in types)
  {
  }

  /**
   What the store can object to in a pour, told from the plan: a title that is empty or longer than 500, a
   priority outside 0 to 4, a type without configuration, or a step that names a kept step twice.
   */
  lemma PourableIff(p: Plan, types: set<string>)
    requires Formula.DistinctIds(p.active)
    ensures Pourable(WorkOf(p), types) <==>
      && Acceptable(MoleculeBead(p), types) && (forall s <- p.active :: Acceptable(StepBead(p, s), types))
      && forall s, j, k | s in p.active && 0 <= j < k < |s.dependsOn| ::
           s.dependsOn[j] != s.dependsOn[k] || s.dependsOn[j] !in StepIds(p.active)
  {
    WorkFacts(p);
    AcceptedIff(p, WorkOf(p), types);
    NoEdgeTwiceIff(p.active, |p.active|);
    NamedTwiceIff(p.active);
    hide Acceptable, MoleculeBead, StepBead, WorkOf, NoRepeats, EdgePlaces, StepIds, Known, AllAccepted, Builds;
    hide Coherent;
  }

  lemma AcceptedIff(p: Plan, w: Work, types: set<string>)
    requires Builds(p, w) && w.molecule == MoleculeBead(p)
    ensures AllAccepted(w, types) <==>
      Acceptable(MoleculeBead(p), types) && forall s <- p.active :: Acceptable(StepBead(p, s), types)
  {
    hide Acceptable, MoleculeBead, StepBead;
    assert forall i | 0 <= i < |p.active| :: p.active[i] in p.active;
    forall s | s in p.active
      ensures exists i :: 0 <= i < |w.beads| && w.beads[i] == StepBead(p, s)
    {
      var i :| 0 <= i < |p.active| && p.active[i] == s;
    }
  }

  lemma NamedTwiceIff(active: seq<Step>)
    ensures (forall i :: 0 <= i < |active| ==> NoRepeats(Known(active[i].dependsOn, StepIds(active)))) <==>
      forall s, j, k | s in active && 0 <= j < k < |s.dependsOn| ::
           s.dependsOn[j] != s.dependsOn[k] || s.dependsOn[j] !in StepIds(active)
  {
    hide NoRepeats, StepIds, Known;
    forall i | 0 <= i < |active|
      ensures NoRepeats(Known(active[i].dependsOn, StepIds(active))) <==>
        forall j, k :: 0 <= j < k < |active[i].dependsOn| ==>
            active[i].dependsOn[j] != active[i].dependsOn[k] || active[i].dependsOn[j] !in StepIds(active)
      ensures active[i] in active
    {
      KnownRepeatsIff(active[i].dependsOn, StepIds(active));
    }
  }

  lemma {:induction false} KnownExactly(deps: seq<string>, ids: set<string>)
    ensures forall d :: d in Known(deps, ids) <==> d in deps && d in ids
  {
    if deps != [] {
      KnownExactly(deps[..|deps| - 1], ids);
      assert deps == deps[..|deps| - 1] + [deps[|deps| - 1]];
    }
  }

  lemma {:induction false} KnownRepeatsIff(deps: seq<string>, ids: set<string>)
    ensures NoRepeats(Known(deps, ids)) <==>
            forall j, k :: 0 <= j < k < |deps| ==> deps[j] != deps[k] || deps[j] !in ids
  {
    if deps != [] {
      var n := |deps| - 1;
      var known, last := Known(deps[..n], ids), deps[n];
      KnownRepeatsIff(deps[..n], ids);
      KnownExactly(deps[..n], ids);
      if last in ids {
        assert Known(deps, ids) == known + [last];
        AppendRepeatsIff(known, last);
        assert last in deps[..n] <==> exists j :: 0 <= j < n && deps[j] == last;
      } else {
        assert Known(deps, ids) == known;
      }
      hide Known, NoRepeats;
    }
  }

  lemma AppendRepeatsIff(s: seq<string>, x: string)
    ensures NoRepeats(s + [x]) <==> NoRepeats(s) && x !in s
  {
    assert (s + [x])[|s|] == x;
    assert forall j :: 0 <= j < |s| ==> (s + [x])[j] == s[j];
  }
}
