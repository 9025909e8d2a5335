/**
 Formulas before anything is created: validation, field updates, variable resolution, and the
 expansion that drops skipped steps.
 */
module Formula {
  import opened Wrappers
  import opened Text
  import opened Template
  import opened BeadStore
  import opened Places

  // ----- validation (create and update share it)

  datatype StepError =
    | NoSteps
    | NoId
    | NoTitle(id: string)
    | DuplicateId(id: string)
    | UnknownDependency(id: string, dep: string)

  function StepIds(steps: seq<Step>): set<string> {
    set s | s in steps :: s.id
  }

  ghost predicate DistinctIds(steps: seq<Step>) {
    forall i, j :: 0 <= i < j < |steps| ==> steps[i].id != steps[j].id
  }

  /** What a stored formula is supposed to satisfy. Cycles are not ruled out, nor are repeats in depends_on. */
  ghost predicate WellFormed(steps: seq<Step>) {
    && steps != []
    && (forall s <- steps :: s.id != "" && s.title != "")
    && DistinctIds(steps)
    && (forall s <- steps, d :: d in s.dependsOn ==> d in StepIds(steps))
  }

  /** The complaint is about a step that is really there. */
  ghost predicate Justified(steps: seq<Step>, e: StepError) {
    match e
    case NoSteps => steps == []
    case NoId => exists s <- steps :: s.id == ""
    case NoTitle(id) => exists s <- steps :: s.id == id && s.title == ""
    case DuplicateId(id) => exists i, j :: 0 <= i < j < |steps| && steps[i].id == steps[j].id == id
    case UnknownDependency(id, dep) => dep !in StepIds(steps) && exists s <- steps :: s.id == id && dep in s.dependsOn
  }

  method CheckIds(steps: seq<Step>) returns (r: Result<set<string>, StepError>)
    ensures r.Ok? ==> r.value == StepIds(steps) && DistinctIds(steps)
    ensures r.Ok? ==> forall s <- steps :: s.id != "" && s.title != ""
    ensures r.Err? ==> Justified(steps, r.error) && !WellFormed(steps)
  {
    var stepIds: set<string> := {};
    for i := 0 to |steps|
      invariant forall id :: id in stepIds <==> exists k :: 0 <= k < i && steps[k].id == id
      invariant forall k :: 0 <= k < i ==> steps[k].id != "" && steps[k].title != ""
      invariant forall j, k :: 0 <= j < k < i ==> steps[j].id != steps[k].id
    {
      var s := steps[i];
      assert s in steps;
      if s.id == "" {
        return Err(NoId);
      }
      if s.title == "" {
        return Err(NoTitle(s.id));
      }
      if s.id in stepIds {
        return Err(DuplicateId(s.id));
      }
      stepIds := stepIds + {s.id};
    }
    assert stepIds == StepIds(steps);
    r := Ok(stepIds);
  }

  method CheckDependencies(s: Step, stepIds: set<string>) returns (unknown: Option<string>)
    ensures unknown.None? <==> forall d :: d in s.dependsOn ==> d in stepIds
    ensures unknown.Some? ==> unknown.value in s.dependsOn && unknown.value !in stepIds
  {
    for j := 0 to |s.dependsOn|
      invariant forall k :: 0 <= k < j ==> s.dependsOn[k] in stepIds
    {
      if s.dependsOn[j] !in stepIds {
        return Some(s.dependsOn[j]);
      }
    }
    unknown := None;
  }

  method ValidateSteps(steps: seq<Step>) returns (r: Result<(), StepError>)
    ensures r.Ok? <==> WellFormed(steps)
    ensures r.Ok? <==>
      && |steps| > 0 && (forall i :: 0 <= i < |steps| ==> |steps[i].id| > 0 && |steps[i].title| > 0)
      && (forall i, j :: 0 <= i < j < |steps| ==> steps[i].id != steps[j].id)
      && forall i, d :: 0 <= i < |steps| && d in steps[i].dependsOn ==> exists j :: 0 <= j < |steps| && steps[j].id == d
    ensures r == Err(NoSteps) <==> |steps| == 0
    ensures r == Err(NoId) ==> exists s <- steps :: |s.id| == 0
    ensures r.Err? && r.error.NoTitle? ==> exists s <- steps :: s.id == r.error.id && |s.title| == 0
    ensures r.Err? && r.error.DuplicateId? ==>
      exists i, j :: 0 <= i < j < |steps| && steps[i].id == r.error.id && steps[j].id == r.error.id
    ensures r.Err? && r.error.UnknownDependency? ==>
      && (forall s <- steps :: s.id != r.error.dep)
      && exists s <- steps :: s.id == r.error.id && r.error.dep in s.dependsOn
  {
    if |steps| == 0 {
      return Err(NoSteps);
    }
    WellFormedMeans(steps);
    var ids := CheckIds(steps);
    if ids.Err? {
      return Err(ids.error);
    }
    for i := 0 to |steps|
      invariant forall k, d :: 0 <= k < i && d in steps[k].dependsOn ==> d in ids.value
    {
      var unknown := CheckDependencies(steps[i], ids.value);
      if unknown.Some? {
        assert steps[i] in steps;
        return Err(UnknownDependency(steps[i].id, unknown.value));
      }
    }
    r := Ok(());
  }

  lemma WellFormedMeans(steps: seq<Step>)
    ensures WellFormed(steps) <==>
      && |steps| > 0 && (forall i :: 0 <= i < |steps| ==> |steps[i].id| > 0 && |steps[i].title| > 0)
      && (forall i, j :: 0 <= i < j < |steps| ==> steps[i].id != steps[j].id)
      && forall i, d :: 0 <= i < |steps| && d in steps[i].dependsOn ==> exists j :: 0 <= j < |steps| && steps[j].id == d
  {
    forall d
      ensures d in StepIds(steps) <==> exists j :: 0 <= j < |steps| && steps[j].id == d
    {
    }
    assert forall i | 0 <= i < |steps| :: steps[i] in steps;
    if WellFormed(steps) {
      forall i, d | 0 <= i < |steps| && d in steps[i].dependsOn
        ensures exists j :: 0 <= j < |steps| && steps[j].id == d
      {
        assert d in StepIds(steps);
      }
    }
    forall s, d | s in steps && d in s.dependsOn
      ensures exists i :: 0 <= i < |steps| && steps[i] == s && d in steps[i].dependsOn
    {
    }
    hide StepIds;
  }

  // ----- create and update

  /** A formula file; `update` has no member for the roles and ignores them. */
  datatype FormulaFile = FormulaFile(defs: seq<VarDef>, steps: seq<Step>, defaultRoles: seq<string>)

  datatype FormulaError =
    | BadSteps(e: StepError)
    | FromStore(s: StoreError)
    | NothingToDo
    | NotAFormula

  function CreatedFields(file: FormulaFile, assignee: string): map<string, Value> {
    map["vars" := VarDefs(file.defs), "steps" := Steps(file.steps)]
    + (if |file.defaultRoles| > 0 then map["default_roles" := Names(file.defaultRoles)] else map[])
    + (if assignee != "" then map["assigned_agent" := Text(assignee)] else map[])
  }

  method RunFormulaCreate(store: Store, name: string, description: string, priority: int, labels: seq<string>,
                          assignee: string, actor: string, file: FormulaFile)
      returns (r: Result<Id, FormulaError>)
    modifies store
    ensures r.Ok? ==> WellFormed(file.steps) && r.value !in old(store.beads)
    ensures r.Ok? ==> store.deps == old(store.deps) && store.beads == old(store.beads)[r.value :=
      Bead("formula", name, description, priority, labels, "", actor, CreatedFields(file, assignee))]
    ensures r.Err? ==> store.State() == old(store.State())
    ensures !WellFormed(file.steps) ==> r.Err? && r.error.BadSteps?
  {
    var v := ValidateSteps(file.steps);
    if v.Err? {
      return Err(BadSteps(v.error));
    }
    var fields := map["vars" := VarDefs(file.defs), "steps" := Steps(file.steps)];
    if |file.defaultRoles| > 0 {
      fields := fields["default_roles" := Names(file.defaultRoles)];
    }
    if assignee != "" {
      fields := fields["assigned_agent" := Text(assignee)];
    }
    assert fields == CreatedFields(file, assignee);
    var c := store.CreateBead(Bead("formula", name, description, priority, labels, "", actor, fields));
    if c.Err? {
      return Err(FromStore(c.error));
    }
    r := Ok(c.value);
  }

  method RunFormulaUpdate(store: Store, id: Id, file: Option<FormulaFile>, assignee: string, clearAssignee: bool)
      returns (r: Result<(), FormulaError>)
    modifies store
    ensures r.Ok? ==> id in old(store.beads) && old(store.beads)[id].typ == "formula"
    ensures r.Ok? ==> store.deps == old(store.deps) && store.beads == old(store.beads)[id :=
      old(store.beads)[id].(fields := UpdatedFields(old(store.beads)[id].fields, file, assignee, clearAssignee))]
    ensures r.Ok? && file.Some? ==> WellFormed(file.value.steps)
    ensures r.Err? ==> store.State() == old(store.State())
  {
    if file.None? && assignee == "" && !clearAssignee {
      return Err(NothingToDo);
    }
    if id !in store.beads {
      return Err(FromStore(NotFound));
    }
    var bead := store.beads[id];
    if bead.typ != "formula" {
      return Err(NotAFormula);
    }
    var fields: map<string, Value> := map[];
    if file.Some? {
      var v := ValidateSteps(file.value.steps);
      if v.Err? {
        return Err(BadSteps(v.error));
      }
      fields := map["vars" := VarDefs(file.value.defs), "steps" := Steps(file.value.steps)];
    } else {
      fields := bead.fields;
    }
    if clearAssignee {
      fields := fields - {"assigned_agent"};
    } else if assignee != "" {
      fields := fields["assigned_agent" := Text(assignee)];
    }
    UpdateIsAMerge(bead.fields, file, assignee, clearAssignee, fields);
    var u := store.UpdateFields(id, fields);
    if u.Err? {
      return Err(FromStore(u.error));
    }
    r := Ok(());
  }

  /** Key by key, what an update leaves in a formula's fields. */
  function UpdatedFields(before: map<string, Value>, file: Option<FormulaFile>, assignee: string,
                         clear: bool): map<string, Value> {
    before
    + (if file.Some? then map["vars" := VarDefs(file.value.defs), "steps" := Steps(file.value.steps)] else map[])
    + (if !clear && assignee != "" then map["assigned_agent" := Text(assignee)] else map[])
  }

  /** What is sent, merged by the server, comes to that. */
  lemma UpdateIsAMerge(before: map<string, Value>, file: Option<FormulaFile>, assignee: string, clear: bool,
                       sent: map<string, Value>)
    requires sent ==
      var base :=
        if file.Some? then map["vars" := VarDefs(file.value.defs), "steps" := Steps(file.value.steps)] else before;
      if clear then base - {"assigned_agent"}
      else if assignee != "" then base["assigned_agent" := Text(assignee)] else base
    ensures before + sent == UpdatedFields(before, file, assignee, clear)
  {
  }

  /** Clearing the assignee takes effect only when there is none: the merge keeps the stored key. */
  lemma ClearAssigneeWorksIff(before: map<string, Value>, file: Option<FormulaFile>, assignee: string)
    ensures "assigned_agent" !in UpdatedFields(before, file, assignee, true) <==> "assigned_agent" !in before
  {
  }

  /** An update never touches the roles, so re-reading the file a formula was made from restores it. */
  lemma CreateThenUpdate(first: FormulaFile, second: FormulaFile, assignee: string)
    ensures UpdatedFields(CreatedFields(first, assignee), Some(second), "", false) ==
            CreatedFields(second.(defaultRoles := first.defaultRoles), assignee)
  {
  }

  // ----- variables

  /** `key=value` cut at its first equals sign; the key must not be empty. */
  function SplitField(s: string): Option<(string, string)> {
    match Index(s, "=")
    case Some(i) => if i == 0 then None else Some((s[..i], s[i + 1..]))
    case None => None
  }

  datatype VarError = BadPair(pair: string) | Missing(name: string) | NotAllowed(name: string, value: string)

  function ParsePairs(pairs: seq<string>): Result<Vars, VarError> {
    if pairs == [] then Ok(map[])
    else
      match ParsePairs(pairs[..|pairs| - 1])
      case Err(e) => Err(e)
      case Ok(vars) =>
        match SplitField(pairs[|pairs| - 1])
        case Some((k, v)) => Ok(vars[k := v])
        case None => Err(BadPair(pairs[|pairs| - 1]))
  }

  /** One definition: fill in the default, insist on required variables, check the allowed values. */
  function ApplyDef(d: VarDef, vars: Vars): Result<Vars, VarError> {
    if d.name !in vars && d.default == "" && d.required then Err(Missing(d.name))
    else
      var vars' := if d.name !in vars && d.default != "" then vars[d.name := d.default] else vars;
      if d.options != [] && d.name in vars' && vars'[d.name] !in d.options
      then Err(NotAllowed(d.name, vars'[d.name]))
      else Ok(vars')
  }

  function ApplyDefs(defs: seq<VarDef>, vars: Vars): Result<Vars, VarError> {
    if defs == [] then Ok(vars)
    else
      match ApplyDefs(defs[..|defs| - 1], vars)
      case Err(e) => Err(e)
      case Ok(vars') => ApplyDef(defs[|defs| - 1], vars')
  }

  function ResolvedVars(pairs: seq<string>, defs: seq<VarDef>): Result<Vars, VarError> {
    match ParsePairs(pairs)
    case Err(e) => Err(e)
    case Ok(vars) => ApplyDefs(defs, vars)
  }

  method ResolveVars(pairs: seq<string>, defs: seq<VarDef>) returns (r: Result<Vars, VarError>)
    ensures r == ResolvedVars(pairs, defs)
  {
    hide SplitField;
    var vars: Vars := map[];
    for i := 0 to |pairs|
      invariant ParsePairs(pairs[..i]) == Ok(vars)
    {
      assert pairs[..i + 1][..i] == pairs[..i];
      match SplitField(pairs[i])
      case None =>
        ParseFails(pairs, i + 1);
        return Err(BadPair(pairs[i]));
      case Some((k, v)) =>
        vars := vars[k := v];
    }
    assert pairs[..|pairs|] == pairs;
    ghost var given := vars;
    for i := 0 to |defs|
      invariant ApplyDefs(defs[..i], given) == Ok(vars)
    {
      assert defs[..i + 1][..i] == defs[..i];
      var d := defs[i];
      if d.name !in vars {
        if d.default != "" {
          vars := vars[d.name := d.default];
        } else if d.required {
          ApplyFails(defs, given, i + 1);
          return Err(Missing(d.name));
        }
      }
      if |d.options| > 0 {
        if d.name in vars {
          var valid := false;
          for k := 0 to |d.options|
            invariant valid <==> vars[d.name] in d.options[..k]
          {
            assert d.options[..k + 1] == d.options[..k] + [d.options[k]];
            if vars[d.name] == d.options[k] {
              valid := true;
            }
          }
          assert d.options[..|d.options|] == d.options;
          if !valid {
            ApplyFails(defs, given, i + 1);
            return Err(NotAllowed(d.name, vars[d.name]));
          }
        }
      }
    }
    assert defs[..|defs|] == defs;
    r := Ok(vars);
  }

  lemma {:induction false} ParseFails(pairs: seq<string>, n: nat)
    requires n <= |pairs| && ParsePairs(pairs[..n]).Err?
    ensures ParsePairs(pairs) == ParsePairs(pairs[..n])
    decreases |pairs|
  {
    if n == |pairs| {
      assert pairs[..n] == pairs;
    } else {
      assert pairs[..|pairs| - 1][..n] == pairs[..n];
      ParseFails(pairs[..|pairs| - 1], n);
    }
  }

  lemma {:induction false} ApplyFails(defs: seq<VarDef>, vars: Vars, n: nat)
    requires n <= |defs| && ApplyDefs(defs[..n], vars).Err?
    ensures ApplyDefs(defs, vars) == ApplyDefs(defs[..n], vars)
    decreases |defs|
  {
    if n == |defs| {
      assert defs[..n] == defs;
    } else {
      assert defs[..|defs| - 1][..n] == defs[..n];
      ApplyFails(defs[..|defs| - 1], vars, n);
    }
  }

  /** The value a definition leads to: the one given, else its non-empty default. */
  function ValueOf(d: VarDef, given: Vars): Option<string> {
    if d.name in given then Some(given[d.name]) else if d.default != "" then Some(d.default) else None
  }

  predicate CanMeet(d: VarDef, given: Vars) {
    && (d.required ==> ValueOf(d, given).Some?)
    && (ValueOf(d, given).Some? && d.options != [] ==> ValueOf(d, given).value in d.options)
  }

  function Lookup(vars: Vars, name: string): Option<string> {
    if name in vars then Some(vars[name]) else None
  }

  ghost predicate DistinctNames(defs: seq<VarDef>) {
    forall i, j :: 0 <= i < j < |defs| ==> defs[i].name != defs[j].name
  }

  lemma OneDefExact(d: VarDef, vars: Vars)
    ensures ApplyDef(d, vars).Ok? <==> CanMeet(d, vars)
    ensures ApplyDef(d, vars).Ok? ==>
      && Lookup(ApplyDef(d, vars).value, d.name) == ValueOf(d, vars)
      && forall k :: k != d.name ==> Lookup(ApplyDef(d, vars).value, k) == Lookup(vars, k)
  {
  }

  lemma LastNameIsNew(defs: seq<VarDef>)
    requires defs != [] && DistinctNames(defs)
    ensures forall e <- defs[..|defs| - 1] :: e.name != defs[|defs| - 1].name
  {
    forall e | e in defs[..|defs| - 1]
      ensures e.name != defs[|defs| - 1].name
    {
      var i :| 0 <= i < |defs| - 1 && defs[i] == e;
    }
  }

  /**
   When names are distinct, resolution succeeds exactly when every definition can be met, and then each
   defined variable has its value and every other one is as given.
   */
  lemma {:induction false} ResolutionExact(defs: seq<VarDef>, given: Vars)
    requires DistinctNames(defs)
    ensures ApplyDefs(defs, given).Ok? <==> forall d <- defs :: CanMeet(d, given)
    ensures ApplyDefs(defs, given).Ok? ==>
      && (forall d <- defs :: Lookup(ApplyDefs(defs, given).value, d.name) == ValueOf(d, given))
      && (forall k :: (forall d <- defs :: d.name != k) ==> Lookup(ApplyDefs(defs, given).value, k) == Lookup(given, k))
  {
    if defs != [] {
      var front, d := defs[..|defs| - 1], defs[|defs| - 1];
      ResolutionExact(front, given);
      LastNameIsNew(defs);
      assert defs == front + [d];
      assert forall e <- front :: e in defs;
      assert d in defs;
      if ApplyDefs(front, given).Ok? {
        var mid := ApplyDefs(front, given).value;
        assert Lookup(mid, d.name) == Lookup(given, d.name);
        assert ValueOf(d, mid) == ValueOf(d, given);
        OneDefExact(d, mid);
      }
    }
  }

  // ----- the pairs of the command line

  /** `s` reads `name=value`; only the first equals sign counts. */
  predicate IsPair(s: string, name: string, value: string) {
    name != "" && '=' !in name && s == name + "=" + value
  }

  ghost predicate IsSomePair(s: string) {
    exists name: string, value: string :: IsPair(s, name, value)
  }

  lemma OneChar(s: string, c: char, i: nat)
    ensures Occurs([c], s, i) <==> i < |s| && s[i] == c
  {
    assert i < |s| ==> s[i..i + 1] == [s[i]];
  }

  lemma SplitExactly(s: string, name: string, value: string)
    ensures SplitField(s) == Some((name, value)) <==> IsPair(s, name, value)
  {
    IndexIsFirst(s, "=");
    forall i: nat
      ensures Occurs("=", s, i) <==> i < |s| && s[i] == '='
    {
      OneChar(s, '=', i);
    }
    hide Index, Occurs;
    if IsPair(s, name, value) {
      assert s[|name|] == '=' && forall i :: 0 <= i < |name| ==> s[i] == name[i];
      assert Index(s, "=") == Some(|name|);
      assert s[..|name|] == name && s[|name| + 1..] == value;
    }
    if SplitField(s) == Some((name, value)) {
      var i := Index(s, "=").value;
      assert s == s[..i] + "=" + s[i + 1..];
    }
  }

  /** The `i`-th pair is the last one for its name. */
  ghost predicate LastPair(pairs: seq<string>, name: string, value: string, i: int) {
    && 0 <= i < |pairs| && IsPair(pairs[i], name, value)
    && forall j, v: string :: i < j < |pairs| ==> !IsPair(pairs[j], name, v)
  }

  ghost predicate Named(pairs: seq<string>, name: string) {
    exists k, v: string :: 0 <= k < |pairs| && IsPair(pairs[k], name, v)
  }

  lemma LastPairOneMore(pairs: seq<string>, name: string, value: string)
    requires pairs != []
    ensures var n := |pairs| - 1;
      (exists i :: LastPair(pairs, name, value, i)) <==>
        || IsPair(pairs[n], name, value)
        || ((forall v: string :: !IsPair(pairs[n], name, v)) && exists i :: LastPair(pairs[..n], name, value, i))
  {
    hide IsPair;
    var n := |pairs| - 1;
    if i :| LastPair(pairs, name, value, i) {
      if i < n {
        assert LastPair(pairs[..n], name, value, i);
      }
    }
    if IsPair(pairs[n], name, value) {
      assert LastPair(pairs, name, value, n);
    }
    if i :| (forall v: string :: !IsPair(pairs[n], name, v)) && LastPair(pairs[..n], name, value, i) {
      assert LastPair(pairs, name, value, i);
    }
  }

  lemma NamedOneMore(pairs: seq<string>, name: string)
    requires pairs != []
    ensures var n := |pairs| - 1;
      Named(pairs, name) <==> Named(pairs[..n], name) || exists v: string :: IsPair(pairs[n], name, v)
  {
    hide IsPair;
    var n := |pairs| - 1;
    if k, v: string :| 0 <= k < |pairs| && IsPair(pairs[k], name, v) {
      assert k < n ==> pairs[..n][k] == pairs[k];
    }
    if k, v: string :| 0 <= k < n && IsPair(pairs[..n][k], name, v) {
      assert IsPair(pairs[k], name, v);
    }
  }

  /** Pairs are read in order and the last one for a name counts; one text that is no pair spoils them all. */
  lemma {:induction false} PairsExactly(pairs: seq<string>, name: string, value: string)
    ensures ParsePairs(pairs).Ok? <==> forall s <- pairs :: IsSomePair(s)
    ensures ParsePairs(pairs).Ok? ==>
      && (Lookup(ParsePairs(pairs).value, name) == Some(value) <==> exists i :: LastPair(pairs, name, value, i))
      && (name in ParsePairs(pairs).value <==> Named(pairs, name))
  {
    if pairs != [] {
      var n := |pairs| - 1;
      PairsExactly(pairs[..n], name, value);
      LastPairOneMore(pairs, name, value);
      NamedOneMore(pairs, name);
      assert pairs == pairs[..n] + [pairs[n]];
      forall k: string, v: string
        ensures SplitField(pairs[n]) == Some((k, v)) <==> IsPair(pairs[n], k, v)
      {
        SplitExactly(pairs[n], k, v);
      }
      hide SplitField, IsPair, LastPair, Named;
      var split := SplitField(pairs[n]);
      if split.Some? {
        assert IsPair(pairs[n], split.value.0, split.value.1);
      } else {
        assert !IsSomePair(pairs[n]) && pairs[n] in pairs;
      }
      assert forall s <- pairs[..n] :: s in pairs;
      hide IsSomePair;
    }
  }

  // ----- repeated names

  /** `defs[j]` is the first definition of its name with a default. */
  ghost predicate FirstDefault(defs: seq<VarDef>, j: nat) {
    && j < |defs| && defs[j].default != ""
    && forall k :: 0 <= k < j && defs[k].name == defs[j].name ==> defs[k].default == ""
  }

  /** A name ends up with `value`: it was given, or not given and first defaulted to it. */
  ghost predicate Resolves(defs: seq<VarDef>, given: Vars, name: string, value: string) {
    if name in given then value == given[name]
    else exists j: nat :: FirstDefault(defs, j) && defs[j].name == name && defs[j].default == value
  }

  lemma FirstDefaultUnique(defs: seq<VarDef>, j: nat, k: nat)
    requires FirstDefault(defs, j) && FirstDefault(defs, k) && defs[j].name == defs[k].name
    ensures j == k
  {
  }

  lemma FirstDefaultInFront(defs: seq<VarDef>, j: nat)
    requires defs != [] && j < |defs| - 1
    ensures FirstDefault(defs, j) <==> FirstDefault(defs[..|defs| - 1], j)
  {
    var front := defs[..|defs| - 1];
    assert forall k :: 0 <= k <= j ==> front[k] == defs[k];
  }

  /** Repeated or not: a successful resolution gives each name what it was given, or its first default, or nothing. */
  lemma {:induction false} ResolvesExactly(defs: seq<VarDef>, given: Vars, name: string)
    requires ApplyDefs(defs, given).Ok?
    ensures var vars := ApplyDefs(defs, given).value;
      forall value :: Lookup(vars, name) == Some(value) <==> Resolves(defs, given, name, value)
  {
    if defs != [] {
      var n := |defs| - 1;
      var front, d := defs[..n], defs[n];
      ResolvesExactly(front, given, name);
      var mid, vars := ApplyDefs(front, given).value, ApplyDefs(defs, given).value;
      OneDefExact(d, mid);
      forall value
        ensures Lookup(vars, name) == Some(value) <==> Resolves(defs, given, name, value)
      {
        ResolvesOneMore(defs, given, name, value);
        LastIsFirstDefault(defs, given, name);
        hide FirstDefault, Resolves, ApplyDefs;
        assert Lookup(mid, name).None? <==> !Settled(front, given, name);
      }
    }
  }

  /** Something gives the name a value. */
  ghost predicate Settled(defs: seq<VarDef>, given: Vars, name: string) {
    exists value: string :: Resolves(defs, given, name, value)
  }

  lemma ResolvesOneMore(defs: seq<VarDef>, given: Vars, name: string, value: string)
    requires defs != []
    ensures var n := |defs| - 1;
      Resolves(defs, given, name, value) <==>
        Resolves(defs[..n], given, name, value) ||
        (name !in given && FirstDefault(defs, n) && defs[n].name == name && defs[n].default == value)
  {
    var n := |defs| - 1;
    if name !in given {
      if j: nat :| FirstDefault(defs, j) && defs[j].name == name && defs[j].default == value {
        if j < n {
          FirstDefaultInFront(defs, j);
          assert defs[..n][j] == defs[j];
        }
      }
      if j: nat :| FirstDefault(defs[..n], j) && defs[..n][j].name == name && defs[..n][j].default == value {
        FirstDefaultInFront(defs, j);
      }
    }
  }

  /** The last definition is the first with a default iff no earlier one settled the name. */
  lemma LastIsFirstDefault(defs: seq<VarDef>, given: Vars, name: string)
    requires defs != []
    ensures var n := |defs| - 1;
      name !in given && defs[n].name == name ==>
        (FirstDefault(defs, n) <==> defs[n].default != "" && !Settled(defs[..n], given, name))
    ensures name in given ==> Settled(defs[..|defs| - 1], given, name)
  {
    var n := |defs| - 1;
    var front := defs[..n];
    if name in given {
      assert Resolves(front, given, name, given[name]);
    } else if k :| 0 <= k < n && defs[k].name == name && defs[k].default != "" {
      assert front[k] == defs[k];
      var j := FirstDefaultOf(front, k);
      assert Resolves(front, given, name, front[j].default);
    }
  }

  lemma {:induction false} FirstDefaultOf(defs: seq<VarDef>, k: nat) returns (j: nat)
    requires k < |defs| && defs[k].default != ""
    ensures FirstDefault(defs, j) && defs[j].name == defs[k].name && j <= k
    decreases k
  {
    if m :| 0 <= m < k && defs[m].name == defs[k].name && defs[m].default != "" {
      j := FirstDefaultOf(defs, m);
    } else {
      j := k;
    }
  }

  lemma {:induction false} PrefixResolves(defs: seq<VarDef>, given: Vars, i: nat)
    requires i < |defs| && ApplyDefs(defs, given).Ok?
    ensures ApplyDefs(defs[..i], given).Ok?
    ensures ApplyDef(defs[i], ApplyDefs(defs[..i], given).value).Ok?
    ensures ApplyDefs(defs[..i + 1], given) == ApplyDef(defs[i], ApplyDefs(defs[..i], given).value)
  {
    var n := |defs| - 1;
    if i < n {
      PrefixResolves(defs[..n], given, i);
      assert defs[..n][..i] == defs[..i] && defs[..n][..i + 1] == defs[..i + 1];
    } else {
      assert defs[..n + 1] == defs;
    }
    assert defs[..i + 1][..i] == defs[..i];
  }

  /** `defs[i]` accepts what it and the definitions before it make of its name. */
  ghost predicate MeetsItsTurn(defs: seq<VarDef>, given: Vars, i: nat)
    requires i < |defs|
  {
    var d, seen := defs[i], defs[..i + 1];
    && (d.required ==> Settled(seen, given, d.name))
    && (d.options != [] ==> forall value :: Resolves(seen, given, d.name, value) ==> value in d.options)
  }

  /**
   Whatever names repeat, resolution succeeds exactly when every definition, with those before it, settles
   its name if required and settles it only to a value it allows.
   */
  lemma {:induction false} ResolutionSucceedsIff(defs: seq<VarDef>, given: Vars)
    ensures ApplyDefs(defs, given).Ok? <==> forall i :: 0 <= i < |defs| ==> MeetsItsTurn(defs, given, i)
  {
    if defs != [] {
      var n := |defs| - 1;
      ResolutionSucceedsIff(defs[..n], given);
      forall i | 0 <= i < n
        ensures MeetsItsTurn(defs, given, i) <==> MeetsItsTurn(defs[..n], given, i)
      {
        assert defs[..n][..i + 1] == defs[..i + 1];
      }
      if ApplyDefs(defs[..n], given).Ok? {
        LastMeetsItsTurnIff(defs, given);
      }
      hide MeetsItsTurn;
    }
  }

  lemma LastMeetsItsTurnIff(defs: seq<VarDef>, given: Vars)
    requires defs != [] && ApplyDefs(defs[..|defs| - 1], given).Ok?
    ensures ApplyDefs(defs, given).Ok? <==> MeetsItsTurn(defs, given, |defs| - 1)
  {
    var n := |defs| - 1;
    var front, d := defs[..n], defs[n];
    var mid := ApplyDefs(front, given).value;
    OneDefExact(d, mid);
    assert defs[..n + 1] == defs;
    forall value
      ensures ValueOf(d, mid) == Some(value) <==> Resolves(defs, given, d.name, value)
    {
      ValueAtItsTurn(defs, given, value);
    }
    hide Resolves, ApplyDefs;
    assert ValueOf(d, mid).Some? <==> Settled(defs, given, d.name);
  }

  /** What the last definition leads to, after those before it. */
  lemma ValueAtItsTurn(defs: seq<VarDef>, given: Vars, value: string)
    requires defs != [] && ApplyDefs(defs[..|defs| - 1], given).Ok?
    ensures var n := |defs| - 1;
      ValueOf(defs[n], ApplyDefs(defs[..n], given).value) == Some(value) <==>
        Resolves(defs, given, defs[n].name, value)
  {
    var n := |defs| - 1;
    var front, d := defs[..n], defs[n];
    var mid := ApplyDefs(front, given).value;
    ResolvesExactly(front, given, d.name);
    ResolvesOneMore(defs, given, d.name, value);
    LastIsFirstDefault(defs, given, d.name);
    hide FirstDefault, Resolves, ApplyDefs;
    assert Lookup(mid, d.name).None? <==> !Settled(front, given, d.name);
  }

  /** A refused definition is one whose turn found its name unsettled, or settled to a value it does not allow. */
  ghost predicate RefusedFor(defs: seq<VarDef>, given: Vars, e: VarError, i: int) {
    && 0 <= i < |defs|
    && match e
       case BadPair(_) => false
       case Missing(name) => defs[i].name == name && defs[i].required && !Settled(defs[..i + 1], given, name)
       case NotAllowed(name, value) =>
         && defs[i].name == name && Resolves(defs[..i + 1], given, name, value)
         && defs[i].options != [] && value !in defs[i].options
  }

  lemma {:induction false} RefusalExplained(defs: seq<VarDef>, given: Vars) returns (i: int)
    requires ApplyDefs(defs, given).Err?
    ensures RefusedFor(defs, given, ApplyDefs(defs, given).error, i)
  {
    var n := |defs| - 1;
    if ApplyDefs(defs[..n], given).Err? {
      i := RefusalExplained(defs[..n], given);
      assert defs[..n][..i + 1] == defs[..i + 1];
      hide Settled, Resolves, ApplyDef;
    } else {
      i := n;
      assert defs[..n + 1] == defs;
      var d, mid := defs[n], ApplyDefs(defs[..n], given).value;
      forall value
        ensures ValueOf(d, mid) == Some(value) <==> Resolves(defs, given, d.name, value)
      {
        ValueAtItsTurn(defs, given, value);
      }
      hide Resolves, ApplyDefs;
    }
  }

  /** The value ends up outside what the `i`-th definition allows. */
  predicate Escapes(d: VarDef, vars: Vars) {
    d.options != [] && d.name in vars && vars[d.name] !in d.options
  }

  /** A later definition of the name that brings the first default, and one the `i`-th would not allow. */
  ghost predicate DefaultedTooLate(defs: seq<VarDef>, given: Vars, i: nat, j: nat)
    requires i < j < |defs|
  {
    && defs[i].name == defs[j].name && defs[i].name !in given
    && FirstDefault(defs, j) && defs[i].options != [] && defs[j].default !in defs[i].options
  }

  /**
   A successful resolution leaves a value outside some definition's options iff a later definition of
   its name brings it in.
   */
  lemma EscapesIff(defs: seq<VarDef>, given: Vars, i: nat)
    requires i < |defs| && ApplyDefs(defs, given).Ok?
    ensures Escapes(defs[i], ApplyDefs(defs, given).value) <==>
            exists j :: i < j < |defs| && DefaultedTooLate(defs, given, i, j)
  {
    var d, vars := defs[i], ApplyDefs(defs, given).value;
    ResolvesExactly(defs, given, d.name);
    if Escapes(d, vars) {
      assert Lookup(vars, d.name) == Some(vars[d.name]);
      CheckedThen(defs, given, i);
      assert d.name !in given;
      var j: nat :| FirstDefault(defs, j) && defs[j].name == d.name && defs[j].default == vars[d.name];
      assert i < j && DefaultedTooLate(defs, given, i, j);
    }
    if j :| i < j < |defs| && DefaultedTooLate(defs, given, i, j) {
      assert Resolves(defs, given, d.name, defs[j].default);
      assert Lookup(vars, d.name) == Some(defs[j].default);
    }
  }

  /** What a definition sees when its turn comes, it checks. */
  lemma CheckedThen(defs: seq<VarDef>, given: Vars, i: nat)
    requires i < |defs| && ApplyDefs(defs, given).Ok? && defs[i].options != []
    ensures defs[i].name in given ==> given[defs[i].name] in defs[i].options
    ensures forall j: nat ::
        j <= i && FirstDefault(defs, j) && defs[j].name == defs[i].name && defs[i].name !in given ==>
              defs[j].default in defs[i].options
  {
    var d := defs[i];
    PrefixResolves(defs, given, i);
    var upTo := defs[..i + 1];
    ResolvesExactly(upTo, given, d.name);
    var vars := ApplyDefs(upTo, given).value;
    assert d.name in vars ==> vars[d.name] in d.options;
    if d.name in given {
      assert Resolves(upTo, given, d.name, given[d.name]);
      assert Lookup(vars, d.name) == Some(given[d.name]);
    }
    forall j: nat | j <= i && FirstDefault(defs, j) && defs[j].name == d.name && d.name !in given
      ensures defs[j].default in d.options
    {
      assert forall k :: 0 <= k <= j ==> upTo[k] == defs[k];
      assert FirstDefault(upTo, j);
      assert Resolves(upTo, given, d.name, defs[j].default);
      assert Lookup(vars, d.name) == Some(defs[j].default);
    }
  }

  /** With a repeated name the first definition's limits can be passed by the second one's default. */
  lemma RepeatedNameEscapesOptions()
    ensures var defs := [VarDef("v", false, "", ["a"]), VarDef("v", false, "b", [])];
      ApplyDefs(defs, map[]).Ok? && Escapes(defs[0], ApplyDefs(defs, map[]).value)
  {
    var first, second := VarDef("v", false, "", ["a"]), VarDef("v", false, "b", []);
    var defs := [first, second];
    assert defs[..1] == [first] && [first][..0] == [];
    assert ApplyDefs([], map[]) == Ok(map[]);
    assert ApplyDefs([first], map[]) == ApplyDef(first, map[]);
    assert ApplyDefs(defs, map[]) == ApplyDef(second, map[]);
    assert FirstDefault(defs, 1) && DefaultedTooLate(defs, map[], 0, 1);
    EscapesIff(defs, map[], 0);
  }

  /**
   What each variable is after a successful resolution: the text after the equals sign of the last pair
   for its name; without such a pair, the first default that is not empty; otherwise nothing.
   */
  lemma ValuesFromPairs(pairs: seq<string>, defs: seq<VarDef>, name: string, value: string)
    requires ResolvedVars(pairs, defs).Ok?
    ensures name in ResolvedVars(pairs, defs).value && ResolvedVars(pairs, defs).value[name] == value <==>
      || (exists i :: LastPair(pairs, name, value, i))
      || (!Named(pairs, name) &&
          exists j: nat :: FirstDefault(defs, j) && defs[j].name == name && defs[j].default == value)
  {
    PairsExactly(pairs, name, value);
    var given := ParsePairs(pairs).value;
    ResolvesExactly(defs, given, name);
    hide ParsePairs, ApplyDefs, LastPair, Named, FirstDefault;
    assert Lookup(ResolvedVars(pairs, defs).value, name) == Some(value) <==> Resolves(defs, given, name, value);
  }

  // ----- expansion

  predicate Skipped(s: Step, vars: Vars) {
    s.condition != "" && !EvaluateCondition(s.condition, vars)
  }

  function SkippedIds(steps: seq<Step>, vars: Vars): set<string> {
    set s | s in steps && Skipped(s, vars) :: s.id
  }

  function FilterDeps(deps: seq<string>, skipped: set<string>): seq<string> {
    if deps == [] then []
    else FilterDeps(deps[..|deps| - 1], skipped) + (if deps[|deps| - 1] in skipped then [] else [deps[|deps| - 1]])
  }

  /** A step with its variables filled in and its references to skipped steps removed. */
  function Expanded(s: Step, vars: Vars, skipped: set<string>): Step {
    s.(title := SubstituteVars(s.title, vars), description := SubstituteVars(s.description, vars),
       assignee := SubstituteVars(s.assignee, vars), dependsOn := FilterDeps(s.dependsOn, skipped))
  }

  /** The steps that will be created, in order. */
  function ActiveFrom(steps: seq<Step>, vars: Vars, skipped: set<string>): seq<Step> {
    if steps == [] then []
    else
      var last := steps[|steps| - 1];
      ActiveFrom(steps[..|steps| - 1], vars, skipped)
      + (if Skipped(last, vars) then [] else [Expanded(last, vars, skipped)])
  }

  function ActiveSteps(steps: seq<Step>, vars: Vars): seq<Step> {
    ActiveFrom(steps, vars, SkippedIds(steps, vars))
  }

  method FilterDependencies(deps: seq<string>, skipped: set<string>) returns (filtered: seq<string>)
    ensures filtered == FilterDeps(deps, skipped)
  {
    filtered := [];
    for i := 0 to |deps|
      invariant filtered == FilterDeps(deps[..i], skipped)
    {
      assert deps[..i + 1][..i] == deps[..i];
      if deps[i] !in skipped {
        filtered := filtered + [deps[i]];
      }
    }
    assert deps[..|deps|] == deps;
  }

  method ExpandSteps(steps: seq<Step>, vars: Vars) returns (active: seq<Step>)
    ensures active == ActiveSteps(steps, vars)
  {
    hide EvaluateCondition, SubstituteVars;
    var skipped: set<string> := {};
    for i := 0 to |steps|
      invariant skipped == SkippedIds(steps[..i], vars)
    {
      assert steps[..i + 1] == steps[..i] + [steps[i]];
      if steps[i].condition != "" && !EvaluateCondition(steps[i].condition, vars) {
        skipped := skipped + {steps[i].id};
      }
    }
    assert steps[..|steps|] == steps;
    active := [];
    for i := 0 to |steps|
      invariant active == ActiveFrom(steps[..i], vars, skipped)
    {
      assert steps[..i + 1][..i] == steps[..i];
      if !(steps[i].condition != "" && !EvaluateCondition(steps[i].condition, vars)) {
        var deps := FilterDependencies(steps[i].dependsOn, skipped);
        active := active + [steps[i].(title := SubstituteVars(steps[i].title, vars),
          description := SubstituteVars(steps[i].description, vars),
          assignee := SubstituteVars(steps[i].assignee, vars), dependsOn := deps)];
      }
    }
    assert steps[..|steps|] == steps;
  }

  lemma {:induction false} FilterDepsExactly(deps: seq<string>, skipped: set<string>)
    ensures forall d :: d in FilterDeps(deps, skipped) <==> d in deps && d !in skipped
  {
    if deps != [] {
      FilterDepsExactly(deps[..|deps| - 1], skipped);
      assert deps == deps[..|deps| - 1] + [deps[|deps| - 1]];
    }
  }

  /** References to skipped steps go, all others stay as they are. */
  lemma {:induction false} FilteredInOrder(deps: seq<string>, skipped: set<string>) returns (places: seq<nat>)
    ensures Picks(FilterDeps(deps, skipped), deps, places)
    ensures forall i: nat :: i < |deps| ==> (i in places <==> deps[i] !in skipped)
  {
    if deps == [] {
      places := [];
    } else {
      var n := |deps| - 1;
      places := FilteredInOrder(deps[..n], skipped);
      assert deps[..n] + [deps[n]] == deps && n !in places;
      assert FilterDeps(deps[..n], skipped) + [] == FilterDeps(deps[..n], skipped);
      places := PicksOneMore(FilterDeps(deps[..n], skipped), deps[..n], places, deps[n], deps[n] !in skipped);
    }
  }

  /** `a` is `s` with title, description and assignee filled in, and without its references to skipped steps. */
  ghost predicate FilledIn(s: Step, vars: Vars, skipped: set<string>, a: Step) {
    && a.id == s.id && a.typ == s.typ && a.priority == s.priority && a.labels == s.labels && a.roles == s.roles
    && a.condition == s.condition
    && a.title == SubstituteVars(s.title, vars) && a.description == SubstituteVars(s.description, vars)
    && a.assignee == SubstituteVars(s.assignee, vars)
    && exists kept: seq<nat> :: Picks(a.dependsOn, s.dependsOn, kept)
         && forall i: nat :: i < |s.dependsOn| ==> (i in kept <==> s.dependsOn[i] !in skipped)
  }

  lemma ExpandedIsFilledIn(s: Step, vars: Vars, skipped: set<string>)
    ensures FilledIn(s, vars, skipped, Expanded(s, vars, skipped))
  {
    hide SubstituteVars;
    var kept := FilteredInOrder(s.dependsOn, skipped);
  }

  /** The steps created are those without a condition or whose condition holds, in order, each filled in. */
  lemma {:induction false} ActiveInOrder(steps: seq<Step>, vars: Vars, skipped: set<string>) returns (places: seq<nat>)
    ensures var active := ActiveFrom(steps, vars, skipped);
      && |active| == |places|
      && (forall k :: 0 <= k < |places| ==>
            places[k] < |steps| && FilledIn(steps[places[k]], vars, skipped, active[k]))
      && (forall j, k :: 0 <= j < k < |places| ==> places[j] < places[k])
    ensures forall i: nat :: i < |steps| ==>
        (i in places <==> steps[i].condition == "" || EvaluateCondition(steps[i].condition, vars))
  {
    hide FilledIn, Expanded, EvaluateCondition;
    if steps == [] {
      places := [];
    } else {
      var n := |steps| - 1;
      places := ActiveInOrder(steps[..n], vars, skipped);
      ExpandedIsFilledIn(steps[n], vars, skipped);
      assert n !in places;
      if !Skipped(steps[n], vars) {
        places := places + [n];
      }
    }
  }

  lemma {:induction false} ActiveExactly(steps: seq<Step>, vars: Vars, skipped: set<string>)
    ensures forall a :: a in ActiveFrom(steps, vars, skipped) <==>
              exists s <- steps :: !Skipped(s, vars) && a == Expanded(s, vars, skipped)
  {
    hide Skipped, Expanded;
    if steps != [] {
      var front, last := steps[..|steps| - 1], steps[|steps| - 1];
      ActiveExactly(front, vars, skipped);
      assert steps == front + [last];
      forall a
        ensures a in ActiveFrom(steps, vars, skipped) <==>
                exists s <- steps :: !Skipped(s, vars) && a == Expanded(s, vars, skipped)
      {
        if a in ActiveFrom(front, vars, skipped) {
          var s :| s in front && !Skipped(s, vars) && a == Expanded(s, vars, skipped);
          assert s in steps;
        }
        if s :| s in steps && !Skipped(s, vars) && a == Expanded(s, vars, skipped) {
          assert s in front || s == last;
        }
      }
    }
  }

  lemma {:induction false} ActiveDistinct(steps: seq<Step>, vars: Vars, skipped: set<string>)
    requires DistinctIds(steps)
    ensures DistinctIds(ActiveFrom(steps, vars, skipped))
  {
    hide EvaluateCondition, SubstituteVars;
    if steps != [] {
      var front, last := steps[..|steps| - 1], steps[|steps| - 1];
      ActiveDistinct(front, vars, skipped);
      ActiveExactly(front, vars, skipped);
      var active := ActiveFrom(front, vars, skipped);
      forall i | 0 <= i < |active|
        ensures active[i].id != last.id
      {
        assert active[i] in active;
        var s :| s in front && !Skipped(s, vars) && active[i] == Expanded(s, vars, skipped);
        var k :| 0 <= k < |front| && front[k] == s;
        assert steps[k] == s;
      }
    }
  }

  /** The orderings a list of steps states: (step, step it waits for). */
  function DependsOn(steps: seq<Step>): set<(string, string)> {
    set s, d | s in steps && d in s.dependsOn :: (s.id, d)
  }

  /** Expansion keeps exactly the orderings between two steps that are both kept. */
  lemma ExpansionInducesSubgraph(steps: seq<Step>, vars: Vars)
    requires WellFormed(steps)
    ensures var active := ActiveSteps(steps, vars);
      && DistinctIds(active)
      && StepIds(active) == StepIds(steps) - SkippedIds(steps, vars)
      && (forall s, d :: (s, d) in DependsOn(active) <==>
            (s, d) in DependsOn(steps) && s in StepIds(active) && d in StepIds(active))
  {
    var skipped := SkippedIds(steps, vars);
    var active := ActiveSteps(steps, vars);
    ActiveDistinct(steps, vars, skipped);
    forall id
      ensures id in StepIds(active) <==> id in StepIds(steps) && id !in skipped
    {
      KeptIffNotSkipped(steps, vars, id);
    }
    forall s, d
      ensures (s, d) in DependsOn(active) <==> (s, d) in DependsOn(steps) && s in StepIds(active) && d !in skipped
    {
      EdgeKept(steps, vars, s, d);
    }
  }

  lemma KeptIffNotSkipped(steps: seq<Step>, vars: Vars, id: string)
    requires WellFormed(steps)
    ensures id in StepIds(ActiveSteps(steps, vars)) <==> id in StepIds(steps) && id !in SkippedIds(steps, vars)
  {
    hide EvaluateCondition, SubstituteVars;
    var skipped := SkippedIds(steps, vars);
    ActiveExactly(steps, vars, skipped);
    if a :| a in ActiveSteps(steps, vars) && a.id == id {
      var s :| s in steps && !Skipped(s, vars) && a == Expanded(s, vars, skipped);
      OneStepPerId(steps, s);
    }
    if id in StepIds(steps) && id !in skipped {
      var s :| s in steps && s.id == id;
      assert Expanded(s, vars, skipped) in ActiveSteps(steps, vars);
    }
  }

  lemma OneStepPerId(steps: seq<Step>, s: Step)
    requires DistinctIds(steps) && s in steps
    ensures forall t <- steps :: t.id == s.id ==> t == s
  {
  }

  lemma EdgeKept(steps: seq<Step>, vars: Vars, s: string, d: string)
    requires WellFormed(steps)
    ensures var active := ActiveSteps(steps, vars);
      (s, d) in DependsOn(active) <==>
        (s, d) in DependsOn(steps) && s in StepIds(active) && d !in SkippedIds(steps, vars)
  {
    hide EvaluateCondition, SubstituteVars;
    var skipped := SkippedIds(steps, vars);
    var active := ActiveSteps(steps, vars);
    ActiveExactly(steps, vars, skipped);
    if (s, d) in DependsOn(active) {
      var a :| a in active && a.id == s && d in a.dependsOn;
      var t :| t in steps && !Skipped(t, vars) && a == Expanded(t, vars, skipped);
      FilterDepsExactly(t.dependsOn, skipped);
    }
    if (s, d) in DependsOn(steps) && s in StepIds(active) && d !in skipped {
      var t :| t in steps && t.id == s && d in t.dependsOn;
      var a :| a in active && a.id == s;
      var u :| u in steps && !Skipped(u, vars) && a == Expanded(u, vars, skipped);
      OneStepPerId(steps, t);
      FilterDepsExactly(t.dependsOn, skipped);
    }
  }
}
