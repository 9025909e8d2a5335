/**
 Advice hooks run on session events: who is subscribed, which hooks run, and what they add up to.
 The outcome of running a hook's command is an oracle indexed by the advice's position.
 */
module Hooks {
  import opened Wrappers
  import opened Advice

  // ----- the agent's subscriptions

  function Segments(s: string): (parts: seq<string>)
    ensures parts != []
  {
    if s == "" then [""]
    else if s[0] == '/' then [""] + Segments(s[1..])
    else
      var rest := Segments(s[1..]);
      [[s[0]] + rest[0]] + rest[1..]
  }

  /** `extra`, then global, the agent, and the rig and role its id spells out. */
  function AgentSubscriptions(agentId: string, extra: seq<string>): seq<string> {
    var parts := Segments(agentId);
    extra + ["global", "agent:" + agentId]
    + (if parts[0] != "" then ["rig:" + parts[0]] else [])
    + (if |parts| >= 2 then RoleSubs(parts[1]) else [])
  }

  method BuildAgentSubscriptions(agentId: string, extra: seq<string>) returns (subs: seq<string>)
    ensures subs == AgentSubscriptions(agentId, extra)
  {
    subs := extra;
    subs := subs + ["global"];
    subs := subs + ["agent:" + agentId];
    var parts := Segments(agentId);
    if parts[0] != "" {
      subs := subs + ["rig:" + parts[0]];
    }
    if |parts| >= 2 {
      var rolePlural := parts[1];
      subs := subs + ["role:" + rolePlural];
      var roleSingular := Singular(rolePlural);
      if roleSingular != rolePlural {
        subs := subs + ["role:" + roleSingular];
      }
    }
  }

  lemma {:induction false} SegmentsJoin(first: string, rest: string)
    requires '/' !in first
    ensures Segments(first + "/" + rest) == [first] + Segments(rest)
    ensures Segments(first) == [first]
  {
    if first == "" {
      assert "" + "/" + rest == "/" + rest && ("/" + rest)[1..] == rest;
    } else {
      assert first[0] in first && forall c <- first[1..] :: c in first;
      assert (first + "/" + rest)[1..] == first[1..] + "/" + rest;
      SegmentsJoin(first[1..], rest);
      assert [first[0]] + first[1..] == first;
      assert ([first[1..]] + Segments(rest))[1..] == Segments(rest);
      assert (first + "/" + rest)[0] == first[0];
    }
  }

  /**
   An agent id of rig and role, and whatever else after a slash, subscribes to just these, besides what was
   there: the singular role comes with a plural one.
   */
  lemma SubscriptionsOfPath(rig: string, role: string, tail: string, extra: seq<string>)
    requires '/' !in rig && '/' !in role && (tail == "" || tail[0] == '/')
    ensures var agentId := rig + "/" + (role + tail);
      forall x :: x in AgentSubscriptions(agentId, extra) <==>
        || x in extra || x in {"global", "agent:" + agentId, "role:" + role}
        || (rig != "" && x == "rig:" + rig)
        || (Plural(role) && x == "role:" + role[..|role| - 1])
  {
    SegmentsJoin(rig, role + tail);
    if tail == "" {
      SegmentsJoin(role, "");
      assert role + tail == role;
    } else {
      SegmentsJoin(role, tail[1..]);
      assert role + tail == role + "/" + tail[1..];
    }
    var parts := Segments(rig + "/" + (role + tail));
    assert |parts| >= 2 && parts[0] == rig && parts[1] == role;
  }

  /** An id without a slash is a rig of its own and has no role. */
  lemma SubscriptionsOfName(agentId: string, extra: seq<string>)
    requires '/' !in agentId
    ensures forall x :: x in AgentSubscriptions(agentId, extra) <==>
              || x in extra || x in {"global", "agent:" + agentId} || (agentId != "" && x == "rig:" + agentId)
  {
    SegmentsJoin(agentId, "");
  }

  predicate Plural(role: string) {
    role != "" && role[|role| - 1] == 's'
  }

  /**
   No project is ever subscribed by id, so for such agents the command line and the server agree on all
   labels but those of projects.
   */
  lemma AgentIdNamesNoProject(agentId: string, labels: seq<string>)
    ensures var subs := ToSet(AgentSubscriptions(agentId, []));
      && (forall s <- subs :: !("project:" <= s))
      && (CliMatches(labels, subs) <==> ServerMatches(labels, subs) && ProjectsHeld(labels, subs))
  {
    var parts := Segments(agentId);
    var subs := AgentSubscriptions(agentId, []);
    forall s | s in subs
      ensures !("project:" <= s)
    {
      assert "project:"[0] == 'p' && "global"[0] == 'g';
      assert ("agent:" + agentId)[0] == 'a' && ("rig:" + parts[0])[0] == 'r';
      if |parts| >= 2 {
        assert ("role:" + parts[1])[0] == 'r' && ("role:" + Singular(parts[1]))[0] == 'r';
      }
      assert s[0] != 'p';
    }
    hide AgentSubscriptions;
    CliMatchesIff(labels, ToSet(subs));
  }

  /** The items not excluded, in order. */
  function Excluding(items: seq<string>, exclude: set<string>): seq<string> {
    if items == [] then []
    else Excluding(items[..|items| - 1], exclude) + (if items[|items| - 1] in exclude then [] else [items[|items| - 1]])
  }

  lemma {:induction false} ExcludingShorter(items: seq<string>, exclude: set<string>)
    ensures |Excluding(items, exclude)| <= |items|
  {
    if items != [] {
      ExcludingShorter(items[..|items| - 1], exclude);
    }
  }

  /** The kept items are exactly the ones outside the excluded set. */
  lemma {:induction false} ExcludingExactly(items: seq<string>, exclude: set<string>)
    ensures forall x :: x in Excluding(items, exclude) <==> x in items && x !in exclude
  {
    if items != [] {
      ExcludingExactly(items[..|items| - 1], exclude);
      assert items == items[..|items| - 1] + [items[|items| - 1]];
    }
  }

  /** The filter that writes the kept items over the front of the array it is reading. */
  method FilterInPlace(subs: array<string>, exclude: set<string>) returns (n: nat)
    modifies subs
    ensures n <= subs.Length && subs[..n] == Excluding(old(subs[..]), exclude)
  {
    n := 0;
    for i := 0 to subs.Length
      invariant n <= i
      invariant subs[..n] == Excluding(old(subs[..])[..i], exclude)
      invariant forall k :: i <= k < subs.Length ==> subs[k] == old(subs[k])
    {
      ghost var all := old(subs[..]);
      assert all[..i + 1][..i] == all[..i] && all[i] == subs[i];
      if subs[i] !in exclude {
        subs[n] := subs[i];
        n := n + 1;
      }
    }
    assert old(subs[..])[..subs.Length] == old(subs[..]);
  }

  /** The agent's own additions and exclusions, when its bead could be found and read. */
  datatype AgentConfig = AgentConfig(added: seq<string>, excluded: seq<string>)

  function Enriched(subs: seq<string>, config: Option<AgentConfig>): seq<string> {
    match config
    case None => subs
    case Some(c) => if c.excluded == [] then subs + c.added else Excluding(subs + c.added, ToSet(c.excluded))
  }

  method EnrichAgentSubscriptions(subs: seq<string>, config: Option<AgentConfig>) returns (r: seq<string>)
    ensures r == Enriched(subs, config)
  {
    if config.None? {
      return subs;
    }
    var all := subs + config.value.added;
    if |config.value.excluded| == 0 {
      return all;
    }
    var cells := new string[|all|](i requires 0 <= i < |all| => all[i]);
    assert cells[..] == all;
    var n := FilterInPlace(cells, ToSet(config.value.excluded));
    r := cells[..n];
  }

  /** Exclusions win over everything, and without them nothing is lost. */
  lemma EnrichedExactly(subs: seq<string>, c: AgentConfig)
    ensures forall x :: x in Enriched(subs, Some(c)) <==> (x in subs || x in c.added) && x !in c.excluded
  {
    ExcludingExactly(subs + c.added, ToSet(c.excluded));
  }

  // ----- running hooks

  datatype OnFailure = Block | Warn | Ignore

  datatype HookFields = HookFields(command: string, trigger: string, onFailure: OnFailure)

  /** An open advice bead; `fields` is None when they cannot be parsed. */
  datatype AdviceBead = AdviceBead(title: string, labels: seq<string>, fields: Option<HookFields>)

  datatype Outcome = Outcome(failed: bool, output: string, err: string)

  datatype Response = Response(block: bool, reason: string, warnings: seq<string>)

  function BlockReason(b: AdviceBead, o: Outcome): string
    requires b.fields.Some?
  {
    "Advice hook blocked: " + b.title + "\nCommand: " + b.fields.value.command
    + "\nError: " + o.err + "\nOutput: " + o.output
  }

  function Warning(b: AdviceBead, o: Outcome): string {
    "Advice hook warning: " + b.title + " \U{2014} " + o.output + " (exit: " + o.err + ")"
  }

  /** The advice speaks to this trigger and this agent. */
  ghost predicate Applies(b: AdviceBead, trigger: string, subs: set<string>) {
    && b.fields.Some?
    && b.fields.value.command != "" && b.fields.value.trigger == trigger
    && ServerMatches(b.labels, subs)
  }

  /** Positions of the advice that applies, in list order. */
  ghost function Applicable(beads: seq<AdviceBead>, trigger: string, subs: set<string>): seq<nat> {
    if beads == [] then []
    else
      var n := |beads| - 1;
      Applicable(beads[..n], trigger, subs) + (if Applies(beads[n], trigger, subs) then [n] else [])
  }

  predicate Fails(beads: seq<AdviceBead>, outcomes: seq<Outcome>, i: int, policy: OnFailure) {
    && 0 <= i < |beads| && i < |outcomes|
    && beads[i].fields.Some? && outcomes[i].failed && beads[i].fields.value.onFailure == policy
  }

  /** The warnings of the hooks in `ran`, in order. */
  function WarningsOf(beads: seq<AdviceBead>, outcomes: seq<Outcome>, ran: seq<nat>): seq<string> {
    if ran == [] then []
    else
      var last := ran[|ran| - 1];
      WarningsOf(beads, outcomes, ran[..|ran| - 1])
      + (if Fails(beads, outcomes, last, Warn) then [Warning(beads[last], outcomes[last])] else [])
  }

  /** Increasing, below `n`, and made up of exactly the applicable positions. */
  ghost predicate ListsApplicable(all: seq<nat>, beads: seq<AdviceBead>, trigger: string, subs: set<string>) {
    && (forall k :: 0 <= k < |all| ==> all[k] < |beads| && Applies(beads[all[k]], trigger, subs))
    && (forall j, k :: 0 <= j < k < |all| ==> all[j] < all[k])
    && (forall i :: 0 <= i < |beads| && Applies(beads[i], trigger, subs) ==> exists k :: 0 <= k < |all| && all[k] == i)
  }

  lemma {:induction false} ApplicableSound(beads: seq<AdviceBead>, trigger: string, subs: set<string>)
    ensures ListsApplicable(Applicable(beads, trigger, subs), beads, trigger, subs)
  {
    if beads != [] {
      var n := |beads| - 1;
      ApplicableSound(beads[..n], trigger, subs);
      hide Applies;
      var all := Applicable(beads[..n], trigger, subs);
      OneMoreBead(all, beads, trigger, subs);
      assert all + [] == all;
    }
  }

  lemma OneMoreBead(all: seq<nat>, beads: seq<AdviceBead>, trigger: string, subs: set<string>)
    requires beads != [] && ListsApplicable(all, beads[..|beads| - 1], trigger, subs)
    ensures var n := |beads| - 1;
      ListsApplicable(if Applies(beads[n], trigger, subs) then all + [n] else all, beads, trigger, subs)
  {
    hide Applies;
    var n := |beads| - 1;
    var all' := if Applies(beads[n], trigger, subs) then all + [n] else all;
    forall i | 0 <= i < |beads| && Applies(beads[i], trigger, subs)
      ensures exists k :: 0 <= k < |all'| && all'[k] == i
    {
      if i < n {
        assert Applies(beads[..n][i], trigger, subs);
        var k :| 0 <= k < |all| && all[k] == i;
        assert all'[k] == i;
      } else {
        assert all'[|all|] == i;
      }
    }
  }

  lemma {:induction false} ApplicablePrefix(beads: seq<AdviceBead>, n: nat, trigger: string, subs: set<string>)
    requires n <= |beads|
    ensures Applicable(beads[..n], trigger, subs) <= Applicable(beads, trigger, subs)
  {
    hide Applies;
    if n == |beads| {
      assert beads[..n] == beads;
    } else {
      assert beads[..|beads| - 1][..n] == beads[..n];
      ApplicablePrefix(beads[..|beads| - 1], n, trigger, subs);
    }
  }

  /** The response to one event, given the hooks that ran. */
  ghost predicate RespondsTo(beads: seq<AdviceBead>, outcomes: seq<Outcome>, trigger: string, subs: set<string>,
                             ran: seq<nat>, resp: Response) {
    && ran <= Applicable(beads, trigger, subs)
    && (forall k :: 0 <= k < |ran| - 1 ==> !Fails(beads, outcomes, ran[k], Block))
    && resp.warnings == WarningsOf(beads, outcomes, ran)
    && (if ran != [] && Fails(beads, outcomes, ran[|ran| - 1], Block)
        then resp.block && resp.reason == BlockReason(beads[ran[|ran| - 1]], outcomes[ran[|ran| - 1]])
        else !resp.block && resp.reason == "" && ran == Applicable(beads, trigger, subs))
  }

  /**
   Hooks run in list order, exactly those that apply, up to and including the first that fails with
   policy block; its failure is the reason, and earlier failures with policy warn are the warnings.
   */
  method HandleSessionEvent(agentId: string, trigger: string, listing: Option<seq<AdviceBead>>,
                            config: Option<AgentConfig>, outcomes: seq<Outcome>)
      returns (resp: Response, ran: seq<nat>)
    requires listing.Some? ==> |outcomes| == |listing.value|
    ensures agentId == "" || trigger == "" || listing.None? ==> resp == Response(false, "", []) && ran == []
    ensures agentId != "" && trigger != "" && listing.Some? ==>
              var subs := ToSet(Enriched(AgentSubscriptions(agentId, []), config));
              RespondsTo(listing.value, outcomes, trigger, subs, ran, resp)
  {
    if agentId == "" || trigger == "" || listing.None? {
      return Response(false, "", []), [];
    }
    var agentSubs := BuildAgentSubscriptions(agentId, []);
    agentSubs := EnrichAgentSubscriptions(agentSubs, config);
    hide AgentSubscriptions, Enriched, RespondsTo;
    resp, ran := RunHooks(listing.value, trigger, agentSubs, outcomes);
  }

  method HookApplies(bead: AdviceBead, trigger: string, agentSubs: seq<string>) returns (r: bool)
    ensures r <==> Applies(bead, trigger, ToSet(agentSubs))
  {
    if bead.fields.None? {
      return false;
    }
    if bead.fields.value.command == "" || bead.fields.value.trigger != trigger {
      return false;
    }
    r := MatchesSubscriptions(bead.labels, agentSubs);
  }

  /** What the loop has gathered while nothing has blocked. */
  ghost predicate Quiet(beads: seq<AdviceBead>, outcomes: seq<Outcome>, ran: seq<nat>, resp: Response) {
    && (forall k :: 0 <= k < |ran| ==> !Fails(beads, outcomes, ran[k], Block))
    && resp == Response(false, "", WarningsOf(beads, outcomes, ran))
  }

  lemma QuietGoesOn(beads: seq<AdviceBead>, outcomes: seq<Outcome>, ran: seq<nat>, resp: Response, i: nat)
    requires Quiet(beads, outcomes, ran, resp) && !Fails(beads, outcomes, i, Block)
    ensures Quiet(beads, outcomes, ran + [i],
      if Fails(beads, outcomes, i, Warn)
      then resp.(warnings := resp.warnings + [Warning(beads[i], outcomes[i])]) else resp)
  {
    hide Warning;
    assert (ran + [i])[..|ran|] == ran;
  }

  lemma BlockEnds(beads: seq<AdviceBead>, outcomes: seq<Outcome>, trigger: string, subs: set<string>, ran: seq<nat>,
                  resp: Response, i: nat)
    requires Quiet(beads, outcomes, ran, resp) && Fails(beads, outcomes, i, Block)
    requires ran + [i] <= Applicable(beads, trigger, subs)
    ensures RespondsTo(beads, outcomes, trigger, subs, ran + [i],
                       resp.(block := true, reason := BlockReason(beads[i], outcomes[i])))
  {
    hide BlockReason, Warning, Applicable;
    assert (ran + [i])[..|ran|] == ran;
    assert WarningsOf(beads, outcomes, ran + [i]) == WarningsOf(beads, outcomes, ran) + [];
  }

  method RunHooks(beads: seq<AdviceBead>, trigger: string, agentSubs: seq<string>, outcomes: seq<Outcome>)
      returns (resp: Response, ran: seq<nat>)
    requires |outcomes| == |beads|
    ensures RespondsTo(beads, outcomes, trigger, ToSet(agentSubs), ran, resp)
  {
    hide BlockReason, Warning, Applies;
    resp, ran := Response(false, "", []), [];
    ghost var subs := ToSet(agentSubs);
    for i := 0 to |beads|
      invariant ran == Applicable(beads[..i], trigger, subs)
      invariant Quiet(beads, outcomes, ran, resp)
    {
      assert beads[..i + 1][..i] == beads[..i];
      var bead := beads[i];
      var applies := HookApplies(bead, trigger, agentSubs);
      if !applies {
        continue;
      }
      AppliesHasFields(bead, trigger, subs);
      var result := outcomes[i];
      if result.failed && bead.fields.value.onFailure.Block? {
        ApplicablePrefix(beads, i + 1, trigger, subs);
        BlockEnds(beads, outcomes, trigger, subs, ran, resp, i);
        return resp.(block := true, reason := BlockReason(bead, result)), ran + [i];
      }
      QuietGoesOn(beads, outcomes, ran, resp, i);
      if result.failed && bead.fields.value.onFailure.Warn? {
        resp := resp.(warnings := resp.warnings + [Warning(bead, result)]);
      }
      ran := ran + [i];
    }
    assert beads[..|beads|] == beads;
  }

  lemma AppliesHasFields(b: AdviceBead, trigger: string, subs: set<string>)
    requires Applies(b, trigger, subs)
    ensures b.fields.Some?
  {
  }

  /** `i` applies and nothing before it that applies fails with policy block. */
  ghost predicate Reached(beads: seq<AdviceBead>, outcomes: seq<Outcome>, trigger: string, subs: set<string>, i: int) {
    && 0 <= i < |beads| && Applies(beads[i], trigger, subs)
    && forall j :: 0 <= j < i && Applies(beads[j], trigger, subs) ==> !Fails(beads, outcomes, j, Block)
  }

  /** A hook runs exactly when it applies and no earlier one blocks. */
  lemma RanExactly(beads: seq<AdviceBead>, outcomes: seq<Outcome>, trigger: string, subs: set<string>, ran: seq<nat>,
                   resp: Response, i: nat)
    requires RespondsTo(beads, outcomes, trigger, subs, ran, resp)
    ensures (exists k :: 0 <= k < |ran| && ran[k] == i) <==> Reached(beads, outcomes, trigger, subs, i)
  {
    var all := Applicable(beads, trigger, subs);
    ApplicableSound(beads, trigger, subs);
    hide Applies, Fails, Applicable;
    if k :| 0 <= k < |ran| && ran[k] == i {
      assert all[k] == i;
      forall j | 0 <= j < i && Applies(beads[j], trigger, subs)
        ensures !Fails(beads, outcomes, j, Block)
      {
        var m :| 0 <= m < |all| && all[m] == j;
        assert m < k && ran[m] == j;
      }
    }
    if Reached(beads, outcomes, trigger, subs, i) {
      var k :| 0 <= k < |all| && all[k] == i;
      if ran != all {
        var stop := |ran| - 1;
        assert all[stop] == ran[stop] && Fails(beads, outcomes, ran[stop], Block);
        assert i <= ran[stop] && k <= stop;
      }
      assert ran[k] == i;
    }
  }

  /** An event is blocked exactly when some applicable hook fails with policy block. */
  lemma BlockedIff(beads: seq<AdviceBead>, outcomes: seq<Outcome>, trigger: string, subs: set<string>, ran: seq<nat>,
                   resp: Response)
    requires RespondsTo(beads, outcomes, trigger, subs, ran, resp)
    ensures resp.block <==>
            exists i :: 0 <= i < |beads| && Applies(beads[i], trigger, subs) && Fails(beads, outcomes, i, Block)
  {
    var all := Applicable(beads, trigger, subs);
    ApplicableSound(beads, trigger, subs);
    hide Applies, Fails, Applicable;
    if resp.block {
      var i := ran[|ran| - 1];
      assert all[|ran| - 1] == i;
    } else {
      forall i | 0 <= i < |beads| && Applies(beads[i], trigger, subs)
        ensures !Fails(beads, outcomes, i, Block)
      {
        var k :| 0 <= k < |all| && all[k] == i;
        assert ran[k] == i;
      }
    }
  }

  /**
   What a session event does, hook by hook. A hook runs iff its fields could be read, it has a command, its
   trigger is this event's, its labels match, and no hook before it that does so fails with policy block.
   */
  lemma RunsExactly(beads: seq<AdviceBead>, outcomes: seq<Outcome>, trigger: string, subs: set<string>, ran: seq<nat>,
                    resp: Response)
    requires |outcomes| == |beads| && RespondsTo(beads, outcomes, trigger, subs, ran, resp)
    ensures forall j, k :: 0 <= j < k < |ran| ==> ran[j] < ran[k]
    ensures forall i: nat :: i in ran <==>
      && i < |beads| && beads[i].fields.Some?
      && beads[i].fields.value.command != "" && beads[i].fields.value.trigger == trigger
      && ServerMatches(beads[i].labels, subs)
      && forall j | 0 <= j < i && beads[j].fields.Some? ::
        || beads[j].fields.value.command == "" || beads[j].fields.value.trigger != trigger
        || !ServerMatches(beads[j].labels, subs)
        || !outcomes[j].failed || !beads[j].fields.value.onFailure.Block?
  {
    ApplicableSound(beads, trigger, subs);
    hide ServerMatches, Applicable, WarningsOf;
    forall i: nat
      ensures i in ran <==> Reached(beads, outcomes, trigger, subs, i)
    {
      RanExactly(beads, outcomes, trigger, subs, ran, resp, i);
    }
  }

  /** The warning for the hook at `i`: its title, its output and its error. */
  ghost predicate WarnsOf(beads: seq<AdviceBead>, outcomes: seq<Outcome>, i: nat, warning: string) {
    && i < |beads| && i < |outcomes|
    && warning == "Advice hook warning: " + beads[i].title + " \U{2014} " + outcomes[i].output
                  + " (exit: " + outcomes[i].err + ")"
  }

  lemma WarningWarns(beads: seq<AdviceBead>, outcomes: seq<Outcome>, i: nat)
    requires i < |beads| && i < |outcomes|
    ensures WarnsOf(beads, outcomes, i, Warning(beads[i], outcomes[i]))
  {
  }

  ghost predicate WarnsInOrder(beads: seq<AdviceBead>, outcomes: seq<Outcome>, ran: seq<nat>, warnings: seq<string>,
                               places: seq<nat>) {
    && |warnings| == |places|
    && (forall j, k :: 0 <= j < k < |places| ==> places[j] < places[k])
    && forall k :: 0 <= k < |places| ==>
        places[k] < |ran| && WarnsOf(beads, outcomes, ran[places[k]], warnings[k])
  }

  lemma OneMoreHook(beads: seq<AdviceBead>, outcomes: seq<Outcome>, ran: seq<nat>, warnings: seq<string>,
                    places: seq<nat>, i: nat, warning: string)
    requires WarnsInOrder(beads, outcomes, ran, warnings, places)
    ensures |ran| !in places && WarnsInOrder(beads, outcomes, ran + [i], warnings, places)
    ensures WarnsOf(beads, outcomes, i, warning) ==>
              WarnsInOrder(beads, outcomes, ran + [i], warnings + [warning], places + [|ran|])
  {
    hide WarnsOf;
  }

  /** The warnings stand for the hooks that ran and failed with policy warn, one each, in order. */
  lemma {:induction false} WarningsInOrder(beads: seq<AdviceBead>, outcomes: seq<Outcome>, ran: seq<nat>)
      returns (places: seq<nat>)
    requires |outcomes| == |beads| && forall k :: 0 <= k < |ran| ==> ran[k] < |beads| && beads[ran[k]].fields.Some?
    ensures WarnsInOrder(beads, outcomes, ran, WarningsOf(beads, outcomes, ran), places)
    ensures forall i: nat :: i < |ran| ==>
      (i in places <==> outcomes[ran[i]].failed && beads[ran[i]].fields.value.onFailure.Warn?)
  {
    if ran == [] {
      places := [];
    } else {
      hide Warning, WarnsOf, WarnsInOrder, WarningsOf;
      var n := |ran| - 1;
      places := WarningsInOrder(beads, outcomes, ran[..n]);
      assert ran[..n] + [ran[n]] == ran;
      WarningsSnoc(beads, outcomes, ran[..n], ran[n]);
      WarningWarns(beads, outcomes, ran[n]);
      var before, warning := WarningsOf(beads, outcomes, ran[..n]), Warning(beads[ran[n]], outcomes[ran[n]]);
      OneMoreHook(beads, outcomes, ran[..n], before, places, ran[n], warning);
      assert before + [] == before;
      if outcomes[ran[n]].failed && beads[ran[n]].fields.value.onFailure.Warn? {
        places := places + [n];
      }
    }
  }

  lemma WarningsSnoc(beads: seq<AdviceBead>, outcomes: seq<Outcome>, ran: seq<nat>, i: nat)
    ensures WarningsOf(beads, outcomes, ran + [i]) ==
      WarningsOf(beads, outcomes, ran)
      + if Fails(beads, outcomes, i, Warn) then [Warning(beads[i], outcomes[i])] else []
  {
    hide Warning;
    assert (ran + [i])[..|ran|] == ran;
  }

  /** So the warnings of the response stand for exactly those hooks. */
  lemma WarningsExactly(beads: seq<AdviceBead>, outcomes: seq<Outcome>, trigger: string, subs: set<string>,
                        ran: seq<nat>, resp: Response)
      returns (places: seq<nat>)
    requires |outcomes| == |beads| && RespondsTo(beads, outcomes, trigger, subs, ran, resp)
    ensures forall k :: 0 <= k < |ran| ==> ran[k] < |beads| && beads[ran[k]].fields.Some?
    ensures WarnsInOrder(beads, outcomes, ran, resp.warnings, places)
    ensures forall i: nat :: i < |ran| ==>
      (i in places <==> outcomes[ran[i]].failed && beads[ran[i]].fields.value.onFailure.Warn?)
  {
    BlockExactly(beads, outcomes, trigger, subs, ran, resp);
    places := WarningsInOrder(beads, outcomes, ran);
    hide WarnsInOrder, WarningsOf, Applicable;
  }

  /**
   The event is blocked iff some hook that ran failed with policy block; that is then the last one, and the
   reason names it, its command and what came of it.
   */
  lemma BlockExactly(beads: seq<AdviceBead>, outcomes: seq<Outcome>, trigger: string, subs: set<string>, ran: seq<nat>,
                     resp: Response)
    requires |outcomes| == |beads| && RespondsTo(beads, outcomes, trigger, subs, ran, resp)
    ensures forall k :: 0 <= k < |ran| ==> ran[k] < |beads| && beads[ran[k]].fields.Some?
    ensures forall k :: 0 <= k < |ran| ==>
      (outcomes[ran[k]].failed && beads[ran[k]].fields.value.onFailure.Block? <==> resp.block && k == |ran| - 1)
    ensures resp.block ==> ran != []
    ensures resp.block ==>
      var b, o := beads[ran[|ran| - 1]], outcomes[ran[|ran| - 1]];
      resp.reason == "Advice hook blocked: " + b.title + "\nCommand: " + b.fields.value.command
                     + "\nError: " + o.err + "\nOutput: " + o.output
    ensures !resp.block ==> resp.reason == ""
  {
    ApplicableSound(beads, trigger, subs);
    hide ServerMatches, Applicable, WarningsOf;
    forall k | 0 <= k < |ran|
      ensures ran[k] < |beads| && Applies(beads[ran[k]], trigger, subs)
    {
      assert ran[k] == Applicable(beads, trigger, subs)[k];
    }
  }
}
