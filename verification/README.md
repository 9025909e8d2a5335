# Verified models of kbeads and the beads3d viewer

This project models the parts of the repository whose correctness is not visible from one function
body, and proves what their comments, help texts and tests promise. It is plain Dafny: run
`dafny verify dfyconfig.toml` here.

Code that changes things in place is modelled as methods over classes, arrays or local variables and
proved against specification functions; the promises are lemmas about those functions. Protocols are
state machines whose steps may interleave in any order.

| file | what it covers |
|---|---|
| `Subscription.dfy` | the 64-place channel, mutex and once-only cancel of a NATS subscription |
| `Watch.dfy` | the event-driven watch loop: notifications, debounce timer, reconnects, re-query and diff |
| `Reachability.dfy`, `DragSubtree.dfy`, `DragScope.dfy`, `Highlight.dfy` | the viewer's queue searches, against walks in the link graph |
| `ViewerGraph.dfy`, `GraphContents.dfy` | building the viewer's graph from a server reply, and what it consists of |
| `Text.dfy`, `Template.dfy` | placeholders and conditions of formula steps |
| `BeadStore.dfy`, `Formula.dfy`, `Molecule.dfy`, `Plans.dfy`, `Burn.dfy`, `Walks.dfy`, `Lifecycle.dfy` | formulas, pouring them into molecules one store call at a time, and burning molecules |
| `Advice.dfy`, `Hooks.dfy` | matching advice to agents, in the server and in the command line, and running advice hooks |
| `AdaptiveQuality.dfy` | the viewer's frame-rate monitor and presets |
| `Jack.dfy` | time-limited change permits |
| `EventBus.dfy` | handler registration, dispatch and merging of results |
| `SseClient.dfy` | the bus's server-sent events, from the server's text to the client's events |
| `Mutations.dfy` | coalescing live updates in the viewer |
| `Places.dfy` | positions in a list, to say what a filter keeps and in which order |

## Where the code departs from its description

The model follows the code. The differences found:

- `formula update` keeps `default_roles` and `assigned_agent`, because the server merges the fields it
  is sent (`kbeads/internal/server/beads.go:300-318`); for the same reason clearing the assignee has no
  effect (`Formula.ClearAssigneeWorksIff`).
- Validation accepts a step that names a dependency twice; when both steps are kept, pouring fails at
  the second edge, on the key of the deps table (`Lifecycle.PourSucceedsIffPourable`,
  `Lifecycle.NoEdgeTwiceIff`).
- A step order that ran through a skipped step is dropped, not bridged (`Lifecycle.OrderSurvivesIff`).
- Conditions: `false` and `0` are not truthy although the comment says non-empty, and a right side with
  `!=` in it is split there even after `==` (`Template.EqualityMeantIff`).
- Group labels: a signed number such as `g+1:` is a group but escapes the rig and agent guard, and
  numbers from 1000 on collide with ungrouped labels. `Advice.MatcherDocumentedIff` says for which labels
  the documented meaning holds; canonical ones, on which both ways of reading a prefix agree and numbers
  stay below 1000, are among them.
- The command line also insists on projects that labels name (`Advice.CliMatchesIff`).
- Dragging an agent follows every outgoing link, not only `assigned_to` as the comment above
  `getDragSubtree` says (`DragScope.DragIgnoresTypes`); `DragScope.AgentDragsAssignedIff` says for
  which graphs that makes no difference. The comment inside the loop, `assigned_to` first and then any
  link, is a second reading: it holds iff every bead the agent has a link to is assigned to it
  (`DragScope.AgentDragsAssignedFirstIff`).
- A bead drags along what lies within four hops, which need not be the full connected component of the same
  comment (`DragScope.FullComponentIff`).
- The link to an in-progress bead is meant to leave an agent; a ghost or another node can hold the
  agent's id (`ViewerGraph.AgentPresentIff`).
- Links that share a key are highlighted together (`Highlight.HighlightExactIff`).
- A repeated variable name lets a value pass a definition's allowed ones (`Formula.EscapesIff`).
- A preset is said to hold until frame-rate trouble is detected; nothing ever lifts it
  (`AdaptiveQuality.OverrideLasts`).
- Negative lifetimes of jacks are accepted and break the bound on their time in force
  (`Jack.ExtensionKeepsBoundIff`); `jack down` does not look at the status, so a closed jack can be
  given new closing fields (`Jack.ClosingStaysIff`).
- Coalescing loses a change whenever a later event of the same bead sets other fields
  (`Mutations.CoalescingSoundIff`).

## Model

| member | source | states |
|---|---|---|
| `Watch.DiffBeads` | kbeads/cmd/kd/watch.go:185-195 | the loop over one answer: reports and records exactly as `Changed` and `SeenAfter` say, updating the shared map |
| `Watch.ChangedExactly` | kbeads/cmd/kd/watch.go:185-195 | with distinct ids, the reported beads are exactly those that are new or carry another timestamp |
| `Watch.ReportedOnceInOrder` | kbeads/cmd/kd/watch.go:185-195 | with distinct ids, the answer is the listed beads that are new or carry another timestamp, each once and in the order listed |
| `Watch.SeenAfterLookup` | kbeads/cmd/kd/watch.go:185-195 | after an answer every listed bead is recorded at its timestamp and every other entry is as before |
| `Watch.NextKeepsInv` | kbeads/cmd/kd/watch.go:119-135 | each step of server, network, callback, timer, reconnect handler and loop keeps the watch invariant |
| `Watch.NoLostChange` | kbeads/cmd/kd/watch.go:83-136 | in every interleaving after Subscribe returns, a change the server has not been asked about leaves a wake-up pending or the link down, and all older changes are recorded and reported |
| `Watch.EndsOnlyWhenTold` | kbeads/cmd/kd/watch.go:119-135 | the watch goes on along every run without a failed query or a cancellation |
| `Watch.EditIsReported` | kbeads/cmd/kd/watch.go:119-135 | any edit, its notification, the debounce timer and one query leave every edited bead in the view recorded and reported |
| `Watch.ReconnectMakesUp` | kbeads/cmd/kd/watch.go:88-104 | the same edit with the link down, its notification lost: after the reconnect and no other message all is recorded and reported |
| `Watch.QuiescentIsUpToDate` | kbeads/cmd/kd/watch.go:83-136 | in every reachable state at rest, each bead changed since Subscribe and still in the view is recorded and printed at its current timestamp |
| `Watch.InternalStepsDescend` | kbeads/cmd/kd/watch.go:119-135 | every step the system takes by itself lowers a rank, whatever the order |
| `Watch.SettlesInRankSteps` | kbeads/cmd/kd/watch.go:119-135 | left alone, the system makes at most that many steps |
| `Watch.NeverStuck` | kbeads/cmd/kd/watch.go:119-135 | with the link up the loop is never blocked short of rest |
| `Watch.EventuallyUpToDate` | kbeads/cmd/kd/watch.go:83-136 | every maximal run without further changes ends at rest with all changes since Subscribe reported |
| `Subscription.NextKeepsInv` | kbeads/internal/events/nats.go:87-127 | each atomic step of callbacks, consumer and cancel calls keeps the channel invariant |
| `Subscription.RunKeepsInv` | kbeads/internal/events/nats.go:78-130 | under every interleaving: no send on a closed channel, at most one close, never more than 64 buffered, what was sent is what was taken plus what is buffered |
| `Subscription.ReceivedInOrder` | kbeads/internal/events/nats.go:87-98 | what the consumer receives is an in-order subsequence of the messages in the order their callbacks held the mutex |
| `Subscription.OrderKeptIff` | kbeads/internal/events/nats.go:87-98 | the order in which callbacks were called is kept throughout a run iff the mutex goes first come, first served |
| `Subscription.OneAtATimeIsFirstCome` | kbeads/internal/events/nats.go:87-98 | which holds when no callback is called while another is going on, as NATS calls those of one subscription |
| `Subscription.ReceivedInCallOrder` | kbeads/internal/events/nats.go:87-98 | and then the consumer receives an in-order subsequence of the calls |
| `Subscription.EveryCallAccountedFor` | kbeads/internal/events/nats.go:87-98 | under every interleaving each call is finished with a known fate or still going on |
| `Subscription.CallbacksCanOvertake` | kbeads/internal/events/nats.go:87-98 | side by side, a later callback can overtake an earlier one |
| `Subscription.LossOnlyWhenFullOrCancelled` | kbeads/internal/events/nats.go:87-98 | before cancel takes effect a message is lost only by finding all 64 places taken |
| `Subscription.DrainTerminates` | kbeads/internal/events/nats.go:117-125 | once `closed` is set no interleaving keeps the drain loop going beyond one turn per buffered message plus the closing turn, and the channel is closed once |
| `Subscription.CancelEffect` | kbeads/internal/events/nats.go:111-127 | one whole cancel closes and empties the channel; a repeated one changes nothing |
| `Subscription.Subscriber.constructor` | kbeads/internal/events/nats.go:79-85 | a new subscription is the initial state of the machine |
| `Subscription.Subscriber.OnMessage` | kbeads/internal/events/nats.go:87-98 | the callback is the run lock, check, try-send of the machine and keeps its invariant |
| `Subscription.Subscriber.TakeNext` | kbeads/internal/events/nats.go:79 | a receive takes the oldest message, or reports the closed channel |
| `Subscription.Subscriber.Cancel` | kbeads/internal/events/nats.go:111-127 | cancel is the whole drain-and-close run of the machine: afterwards the channel is closed exactly once and empty, and the consumer has received nothing more |
| `DragSubtree.IndexVisible` | beads3d/src/layout.js:323-326 | the id index holds exactly the visible nodes, the last of an id winning |
| `DragSubtree.NearerAreVisited` | beads3d/src/layout.js:334-364 | whenever an entry is taken from the queue, every node nearer than it has already been found |
| `DragSubtree.FirstSight` | beads3d/src/layout.js:334-340 | the depth at which a node is first taken from the queue is its true shortest distance |
| `DragSubtree.QueueNeighbours` | beads3d/src/layout.js:342-363 | the depth limit and the inner loop: queues, one hop further, exactly the unvisited neighbours in the direction the start allows, and none at four hops |
| `DragSubtree.GetDragSubtree` | beads3d/src/layout.js:321-366 | returns every visible node within four hops along visible nodes, each once, at its shortest depth, nearest first, and nothing else; terminates despite duplicate entries |
| `DragScope.DragIgnoresTypes` | beads3d/src/layout.js:345-362 | only the ends of links matter to a drag: links of every type are followed |
| `DragScope.SameDragIff` | beads3d/src/layout.js:345-362 | some of the links do for a drag downstream, at every depth, iff none of the others leads further than they do |
| `DragScope.AgentDragsAssignedIff` | beads3d/src/layout.js:319-353 | an agent drags along assigned_to links only, as documented above the function, iff no other link leads further |
| `DragScope.AgentDragsAssignedFirstIff` | beads3d/src/layout.js:349-353 | it leaves along assigned_to links and goes on along any, as documented in the loop, iff each visible bead it has a link to is assigned to it |
| `DragScope.AgentDragsUnassigned` | beads3d/src/layout.js:349-353 | with one link of another type an agent drags along a bead it is not assigned to, against both comments |
| `DragScope.FullComponentIff` | beads3d/src/layout.js:320-343 | the drag is the full connected component iff no link between visible nodes leads out of it |
| `DragScope.ChainLeftBehind` | beads3d/src/layout.js:342-343 | the last bead of a chain of five links stays behind |
| `Highlight.GetConnectedComponent` | beads3d/src/main.js:2453-2468 | returns exactly the ids reachable over links in either direction; terminates despite duplicates |
| `Highlight.ComponentsAreEquivalence` | beads3d/src/main.js:2453-2468 | reachability over undirected links is reflexive, symmetric and transitive |
| `Highlight.ComponentsEqualOrDisjoint` | beads3d/src/main.js:2453-2468 | two computed components are equal or have nothing in common |
| `Highlight.HighlightLinksOf` | beads3d/src/main.js:2591-2608 | the inner loop adds exactly the keys of the links leaving the current node and queues their far ends |
| `Highlight.HighlightSubgraph` | beads3d/src/main.js:2577-2612 | highlights exactly the directed-reachable ids, and exactly the keys of the links leaving them (entering them, upstream) |
| `Highlight.UpstreamIsReversedDownstream` | beads3d/src/main.js:2595-2607 | upstream reachability is downstream reachability in the graph with every link reversed |
| `Highlight.KeysIdentifyLinks` | beads3d/src/main.js:1439-1443 | without an arrow in the source ids, equal keys mean equal endpoints |
| `Highlight.ExactForAllIff` | beads3d/src/main.js:2595-2607 | a link is highlighted exactly when its near end is in the ids, for every set of ids, iff no two links leaving from different ids share a key |
| `Highlight.HighlightExactIff` | beads3d/src/main.js:2577-2609 | for the sets highlightSubgraph reaches, iff links that share a key leave from ids that reach each other |
| `Highlight.HighlightedIffLeaving` | beads3d/src/main.js:2595-2607 | so it is exact whenever no source id holds an arrow |
| `Highlight.HighlightedLinks` | beads3d/src/main.js:2591-2608 | a key is highlighted iff a link of that key has its source reached (upstream: its target); its other end is then reached too |
| `Highlight.ArrowIdsCollide` | beads3d/src/main.js:1439-1443 | with an arrow in an id two different links do share a key |
| `ViewerGraph.AddServerEdges` | beads3d/src/main.js:1983-2016 | the edge loop yields the graph the edge-by-edge specification gives, ghosts and promoted types included |
| `ViewerGraph.LinkAgents` | beads3d/src/main.js:2021-2046 | adds an assigned_to link for each in-progress assigned node unless it is there already |
| `ViewerGraph.AddAgentNodes` | beads3d/src/main.js:2047-2053 | adds each agent node whose id is not taken |
| `ViewerGraph.DropUnlinked` | beads3d/src/main.js:2057-2063 | keeps everything but unlinked decisions, gates and molecules, in order |
| `ViewerGraph.FetchViaGraph` | beads3d/src/main.js:1971-2063 | the whole construction refines `BuildGraph` |
| `ViewerGraph.GraphWellFormed` | beads3d/src/main.js:1983-2063 | for any reply with distinct ids: distinct node ids and no dangling link, through ghosts, agents and the filter |
| `ViewerGraph.WorkersAreLinked` | beads3d/src/main.js:2021-2063 | every in-progress assigned node in the result has its assigned_to link from a node that is present |
| `ViewerGraph.AgentPresentIff` | beads3d/src/main.js:2021-2053 | that node is an agent iff the id is unknown, or known as an agent, once the edges are drawn |
| `ViewerGraph.KnownAsExactly` | beads3d/src/main.js:1985-2016 | which ids the edge loop makes known and under which type, told from the reply alone |
| `ViewerGraph.AgentPresentWhenUnmentioned` | beads3d/src/main.js:2021-2053 | it is an agent when the reply does not mention the agent's id |
| `ViewerGraph.GhostHoldsAgentId` | beads3d/src/main.js:1998-2014 | a parent-child edge from the agent's id makes a ghost of it, and the worker's link leaves an epic |
| `ViewerGraph.WorkersStay` | beads3d/src/main.js:2057-2063 | working nodes, and all nodes of other types, survive the filter |
| `ViewerGraph.EdgesExact` | beads3d/src/main.js:1985-2016 | links of the edge loop stem from server edges, every edge inside the reply is drawn, every added node is a ghost at an edge |
| `ViewerGraph.LinksExact` | beads3d/src/main.js:1985-2046 | every link stems from a server edge or a working node, and no edge inside the reply is lost |
| `ViewerGraph.NodesExact` | beads3d/src/main.js:1985-2063 | every node is the reply's own, the missing end of one of its edges, or a working node's agent |
| `GraphContents.NodesExactly` | beads3d/src/main.js:1971-2063 | the nodes are exactly the reply's own, decisions, gates and molecules among them only if a link touches them, an open epic for each missing end that an edge made known, and an active agent for each assignee at work whose id is free |
| `GraphContents.EarlyExactly` | beads3d/src/main.js:1971-2016 | before agents and filter: the reply's nodes and the ghosts |
| `GraphContents.AddedAgents` | beads3d/src/main.js:2047-2053 | an agent is added for each name at work whose id no node has, and nothing else |
| `GraphContents.EdgeLinksInOrder` | beads3d/src/main.js:1985-2016 | the edge loop draws an edge iff both ends are known by then, or one is and it counts as parent-child; each once, in order, with its type |
| `GraphContents.AgentLinksInOrder` | beads3d/src/main.js:2025-2046 | each bead in progress gets the link from its agent once, unless it is drawn already |
| `GraphContents.LinksExactly` | beads3d/src/main.js:1985-2046 | the links are the drawn edges followed by those links, and no others |
| `Text.TrimSpaceExactly` | kbeads/cmd/kd/formula_apply.go:439-452 | trimming, as conditions need it, cuts off just the white space at both ends |
| `Template.ScanThenShow` | kbeads/cmd/kd/formula_apply.go:417-418 | scanning a text into placeholders and characters loses nothing: showing the tokens gives the text back |
| `Template.ShowThenScan` | kbeads/cmd/kd/formula_apply.go:417-418 | a template of brace-free text and placeholders scans back to its own tokens |
| `Template.SubstituteIsTokenwise` | kbeads/cmd/kd/formula_apply.go:422-430 | for every text, replacing is rendering token by token: each placeholder once, everything else untouched |
| `Template.SubstituteTemplate` | kbeads/cmd/kd/formula_apply.go:422-430 | on such templates substitution replaces each bound placeholder and leaves unbound ones |
| `Template.SubstituteIdempotent` | kbeads/cmd/kd/formula_apply.go:422-430 | so one pass suffices for any text whose opening braces all belong to placeholders, when no value has an opening brace |
| `Template.OnePassSufficesIff` | kbeads/cmd/kd/formula_apply.go:422-430 | when no value has an opening brace, a second pass changes nothing iff no opening brace of the text that belongs to no placeholder starts a bound one once what follows it is filled in |
| `Template.UnchangedIff` | kbeads/cmd/kd/formula_apply.go:422-430 | for such values substitution leaves a text alone iff it shows no bound placeholder |
| `Template.LeadingNameIff` | kbeads/cmd/kd/formula_apply.go:417-418 | a placeholder is two braces around one or more letters, digits and underscores |
| `Template.NestedPlaceholderNotIdempotent` | kbeads/cmd/kd/formula_apply.go:422-430 | a placeholder nested in another's braces: filling the inner one completes the outer, which a second pass replaces |
| `Template.ConditionParsedBeforeValues` | kbeads/cmd/kd/formula_apply.go:438-471 | every condition evaluates as a fixed parse of its raw text: operators never come out of variable values |
| `Template.BangsNegate` | kbeads/cmd/kd/formula_apply.go:442-445 | k leading exclamation marks negate any condition k times |
| `Template.PlaceholderCondition` | kbeads/cmd/kd/formula_apply.go:459-468 | a bare placeholder holds iff the variable is bound to something other than empty, `false` and `0` |
| `Template.EqualityCondition` | kbeads/cmd/kd/formula_apply.go:448-457 | `{{x}} == v` compares x with v whenever v contains no `!=` |
| `Template.ReadAsEqualityIff` | kbeads/cmd/kd/formula_apply.go:448-457 | exactly those comparisons are read as equalities |
| `Template.InequalityCondition` | kbeads/cmd/kd/formula_apply.go:442-447 | `{{x}} != v` compares x with the trimmed v for every v, those with `!=` or `==` inside included |
| `Template.EqualityMeantIff` | kbeads/cmd/kd/formula_apply.go:448-457 | `{{x}} == v` compares x with the trimmed v, for all variables, iff v contains no `!=` |
| `Template.EqualityWithBangMisread` | kbeads/cmd/kd/formula_apply.go:448-457 | a variable for which `{{x}} == a!=b` holds although it is not `a!=b` |
| `BeadStore.Store.CreateBead` | kbeads/internal/server/beads.go:40-121 | a created bead has a new id and the canonical type; title, priority and type are checked; a failed call changes nothing |
| `BeadStore.Store.AddDependency` | kbeads/internal/store/postgres/queries.go:380-392 | adds one edge whose ends exist and which was not there (keys and references of the deps table); fails without effect otherwise |
| `BeadStore.Store.DeleteBead` | kbeads/internal/store/postgres/queries.go:365-378 | removes the bead and every dependency at it |
| `BeadStore.Store.UpdateFields` | kbeads/internal/server/beads.go:300-318 | merges the sent fields into the stored ones |
| `BeadStore.Store.ReverseDependencies` | kbeads/internal/store/postgres/queries.go:417-429 | lists exactly the dependencies that point at a bead, each once |
| `Formula.CheckIds` | kbeads/cmd/kd/formula_create.go:99-112 | the id loop accepts exactly lists whose steps have ids and titles and no id twice |
| `Formula.CheckDependencies` | kbeads/cmd/kd/formula_create.go:113-119 | finds a dependency on an unknown step iff there is one |
| `Formula.WellFormedMeans` | kbeads/cmd/kd/formula_create.go:99-119 | a list is well formed iff it is not empty, ids and titles are there, ids are distinct and every dependency is the id of some step |
| `Formula.ValidateSteps` | kbeads/cmd/kd/formula_create.go:95-119 | accepts exactly well-formed step lists, and every complaint is about something that is really wrong |
| `Formula.RunFormulaCreate` | kbeads/cmd/kd/formula_create.go:95-132 | stores a formula with exactly the given content, only when well formed |
| `Formula.RunFormulaUpdate` | kbeads/cmd/kd/formula_update.go:15-119 | leaves the formula with the fields of `UpdatedFields`; a file must be well formed; failures change nothing |
| `Formula.UpdateIsAMerge` | kbeads/cmd/kd/formula_update.go:78-111 | what the client sends, merged by the server, keeps roles and agent and replaces vars and steps |
| `Formula.ClearAssigneeWorksIff` | kbeads/cmd/kd/formula_update.go:93-98 | clearing the assignee removes it iff there was none: the merge keeps the stored key |
| `Formula.CreateThenUpdate` | kbeads/cmd/kd/formula_update.go:78-111 | updating from a second file is creating from it, except that the first file's roles stay |
| `Formula.ResolveVars` | kbeads/cmd/kd/formula_apply.go:58-92 | the two loops compute `ResolvedVars`, with its first error |
| `Formula.ResolutionSucceedsIff` | kbeads/cmd/kd/formula_apply.go:68-92 | whatever names repeat, resolution succeeds iff each definition, with those before it, settles its name if it is required and settles it only to a value it allows |
| `Formula.SplitExactly` | kbeads/cmd/kd/fields.go:11-17 | a text splits into name and value iff it is the name, which is not empty and holds no equals sign, an equals sign, and the value |
| `Formula.PairsExactly` | kbeads/cmd/kd/formula_apply.go:58-66 | pairs are read iff each is one; a name then has the value of its last pair |
| `Formula.ValuesFromPairs` | kbeads/cmd/kd/formula_apply.go:58-92 | after resolution a name has the value of its last pair, else its first default that is not empty, else none |
| `Formula.RefusalExplained` | kbeads/cmd/kd/formula_apply.go:68-92 | a refusal names a definition whose name was unsettled although required, or settled to a value it does not allow |
| `Formula.ResolutionExact` | kbeads/cmd/kd/formula_apply.go:68-92 | for the special case of distinct names: resolution succeeds iff every definition can be met, and then gives each variable its given or default value and no other |
| `Formula.ResolvesExactly` | kbeads/cmd/kd/formula_apply.go:68-92 | with repeated names too: a successful resolution gives each name what was given, or its first default, or nothing |
| `Formula.EscapesIff` | kbeads/cmd/kd/formula_apply.go:68-92 | it leaves a value outside a definition's options iff a later definition of the name, not given, brings in the first default and that is outside |
| `Formula.RepeatedNameEscapesOptions` | kbeads/cmd/kd/formula_apply.go:68-92 | two definitions of one name that do so |
| `Formula.FilterDependencies` | kbeads/cmd/kd/formula_apply.go:132-139 | drops exactly the references to skipped steps |
| `Formula.ExpandSteps` | kbeads/cmd/kd/formula_apply.go:100-141 | the loops compute the active steps in order |
| `Formula.ActiveExactly` | kbeads/cmd/kd/formula_apply.go:100-141 | a step is active iff it expands a formula step whose condition holds |
| `Formula.FilteredInOrder` | kbeads/cmd/kd/formula_apply.go:133-139 | the dependencies kept are those not on skipped steps, in order |
| `Formula.ActiveInOrder` | kbeads/cmd/kd/formula_apply.go:97-142 | the active steps are those without a condition or whose condition holds, in order, with title, description and assignee filled in and all else as it was |
| `Formula.ExpansionInducesSubgraph` | kbeads/cmd/kd/formula_apply.go:119-141 | the kept steps are the formula's minus the skipped, and their order is exactly the formula's restricted to them |
| `Molecule.MergeLabels` | kbeads/cmd/kd/formula_apply.go:482-501 | the two loops compute `MergedLabels` |
| `Molecule.MergedLabelsSound` | kbeads/cmd/kd/formula_apply.go:482-501 | the result holds exactly the labels of both lists, and is free of repeats iff there was something to add or the base had none |
| `Molecule.MakePlan` | kbeads/cmd/kd/formula_apply.go:29-145 | every check before the first store call, in order, with its error; what a plan holds is told by `Plans.PlanFromInputs` and the rows after it |
| `Molecule.StepBeadMeans` | kbeads/cmd/kd/formula_apply.go:219-248 | the bead built for a step has a type and priority of its own or by default, carries every label of the molecule and the step and exactly one label per effective role, and none twice unless the formula's own labels did; assignee and priority fall back to the molecule's |
| `Molecule.MoleculeBeadMeans` | kbeads/cmd/kd/formula_apply.go:186-209 | the molecule built is stored as type molecule with exactly the labels of formula and command line, names its formula, is marked ephemeral iff asked, and keeps variables under which the formula's title and description are its own |
| `Molecule.CreateStep` | kbeads/cmd/kd/formula_apply.go:250-265 | one step: bead, then link; each failure leaves one of the states a pour may stop in |
| `Molecule.CreateSteps` | kbeads/cmd/kd/formula_apply.go:216-266 | after any number of steps the store is as `Reached` says, and the id map is right |
| `Molecule.AddBlock` | kbeads/cmd/kd/formula_apply.go:275-283 | one ordering edge is added, or the call failed for a reason the plan explains |
| `Molecule.AddBlocks` | kbeads/cmd/kd/formula_apply.go:268-285 | ordering edges come last, each once, in plan order |
| `Molecule.CreateAll` | kbeads/cmd/kd/formula_apply.go:183-285 | every way the creation can end is a reached state; success means all of it, failure has its reason |
| `Molecule.RunFormulaApply` | kbeads/cmd/kd/formula_apply.go:25-285 | pour, wisp and apply: no effect on error or dry run; otherwise a reached state with its explanation |
| `Plans.PlanFromInputs` | kbeads/cmd/kd/formula_apply.go:29-56 | a plan is for a stored formula with steps; labels, actor and kind are the options', the assignee the option's or else the formula's agent, the roles the formula's |
| `Plans.PlanVariables` | kbeads/cmd/kd/formula_apply.go:58-76 | each variable of a plan is the text after the equals sign of its last pair, else its first default that is not empty, else it has none |
| `Plans.PlanSteps` | kbeads/cmd/kd/formula_apply.go:97-145 | its steps are, in order, the stored ones without a condition or whose condition holds, filled in, without references to skipped ones |
| `Plans.NoPlanReason` | kbeads/cmd/kd/formula_apply.go:29-145 | without a plan, the first reason that applies is reported |
| `Plans.VariableProblemExplained` | kbeads/cmd/kd/formula_apply.go:58-92 | a problem with variables is a text that is no pair, or a definition that is not met |
| `Plans.NothingToCreateExplained` | kbeads/cmd/kd/formula_apply.go:143-145 | nothing to create means that no step is without condition and none holds |
| `Plans.CreatedIsRead` | kbeads/cmd/kd/formula_create.go:95-132 | what create stores is read back by a pour as the file's definitions, steps and roles, with the assignee as agent |
| `Plans.UpdatedIsRead` | kbeads/cmd/kd/formula_update.go:15-119 | after an update a pour reads the new file, with the roles of the old one, and the old agent unless one was named |
| `Plans.AcceptedMeans` | kbeads/internal/server/beads.go:40-121 | a bead is taken iff its title has 1 to 500 characters once trimmed, its priority is 0 to 4 and its type is configured |
| `Plans.PourableIff` | kbeads/cmd/kd/formula_apply.go:211-285 | the store can object to a plan iff a title, priority or type is not acceptable or a step names a kept step twice |
| `Burn.CollectChildren` | kbeads/cmd/kd/mol_burn.go:45-50 | collects exactly the beads below the molecule, each once |
| `Burn.BurnMolecule` | kbeads/cmd/kd/mol_burn.go:26-79 | deletes exactly the children that can be deleted and the molecule, with every dependency at them; nothing on preview or without force |
| `Lifecycle.CrashSafe` | kbeads/cmd/kd/formula_apply.go:211-285 | stopped after any prefix of its calls, a pour leaves no dangling dependency, touches nothing old, leaves at most one bead unlinked, and has added ordering only if every step is created and linked |
| `Lifecycle.PourCreatesBeads` | kbeads/cmd/kd/formula_apply.go:211-266 | a finished pour creates one molecule and one new bead per active step, under an injective step-to-bead map, and nothing else |
| `Lifecycle.PourLinksEveryStep` | kbeads/cmd/kd/formula_apply.go:256-266 | it adds one parent-child edge per step and no dependency of another kind |
| `Lifecycle.PourKeepsOrder` | kbeads/cmd/kd/formula_apply.go:268-285 | its ordering edges are exactly the image of depends_on among active steps |
| `Lifecycle.BlocksAreImage` | kbeads/cmd/kd/formula_apply.go:268-285 | in any complete progress the ordering edges are that image |
| `Lifecycle.PourSucceedsIffPourable` | kbeads/cmd/kd/formula_apply.go:211-285 | a pour not failed by the store succeeds iff titles, priorities and types are acceptable and no ordering edge is asked for twice |
| `Lifecycle.NoEdgeTwiceIff` | kbeads/cmd/kd/formula_apply.go:268-285 | no edge is asked for twice iff no step names a kept step twice |
| `Lifecycle.PlannedWork` | kbeads/cmd/kd/formula_apply.go:219-285 | what a plan with distinct step ids asks of the store: a bead per step, and an ordering edge exactly for each dependency among kept steps |
| `Lifecycle.PlanOfValidated` | kbeads/cmd/kd/formula_apply.go:99-145 | a plan from a validated formula has its kept steps, distinct and at least one, in exactly the formula's order, and asks for the work of those steps |
| `Lifecycle.ChildrenOfMolecule` | kbeads/cmd/kd/formula_apply.go:256-266 | at any stopping point the molecule's children are the linked steps |
| `Lifecycle.BurnUndoesPour` | kbeads/cmd/kd/mol_burn.go:40-74 | burning restores the store wherever the pour stopped, up to the one unlinked bead; after a finished pour exactly |
| `Lifecycle.BurnLeaves` | kbeads/cmd/kd/mol_burn.go:40-74 | wherever the pour stopped and whichever children could not be deleted: what was there before is untouched, and of the pour there remain those children, the order among them, and at most one unlinked bead |
| `Lifecycle.PourThenBurn` | kbeads/cmd/kd/mol_burn.go:26-79 | the two commands in turn, however the pour ended: burning its molecule by force leaves just that; when the pour went through and every child was deleted, the store as it was |
| `Lifecycle.PourAcyclicIff` | kbeads/cmd/kd/formula_apply.go:268-285 | the store has a dependency cycle after a pour iff it had one or the active steps have one |
| `Lifecycle.PourKeepsAcyclic` | kbeads/cmd/kd/formula_create.go:99-119 | pouring a validated formula without cycles into a store without cycles makes none |
| `Lifecycle.OrderSurvivesIff` | kbeads/cmd/kd/formula_apply.go:127-141 | one bead waits for another iff the formula orders their steps through kept steps |
| `Lifecycle.SkippedStepLosesOrder` | kbeads/cmd/kd/formula_apply.go:127-141 | a chain whose middle step is skipped loses the order of its ends |
| `Advice.StripGroupPrefix` | kbeads/internal/model/advice.go:83-95 | the digit loop computes `Strip` |
| `Advice.ParseGroups` | kbeads/internal/model/advice.go:59-79 | the loop fills the map of `Groups`, ungrouped labels from slot 1000 on |
| `Advice.AnyGroupHeld` | kbeads/internal/model/advice.go:38-53 | true iff some group is wholly subscribed |
| `Advice.MatchesSubscriptions` | kbeads/internal/model/advice.go:17-54 | the server's matcher is guard and some wholly subscribed group |
| `Advice.GroupsBySlot` | kbeads/internal/model/advice.go:59-79 | a map entry holds exactly the labels of its slot |
| `Advice.GroupHeldIffSlotHeld` | kbeads/internal/model/advice.go:38-53 | some map entry is subscribed iff some label's slot is: map order cannot matter |
| `Advice.ServerMatchesDocumented` | kbeads/internal/model/advice.go:8-16 | on canonical labels the matcher means its documentation: required labels subscribed, AND within a group, OR across |
| `Advice.OrderIrrelevant` | kbeads/internal/model/advice.go:17-54 | order and repetition of canonical labels do not matter |
| `Advice.ServerMonotone` | kbeads/internal/model/advice.go:17-54 | more subscriptions never lose advice, for any labels |
| `Advice.GuardDecides` | kbeads/internal/model/advice.go:23-32 | with an unprefixed rig: or agent: label present the guard alone decides |
| `Advice.CanonicalLabels` | kbeads/internal/model/advice.go:59-95 | prefixes of g and one to three digits are canonical, and so is every label not starting with g |
| `Advice.GuardDocumentedIff` | kbeads/internal/model/advice.go:23-32 | the guard is the documented one for all subscriptions iff both ways of cutting prefixes yield the same rigs and agents |
| `Advice.GroupsDocumentedIff` | kbeads/internal/model/advice.go:34-53 | AND within and OR across groups holds for all subscriptions iff slots and documented groups refine each other |
| `Advice.MatcherDocumentedIff` | kbeads/internal/model/advice.go:8-54 | the whole matcher means its documentation for all subscriptions iff what it asks for and what is documented refine each other |
| `Advice.DigitPrefix` | kbeads/internal/model/advice.go:66-72 | for any number of digits that fits an int, parser and stripper cut the prefix alike |
| `Advice.SignedPrefixEscapesGuard` | kbeads/internal/model/advice.go:66-90 | `g+1:rig:X` is a group to the parser but no prefix to the guard, so rig-scoped advice matches without the rig |
| `Advice.ThousandCollides` | kbeads/internal/model/advice.go:61-76 | group 1000 shares its slot with the first ungrouped label, so OR becomes AND |
| `Advice.ThousandIsGroup` | kbeads/internal/model/advice.go:64-72 | `g1000:a` is such a label |
| `Advice.NumberForms` | kbeads/internal/model/advice.go:64-72 | a group number may have blanks, a sign and trailing text around its digits, but no line break, and must fit 64 bits |
| `Advice.NoNumber` | kbeads/internal/model/advice.go:64-72 | without digits there it is no group number |
| `Advice.MatchesOnCommandLine` | kbeads/cmd/kd/advice_diff.go:117-155 | the command line's matcher is its own guard and some wholly subscribed group |
| `Advice.CliMatchesIff` | kbeads/cmd/kd/advice_diff.go:117-155 | with every project's rig subscribed, the command line delivers what the server delivers less the advice naming a project held neither as project nor as rig; the two agree on a list of labels iff that takes nothing away |
| `Advice.MatchersAgreeIff` | kbeads/cmd/kd/advice_diff.go:117-136 | for subscriptions with global, both matchers agree on all labels naming no project iff every subscribed project comes with its rig |
| `Advice.BuildCliSubscriptions` | kbeads/cmd/kd/advice_diff.go:82-100 | the subscriptions from agent, project and role |
| `Advice.CliSubscribesTo` | kbeads/cmd/kd/advice_diff.go:82-100 | exactly global, the agent, the project with its rig, and the role with its singular, as far as they are set |
| `Advice.CliSubscriptionsRigClosed` | kbeads/cmd/kd/advice_diff.go:89-92 | they always include the rig of every project, and global |
| `Advice.AgentsSeeTheSame` | kbeads/cmd/kd/advice_diff.go:82-155 | hence an agent sees the same advice on both sides when no label names a project |
| `Advice.ProjectLabelsDiffer` | kbeads/cmd/kd/advice_diff.go:118-126 | on project labels the two differ |
| `Advice.AdviceDiff` | kbeads/cmd/kd/advice_diff.go:17-52 | the loops list exactly the advice gained by the claimed bead's targeting labels |
| `Advice.ClaimAdds` | kbeads/cmd/kd/advice_diff.go:24-29 | a claim adds just the labels that, without group prefix, are global or name a project, rig, role or agent |
| `Advice.DiffIsExactlyTheGain` | kbeads/cmd/kd/advice_diff.go:42-52 | what matches after claiming is what matched before plus the diff; nothing is lost |
| `Advice.DiffOnceInOrder` | kbeads/cmd/kd/advice_diff.go:42-52 | and lists it once each, in the order given |
| `Hooks.SubscriptionsOfPath` | kbeads/internal/model/advice.go:100-118 | an id rig/role, with or without more after a slash, subscribes to exactly global, itself, its rig if any, its role, and the singular of a plural role, besides what was passed in |
| `Hooks.SubscriptionsOfName` | kbeads/internal/model/advice.go:106-116 | an id without a slash is its own rig and has no role |
| `Hooks.AgentIdNamesNoProject` | kbeads/internal/model/advice.go:100-118 | no project is subscribed, so for such agents command line and server differ exactly by labels of projects not held |
| `Hooks.FilterInPlace` | kbeads/internal/hooks/handler.go:178-184 | writing the kept items over the array being read yields the order-preserving filter |
| `Hooks.EnrichAgentSubscriptions` | kbeads/internal/hooks/handler.go:144-188 | additions appended, then exclusions filtered out |
| `Hooks.EnrichedExactly` | kbeads/internal/hooks/handler.go:171-185 | exclusions win over everything; otherwise base and additions are all there |
| `Hooks.HookApplies` | kbeads/internal/hooks/handler.go:99-114 | an advice applies iff it has a command, the trigger, and matching labels |
| `Hooks.RunHooks` | kbeads/internal/hooks/handler.go:99-137 | the loop runs the applicable hooks in order up to the first blocking failure |
| `Hooks.HandleSessionEvent` | kbeads/internal/hooks/handler.go:78-140 | runs in list order exactly the applicable hooks up to and including the first failing block hook; warnings are those of earlier failing warn hooks, in order |
| `Hooks.RanExactly` | kbeads/internal/hooks/handler.go:99-137 | a hook runs iff it applies and no earlier applicable one blocks |
| `Hooks.BlockedIff` | kbeads/internal/hooks/handler.go:120-126 | the response blocks iff some applicable hook fails with policy block |
| `Hooks.RunsExactly` | kbeads/internal/hooks/handler.go:99-137 | a hook runs iff its fields are readable, it has a command, its trigger is the event's, its labels match and no such hook before it fails with policy block |
| `Hooks.WarningsExactly` | kbeads/internal/hooks/handler.go:127-129 | one warning, with title, output and error, for each hook that ran and failed with policy warn, in order |
| `Hooks.BlockExactly` | kbeads/internal/hooks/handler.go:120-126 | the response blocks iff a hook that ran failed with policy block; it is then the last one, and the reason gives its title, command, error and output |
| `AdaptiveQuality.Monitor.AdaptiveQualityTick` | beads3d/src/vfx.js:118-156 | one frame changes all fields as `AfterTick` says |
| `AdaptiveQuality.Monitor.ApplyVfxPreset` | beads3d/src/vfx.js:172-196 | a preset changes all fields as `AfterPreset` says; an unknown one none |
| `AdaptiveQuality.EveryRunKeepsInv` | beads3d/src/vfx.js:118-196 | over every run of frames and presets: without override the settings match the tier, the counters are never both positive, and each counts frames that really were consecutive |
| `AdaptiveQuality.ReducedOnlyAfterLowRun` | beads3d/src/vfx.js:140-143 | full turns reduced only after five consecutive counted frames below 30 |
| `AdaptiveQuality.LowRunReduces` | beads3d/src/vfx.js:140-143 | and five such frames of 20 or more do it, four do not |
| `AdaptiveQuality.OverrideLasts` | beads3d/src/vfx.js:119 | no run of frames lifts a preset other than normal |
| `AdaptiveQuality.PresetsLast` | beads3d/src/vfx.js:172-196 | the settings of each preset by value, kept whatever the frame rates; normal gives the tiers back their say; unknown names do nothing |
| `AdaptiveQuality.IntensityOfRun` | beads3d/src/vfx.js:172-196 | over every run the intensity is that of the last known preset, 1 before the first |
| `AdaptiveQuality.EmergencyIff` | beads3d/src/vfx.js:133-140 | quality falls to minimal at a frame below 20 and at no other |
| `AdaptiveQuality.FullNeedsTwoRuns` | beads3d/src/vfx.js:133-155 | after an emergency, full quality without a preset takes two disjoint runs of 30 frames above 50 |
| `AdaptiveQuality.SixtyHighFramesRecover` | beads3d/src/vfx.js:144-154 | sixty such frames are enough |
| `Jack.JackBead.Up` | kbeads/cmd/kd/jack_up.go:35-76 | creation checks in order, and the fields of a new jack |
| `Jack.EnsureJackLabel` | kbeads/cmd/kd/jack_up.go:50-60 | the labels always hold one of a jack; the general one is added only when none was given |
| `Jack.JackBead.RunExtend` | kbeads/cmd/kd/jack_extend.go:23-94 | an extension is granted exactly within all limits, with the new expiry, count and total; otherwise nothing changes |
| `Jack.JackBead.RunLog` | kbeads/cmd/kd/jack_log.go:27-101 | a valid change is appended with cut fields and defaulted target, unless closed or full |
| `Jack.JackBead.RunDown` | kbeads/cmd/kd/jack_down.go:22-64 | closing fields, then status; a failure between the two leaves the first done |
| `Jack.UpExactly` | kbeads/cmd/kd/jack_up.go:35-76 | created iff reason and revert plan are given and the lifetime is at most seven days |
| `Jack.StartInv` | kbeads/cmd/kd/jack_up.go:35-76 | a new jack satisfies the run invariant with its first lifetime as the only grant |
| `Jack.RunKeepsInv` | kbeads/cmd/kd/jack_extend.go:43-85 | over every run: extensions counted and bounded, stored total equal to the sum of grants and within the larger limit, expiry that of the last grant, log bounded |
| `Jack.GrantedIff` | kbeads/cmd/kd/jack_extend.go:23-94 | after every run an extension is granted iff it is at most a day, the jack is open, fewer than five were granted and all grants stay within seven days; otherwise the first that fails is named |
| `Jack.LogOfRun` | kbeads/cmd/kd/jack_log.go:27-101 | over every run the log gains one entry, fields cut to 5120, per change of a known action that found the jack open and below 500 entries, in order |
| `Jack.ClosedIff` | kbeads/cmd/kd/jack_down.go:22-64 | a jack is closed iff it was or an accepted down went through |
| `Jack.RefusedFor` | kbeads/cmd/kd/jack_log.go:27-92 | a change or a down is refused for the first reason that applies |
| `Jack.LogAppendOnlyAndClosedFinal` | kbeads/cmd/kd/jack_log.go:50-92 | the log only grows at its end, and a closed jack gains no time, no change and is not reopened |
| `Jack.ClosedRunExact` | kbeads/cmd/kd/jack_down.go:29-64 | over every run a closed jack changes in nothing but its closing fields, which are those of the last accepted down |
| `Jack.ClosingStaysIff` | kbeads/cmd/kd/jack_down.go:29-64 | they stay as they are throughout iff every later down is refused or writes the same again |
| `Jack.InForceAtMostGranted` | kbeads/cmd/kd/jack_extend.go:81-85 | with non-negative lifetimes, total unexpired time never exceeds the total granted |
| `Jack.InForceBounded` | kbeads/cmd/kd/jack_extend.go:64-85 | so over every run it never exceeds the stored total, at most seven days |
| `Jack.ExtensionKeepsBoundIff` | kbeads/cmd/kd/jack_extend.go:31-33 | an extension is sure to keep that bound iff it is not negative |
| `Jack.NegativeExtensionBreaksBound` | kbeads/cmd/kd/jack_extend.go:64-85 | with one negative extension a jack is in force eight days on seven granted |
| `EventBus.WithoutFirstSound` | kbeads/internal/eventbus/bus.go:62-72 | removal takes out one handler of the id, if any, and keeps all others in order |
| `EventBus.Bus.Register` | kbeads/internal/eventbus/bus.go:55-59 | appends the handler, moving to a new array when full |
| `EventBus.Bus.Unregister` | kbeads/internal/eventbus/bus.go:62-72 | the first handler of the id is removed by shifting the rest down in the same array; reports whether there was one |
| `EventBus.Bus.ListHandlers` | kbeads/internal/eventbus/bus.go:197-203 | returns a fresh array with the handlers |
| `EventBus.HandedOutListStays` | kbeads/internal/eventbus/bus.go:197-203 | a list handed out earlier is unchanged by any sequence of registering and removing, also between the calls of a dispatch |
| `EventBus.MatchingExactly` | kbeads/internal/eventbus/bus.go:226-232 | the selected handlers are the matching ones, each as often as registered |
| `EventBus.SortByPriority` | kbeads/internal/eventbus/bus.go:233-236 | some priority-sorted permutation |
| `EventBus.Bus.MatchingHandlers` | kbeads/internal/eventbus/bus.go:226-237 | a priority-sorted permutation of exactly the matching handlers, in an array of its own |
| `EventBus.Bus.Apply` | kbeads/internal/eventbus/bus.go:55-72 | any sequence of registering and removing has its effect on the list, in the same array or a new one |
| `EventBus.ChangesCompose` | kbeads/internal/eventbus/bus.go:55-72 | changes to the list of handlers take effect one after the other |
| `EventBus.Bus.Dispatch` | kbeads/internal/eventbus/bus.go:78-106 | calls a prefix of a priority order of the handlers matching at its start, whatever is registered and removed between the calls, stopping only on cancellation, and returns the merged replies of those called |
| `EventBus.Bus.CallEach` | kbeads/internal/eventbus/bus.go:88-97 | the calls one after the other, with changes to the bus between them, until the context is done |
| `EventBus.UncancelledCallsAll` | kbeads/internal/eventbus/bus.go:90-98 | an uncancelled dispatch calls a sorted permutation of all of them |
| `EventBus.ChainGrows` | kbeads/internal/eventbus/external_handler.go:98-111 | along a chain block never goes back and both lists only grow at their end |
| `EventBus.ContributionStands` | kbeads/internal/eventbus/external_handler.go:98-111 | what a handler reports stands whole right after everything before it; failures and other output add nothing |
| `EventBus.ChainSplits` | kbeads/internal/eventbus/external_handler.go:98-111 | merging two halves of a chain and then the halves is merging the chain |
| `EventBus.BlockedByLast` | kbeads/internal/eventbus/external_handler.go:103-106 | blocked iff some handler blocks, with the last such handler's reason, and no reason otherwise |
| `SseClient.ConnectBusSSE` | kbeads/internal/eventbus/sse_client.go:85-129 | the line loop yields the decoded frames of the body, up to the event at which the context is done |
| `SseClient.FirstBlock` | kbeads/internal/eventbus/sse_client.go:94-127 | the lines up to a blank one make one event: last id and event trimmed, data lines joined from the first non-empty one; then everything starts afresh |
| `SseClient.StreamsConcatenate` | kbeads/internal/eventbus/sse_client.go:91-129 | reading a complete stream followed by any text is reading them one after the other |
| `SseClient.LineEndsAlike` | kbeads/internal/eventbus/sse_client.go:91-93 | a carriage return before a line feed makes no difference |
| `SseClient.IgnoredLinesAnywhere` | kbeads/internal/eventbus/sse_client.go:115-128 | comments and unknown lines may stand between any two lines |
| `SseClient.TailEmitsNothing` | kbeads/internal/eventbus/sse_client.go:94-112 | an unterminated tail emits nothing |
| `SseClient.ServerEventsArrive` | kbeads/internal/server/http_bus_sse.go:146-153 | what the server writes, events with any number of data lines and keepalives between them, is read back as exactly those events in order |
| `Mutations.LiveUpdates.OnEvent` | beads3d/src/mutations.js:101-105 | an event joins the batch and arms the timer |
| `Mutations.LiveUpdates.BatchTimerFires` | beads3d/src/mutations.js:106-121 | applies the coalesced batch in map order, empties it, and sets the refresh delay |
| `Mutations.LiveUpdates.ApplyMutationOptimistic` | beads3d/src/mutations.js:153-213 | one event: which fields of the first node of its id change, and whether that was enough |
| `Mutations.CoalescedExactly` | beads3d/src/mutations.js:110-114 | coalescing keeps the last event of each id, one per id, and all events without id |
| `Mutations.ApplyAllAt` | beads3d/src/mutations.js:153-198 | applying events affects only the first node of an id, which sees the events of its id in order |
| `Mutations.FieldsAfter` | beads3d/src/mutations.js:153-198 | after any events the first node of an id has, in each field, the value carried by the last event with a new value for it, else its old one; other nodes are as before |
| `Mutations.FieldsAfterBatch` | beads3d/src/mutations.js:109-119 | after a batch only the last event of the id counts, and fields it has no new value for are as before |
| `Mutations.FireworksExactly` | beads3d/src/mutations.js:200-204 | fireworks are prepared for exactly the beads whose last event in the batch creates them |
| `Mutations.CoalescingSoundIff` | beads3d/src/mutations.js:109-119 | coalescing is sound on every graph iff each last event sets all fields its predecessors set |
| `Mutations.StatusLostToUpdate` | beads3d/src/mutations.js:109-119 | a status change followed by a title change in one batch is lost |
| `Mutations.StatusBatchSound` | beads3d/src/mutations.js:109-121 | for status events with id and status: same graph and same refresh delay as applying each |
| `Mutations.StatusStreamSound` | beads3d/src/mutations.js:101-124 | however the timer cuts such a stream into batches, the graph ends as if there were none |

## Left out

- Transport and storage: HTTP, gRPC, NATS and JetStream, PostgreSQL, S3 and git. The store is a class
  whose calls may fail at any time; every failure it does not explain is `Unavailable`.
- Identifiers: a created id is any id not in use; a clash is one more way to fail. Stored labels are a
  set in the database and a list here.
- Field validation against type configurations, JSON encoding and decoding, and the string formats of
  times and durations: fields are typed values, times are integers, expiry is cut to whole seconds.
- Command execution, clocks and the environment are parameters: outcomes of hooks and handlers, frame
  rates, the time of each command, agent, project and role.
- Strings are sequences of characters; lengths that the source counts in bytes are counted in characters.
- Watch.NoLostChange: starts when Subscribe returns, since the first query runs before it, and assumes that a notification is sent after the change it announces.
- Watch.EventuallyUpToDate: speaks of beads changed since Subscribe that are still in the view; a bead that left the view stays in `seen`, as in the code.
- The select loop of `watchNATS` is a state machine rather than a class, because its point is which of several events comes first; polling mode is not modelled.
- Subscription.Subscriber.OnMessage: one uninterrupted call; interleavings of the callback's steps are in the state machine, not in the class.
- SseClient.ConnectBusSSE: reads a body that has arrived; connection errors and the scanner's limit of one megabyte per line are not modelled, and decoding the data is a parameter.
- EventBus.Bus.Dispatch: handlers other than external ones, which may change the result at will, and publishing to JetStream are not modelled; the changes made between two calls are a parameter.
- BeadStore.Store.CreateBead: refusals that come from the field definitions of a type are `Unavailable`, because fields are not checked against type configurations here.
- Subscription.ReceivedInCallOrder: that NATS runs the callbacks of one subscription one at a time is a property of its client library and enters as a hypothesis.
- Template.OnePassSufficesIff: is about values without opening braces; a value that holds placeholders of its own can meet a second pass in any way.
- Hooks.FilterInPlace: the array holds exactly the subscriptions; spare capacity shared with another slice is not modelled.
- Mutations.LiveUpdates.BatchTimerFires: animations started by an update are left out; random keys of events without an id are taken to differ.
- Lifecycle.BurnUndoesPour: no other client changes the store between the calls of a pour and a burn.
- Jack.JackBead.Up: the title and the optional blocking dependency are left out, and so are the comments an extension records; labels are `EnsureJackLabel`.
- ViewerGraph.FetchViaGraph: pruning by edges per node, switched off by a constant, and fields that only affect drawing are left out.
- Rendering, layout forces, particles, panels, camera and printing.
- Commands that are one request to the store, such as list, show, comment, label, close and reopen, since no promise spans several of them; and `claim`, whose check and update are separate calls and may race.
