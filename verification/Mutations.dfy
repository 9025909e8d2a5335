/**
 Live updates in the viewer: mutation events are gathered for a moment, reduced to the last one per
 bead, and applied to the nodes on screen. The reduction is measured against applying every event.
 */
module Mutations {
  import opened Wrappers

  /** The fields of a node that an event can change. */
  datatype Node = Node(id: string, status: string, assignee: Option<string>, title: string)

  /** Absent ids, statuses and titles are "". An update's assignee may be absent, and null when present. */
  datatype Event =
    | Status(id: string, newStatus: string)
    | Update(id: string, newAssignee: Option<Option<string>>, newTitle: string)
    | Create(id: string)
    | Other(id: string)

  /** The data on screen, once loaded. */
  type Graph = Option<seq<Node>>

  datatype Field = StatusField | AssigneeField | TitleField

  // ----- one event

  /** The first place where `id` stands. */
  function FirstAt(ids: seq<string>, id: string): (r: Option<nat>)
    ensures r.Some? ==> r.value < |ids| && ids[r.value] == id && forall j :: 0 <= j < r.value ==> ids[j] != id
    ensures r.None? ==> forall j :: 0 <= j < |ids| ==> ids[j] != id
  {
    if ids == [] then None
    else if ids[0] == id then Some(0)
    else
      var r := FirstAt(ids[1..], id);
      if r.Some? then Some(r.value + 1) else None
  }

  function NodeIds(nodes: seq<Node>): (ids: seq<string>)
    ensures |ids| == |nodes| && forall i :: 0 <= i < |nodes| ==> ids[i] == nodes[i].id
  {
    seq(|nodes|, i requires 0 <= i < |nodes| => nodes[i].id)
  }

  function EventIds(es: seq<Event>): (ids: seq<string>)
    ensures |ids| == |es| && forall i :: 0 <= i < |es| ==> ids[i] == es[i].id
  {
    seq(|es|, i requires 0 <= i < |es| => es[i].id)
  }

  function Changed(n: Node, e: Event): Node {
    match e
    case Status(_, status) => if status != "" then n.(status := status) else n
    case Update(_, assignee, title) =>
      (var reassigned := if assignee.Some? then n.(assignee := assignee.value) else n;
       if title != "" then reassigned.(title := title) else reassigned)
    case Create(_) => n
    case Other(_) => n
  }

  /** Whether the event changes the picture at once; everything else waits for a refresh. */
  predicate Applied(g: Graph, e: Event) {
    g.Some? && e.id != "" && (e.Status? || e.Update?) && FirstAt(NodeIds(g.value), e.id).Some?
  }

  function Apply(g: Graph, e: Event): Graph {
    if !Applied(g, e) then g
    else
      var i := FirstAt(NodeIds(g.value), e.id).value;
      Some(g.value[i := Changed(g.value[i], e)])
  }

  function ApplyAll(g: Graph, es: seq<Event>): Graph {
    if es == [] then g else Apply(ApplyAll(g, es[..|es| - 1]), es[|es| - 1])
  }

  // ----- the last event per bead

  /** A map entry keeps the place of its first insertion; an event without an id gets a key of its own. */
  function Put(entries: seq<Event>, e: Event): seq<Event> {
    var slot := FirstAt(EventIds(entries), e.id);
    if e.id != "" && slot.Some? then entries[slot.value := e] else entries + [e]
  }

  function Coalesced(batch: seq<Event>): seq<Event> {
    if batch == [] then [] else Put(Coalesced(batch[..|batch| - 1]), batch[|batch| - 1])
  }

  predicate Structural(g: Graph, es: seq<Event>) {
    exists i :: 0 <= i < |es| && !Applied(g, es[i])
  }

  function Created(es: seq<Event>): set<string> {
    set e | e in es && e.Create? && e.id != "" :: e.id
  }

  class LiveUpdates {
    var graph: Graph
    var mutationBatch: seq<Event>
    var batchTimer: bool
    var pendingFireworks: set<string>
    var refreshDelay: Option<nat>

    constructor (graph: Graph)
      ensures this.graph == graph && mutationBatch == [] && !batchTimer && pendingFireworks == {}
          && refreshDelay == None
    {
      this.graph, mutationBatch, batchTimer, pendingFireworks, refreshDelay := graph, [], false, {}, None;
    }

    method OnEvent(evt: Event)
      modifies this
      ensures mutationBatch == old(mutationBatch) + [evt] && batchTimer
      ensures graph == old(graph) && pendingFireworks == old(pendingFireworks) && refreshDelay == old(refreshDelay)
    {
      mutationBatch := mutationBatch + [evt];
      if !batchTimer {
        batchTimer := true;
      }
    }

    /** The batch window is over. */
    method BatchTimerFires()
      modifies this
      ensures graph == ApplyAll(old(graph), Coalesced(old(mutationBatch)))
      ensures mutationBatch == [] && !batchTimer
      ensures refreshDelay == Some(if Structural(old(graph), Coalesced(old(mutationBatch))) then 3000 else 10000)
      ensures pendingFireworks == old(pendingFireworks) +
                                  if old(graph).Some? then Created(Coalesced(old(mutationBatch))) else {}
    {
      var batch := mutationBatch;
      mutationBatch, batchTimer := [], false;
      var byId: seq<Event> := [];
      for i := 0 to |batch|
        invariant byId == Coalesced(batch[..i])
        invariant graph == old(graph) && mutationBatch == [] && !batchTimer && pendingFireworks == old(pendingFireworks)
      {
        assert batch[..i + 1][..i] == batch[..i];
        byId := Put(byId, batch[i]);
      }
      assert batch[..|batch|] == batch;
      var anyStructural := ApplyEach(byId);
      refreshDelay := Some(if anyStructural then 3000 else 10000);
    }

    method ApplyEach(byId: seq<Event>) returns (anyStructural: bool)
      modifies this`graph, this`pendingFireworks
      ensures graph == ApplyAll(old(graph), byId)
      ensures anyStructural == Structural(old(graph), byId)
      ensures pendingFireworks == old(pendingFireworks) + if old(graph).Some? then Created(byId) else {}
    {
      anyStructural := false;
      for i := 0 to |byId|
        invariant graph == ApplyAll(old(graph), byId[..i])
        invariant anyStructural == Structural(old(graph), byId[..i])
        invariant pendingFireworks == old(pendingFireworks) + if old(graph).Some? then Created(byId[..i]) else {}
      {
        assert byId[..i + 1] == byId[..i] + [byId[i]];
        ApplyAllKeepsIds(old(graph), byId[..i]);
        SameIdsSameApplied(old(graph), graph, byId[i]);
        StructuralSnoc(old(graph), byId[..i], byId[i]);
        CreatedSnoc(byId[..i], byId[i]);
        ApplyAllSnoc(old(graph), byId[..i], byId[i]);
        var applied := ApplyMutationOptimistic(byId[i]);
        if !applied {
          anyStructural := true;
        }
      }
      assert byId[..|byId|] == byId;
    }

    method ApplyMutationOptimistic(evt: Event) returns (applied: bool)
      modifies this`graph, this`pendingFireworks
      ensures graph == Apply(old(graph), evt) && applied == Applied(old(graph), evt)
      ensures pendingFireworks == old(pendingFireworks) + if old(graph).Some? then Created([evt]) else {}
    {
      if graph.None? || evt.id == "" {
        return false;
      }
      var nodes, found := graph.value, FirstAt(NodeIds(graph.value), evt.id);
      match evt
      case Status(id, newStatus) =>
        if found.None? {
          return false;
        }
        var node := nodes[found.value];
        graph := Some(nodes[found.value := node.(status := if newStatus != "" then newStatus else node.status)]);
        return true;
      case Update(id, newAssignee, newTitle) =>
        if found.None? {
          return false;
        }
        var node := nodes[found.value];
        if newAssignee.Some? {
          node := node.(assignee := newAssignee.value);
        }
        if newTitle != "" {
          node := node.(title := newTitle);
        }
        graph := Some(nodes[found.value := node]);
        return true;
      case Create(id) =>
        pendingFireworks := pendingFireworks + {id};
        return false;
      case Other(_) =>
        return false;
    }
  }

  lemma ApplyAllSnoc(g: Graph, es: seq<Event>, e: Event)
    ensures ApplyAll(g, es + [e]) == Apply(ApplyAll(g, es), e)
  {
    assert (es + [e])[..|es|] == es;
  }

  lemma StructuralSnoc(g: Graph, es: seq<Event>, e: Event)
    ensures Structural(g, es + [e]) <==> Structural(g, es) || !Applied(g, e)
  {
    hide Applied;
    assert (es + [e])[|es|] == e;
    if i :| 0 <= i < |es| && !Applied(g, es[i]) {
      assert (es + [e])[i] == es[i];
    }
  }

  lemma CreatedSnoc(es: seq<Event>, e: Event)
    ensures Created(es + [e]) == Created(es) + Created([e])
  {
  }

  // ----- ids never change

  predicate SameIds(g: Graph, h: Graph) {
    if g.None? then h.None? else h.Some? && NodeIds(g.value) == NodeIds(h.value)
  }

  lemma ApplyKeepsIds(g: Graph, e: Event)
    ensures SameIds(g, Apply(g, e))
  {
    if Applied(g, e) {
      assert NodeIds(Apply(g, e).value) == NodeIds(g.value);
    }
  }

  lemma {:induction false} ApplyAllKeepsIds(g: Graph, es: seq<Event>)
    ensures SameIds(g, ApplyAll(g, es))
  {
    if es != [] {
      ApplyAllKeepsIds(g, es[..|es| - 1]);
      ApplyKeepsIds(ApplyAll(g, es[..|es| - 1]), es[|es| - 1]);
    }
  }

  lemma SameIdsSameApplied(g: Graph, h: Graph, e: Event)
    requires SameIds(g, h)
    ensures Applied(g, e) == Applied(h, e)
  {
    if g.Some? {
      assert FirstAt(NodeIds(g.value), e.id) == FirstAt(NodeIds(h.value), e.id);
    }
  }

  // ----- what a list of events does to one node

  function Folded(n: Node, es: seq<Event>): (r: Node)
    ensures r.id == n.id
  {
    if es == [] then n
    else
      var r := Folded(n, es[..|es| - 1]);
      var e := es[|es| - 1];
      if e.id != "" && e.id == n.id then Changed(r, e) else r
  }

  /** Only the first node of an id takes part; each such node sees the events of its id, in order. */
  lemma {:induction false} ApplyAllAt(g: Graph, es: seq<Event>, i: nat)
    requires g.Some? && i < |g.value|
    ensures SameIds(g, ApplyAll(g, es))
    ensures ApplyAll(g, es).value[i] ==
        if FirstAt(NodeIds(g.value), g.value[i].id) == Some(i) then Folded(g.value[i], es) else g.value[i]
  {
    ApplyAllKeepsIds(g, es);
    if es != [] {
      var n := |es| - 1;
      ApplyAllAt(g, es[..n], i);
      ApplyAllKeepsIds(g, es[..n]);
    }
  }

  /** The events of one id, reduced to the last. */
  function LastOf(es: seq<Event>, id: string): (r: Option<Event>)
    ensures r.Some? ==> r.value in es && r.value.id == id
    ensures r.None? ==> forall i :: 0 <= i < |es| ==> es[i].id != id
  {
    if es == [] then None
    else if es[|es| - 1].id == id then Some(es[|es| - 1])
    else LastOf(es[..|es| - 1], id)
  }

  predicate OnePerId(es: seq<Event>) {
    forall i, j :: 0 <= i < j < |es| && es[i].id != "" ==> es[i].id != es[j].id
  }

  /** Coalescing keeps one event per id, the last, and every event without an id. */
  lemma {:induction false} CoalescedExactly(batch: seq<Event>)
    ensures OnePerId(Coalesced(batch))
    ensures forall id :: id != "" ==> LastOf(Coalesced(batch), id) == LastOf(batch, id)
    ensures multiset(WithoutId(Coalesced(batch))) == multiset(WithoutId(batch))
  {
    if batch != [] {
      var front, e := batch[..|batch| - 1], batch[|batch| - 1];
      CoalescedExactly(front);
      PutKeepsOne(Coalesced(front), e);
      forall id | id != "" ensures LastOf(Coalesced(batch), id) == LastOf(batch, id) {
        PutIsLast(Coalesced(front), e, id);
      }
      PutKeepsOthers(Coalesced(front), e);
    }
  }

  function WithoutId(es: seq<Event>): seq<Event> {
    if es == [] then []
    else WithoutId(es[..|es| - 1]) + (if es[|es| - 1].id == "" then [es[|es| - 1]] else [])
  }

  lemma PutKeepsOne(entries: seq<Event>, e: Event)
    requires OnePerId(entries)
    ensures OnePerId(Put(entries, e))
  {
  }

  lemma PutIsLast(entries: seq<Event>, e: Event, id: string)
    requires OnePerId(entries) && id != ""
    ensures LastOf(Put(entries, e), id) == if e.id == id then Some(e) else LastOf(entries, id)
  {
    PutKeepsOne(entries, e);
    var put := Put(entries, e);
    if e.id == "" || FirstAt(EventIds(entries), e.id).None? {
      assert put[..|put| - 1] == entries;
    } else {
      var k := FirstAt(EventIds(entries), e.id).value;
      if e.id == id {
        TheOneIsLast(put, k);
      } else {
        var last := LastOf(entries, id);
        if last.Some? {
          var j :| 0 <= j < |entries| && entries[j] == last.value;
          TheOneIsLast(put, j);
        } else {
          assert forall i :: 0 <= i < |put| ==> put[i].id != id;
        }
      }
    }
  }

  lemma {:induction false} TheOneIsLast(es: seq<Event>, i: nat)
    requires OnePerId(es) && i < |es| && es[i].id != ""
    ensures LastOf(es, es[i].id) == Some(es[i])
  {
    if i < |es| - 1 {
      TheOneIsLast(es[..|es| - 1], i);
    }
  }

  lemma PutKeepsOthers(entries: seq<Event>, e: Event)
    ensures WithoutId(Put(entries, e)) == WithoutId(entries) + if e.id == "" then [e] else []
  {
    var put := Put(entries, e);
    if e.id == "" || FirstAt(EventIds(entries), e.id).None? {
      assert put[..|put| - 1] == entries;
    } else {
      ReplaceNamed(entries, FirstAt(EventIds(entries), e.id).value, e);
    }
  }

  lemma {:induction false} ReplaceNamed(es: seq<Event>, k: nat, e: Event)
    requires k < |es| && es[k].id != "" && e.id != ""
    ensures WithoutId(es[k := e]) == WithoutId(es)
  {
    var n := |es| - 1;
    if k < n {
      ReplaceNamed(es[..n], k, e);
      assert es[k := e][..n] == es[..n][k := e];
    } else {
      assert es[k := e][..n] == es[..n];
    }
  }

  // ----- when coalescing changes nothing

  predicate Sets(e: Event, f: Field) {
    match f
    case StatusField => e.Status? && e.newStatus != ""
    case AssigneeField => e.Update? && e.newAssignee.Some?
    case TitleField => e.Update? && e.newTitle != ""
  }

  /** For every bead, the last event sets each field that any of its events sets. */
  predicate LastSetsAll(batch: seq<Event>) {
    forall i, f :: 0 <= i < |batch| && batch[i].id != "" && Sets(batch[i], f) ==>
        Sets(LastOf(batch, batch[i].id).value, f)
  }

  datatype Value = Text(text: string) | Who(who: Option<string>)

  function Get(n: Node, f: Field): Value {
    match f
    case StatusField => Text(n.status)
    case AssigneeField => Who(n.assignee)
    case TitleField => Text(n.title)
  }

  predicate Touches(es: seq<Event>, id: string, f: Field) {
    exists i :: 0 <= i < |es| && es[i].id == id && Sets(es[i], f)
  }

  lemma SameFieldsSameNode(n: Node, m: Node)
    requires n.id == m.id && forall f :: Get(n, f) == Get(m, f)
    ensures n == m
  {
    assert Get(n, StatusField) == Get(m, StatusField) && Get(n, AssigneeField) == Get(m, AssigneeField);
    assert Get(n, TitleField) == Get(m, TitleField);
  }

  lemma {:induction false} UntouchedStays(n: Node, es: seq<Event>, f: Field)
    requires !Touches(es, n.id, f)
    ensures Get(Folded(n, es), f) == Get(n, f)
  {
    if es != [] {
      var front := es[..|es| - 1];
      assert forall i :: 0 <= i < |front| ==> front[i] == es[i];
      UntouchedStays(n, front, f);
    }
  }

  /** A field some event sets ends up the same whatever it was before. */
  lemma {:induction false} TouchedForgets(n: Node, m: Node, es: seq<Event>, f: Field)
    requires n.id == m.id && n.id != "" && Touches(es, n.id, f)
    ensures Get(Folded(n, es), f) == Get(Folded(m, es), f)
  {
    var front, e := es[..|es| - 1], es[|es| - 1];
    if !(e.id == n.id && Sets(e, f)) {
      var i :| 0 <= i < |es| && es[i].id == n.id && Sets(es[i], f);
      assert front[i] == es[i];
      TouchedForgets(n, m, front, f);
    }
  }

  lemma {:induction false} LastDecides(n: Node, es: seq<Event>, f: Field)
    requires n.id != "" && LastOf(es, n.id).Some? && Sets(LastOf(es, n.id).value, f)
    ensures Get(Folded(n, es), f) == Get(Changed(n, LastOf(es, n.id).value), f)
  {
    if es[|es| - 1].id != n.id {
      LastDecides(n, es[..|es| - 1], f);
    }
  }

  lemma {:induction false} OneEventFolds(n: Node, es: seq<Event>)
    requires OnePerId(es)
    ensures Folded(n, es) == if n.id != "" && LastOf(es, n.id).Some? then Changed(n, LastOf(es, n.id).value) else n
  {
    if es != [] {
      var front, e := es[..|es| - 1], es[|es| - 1];
      OneEventFolds(n, front);
      if e.id == n.id && n.id != "" {
        assert forall i :: 0 <= i < |front| ==> front[i].id != n.id;
      }
    }
  }

  lemma CoalescedFolds(n: Node, batch: seq<Event>)
    requires n.id != ""
    ensures Folded(n, Coalesced(batch)) ==
        if LastOf(batch, n.id).Some? then Changed(n, LastOf(batch, n.id).value) else n
  {
    CoalescedExactly(batch);
    OneEventFolds(n, Coalesced(batch));
  }

  lemma {:induction false} NamelessUntouched(n: Node, es: seq<Event>)
    requires n.id == ""
    ensures Folded(n, es) == n
  {
    if es != [] {
      NamelessUntouched(n, es[..|es| - 1]);
    }
  }

  lemma NodeKept(n: Node, batch: seq<Event>)
    requires LastSetsAll(batch)
    ensures Folded(n, Coalesced(batch)) == Folded(n, batch)
  {
    if n.id == "" {
      NamelessUntouched(n, batch);
      NamelessUntouched(n, Coalesced(batch));
    } else {
      CoalescedFolds(n, batch);
      forall f ensures Get(Folded(n, Coalesced(batch)), f) == Get(Folded(n, batch), f) {
        FieldKept(n, batch, f);
      }
      SameFieldsSameNode(Folded(n, Coalesced(batch)), Folded(n, batch));
    }
  }

  lemma FieldKept(n: Node, batch: seq<Event>, f: Field)
    requires LastSetsAll(batch) && n.id != ""
    ensures Get(Folded(n, Coalesced(batch)), f) == Get(Folded(n, batch), f)
  {
    CoalescedFolds(n, batch);
    var last := LastOf(batch, n.id);
    if last.Some? && Sets(last.value, f) {
      LastDecides(n, batch, f);
    } else {
      assert !Touches(batch, n.id, f);
      UntouchedStays(n, batch, f);
    }
  }

  lemma GraphKept(g: Graph, batch: seq<Event>)
    requires LastSetsAll(batch)
    ensures ApplyAll(g, Coalesced(batch)) == ApplyAll(g, batch)
  {
    ApplyAllKeepsIds(g, batch);
    ApplyAllKeepsIds(g, Coalesced(batch));
    if g.Some? {
      var reduced, full := ApplyAll(g, Coalesced(batch)).value, ApplyAll(g, batch).value;
      forall i | 0 <= i < |g.value| ensures reduced[i] == full[i] {
        ApplyAllAt(g, batch, i);
        ApplyAllAt(g, Coalesced(batch), i);
        NodeKept(g.value[i], batch);
      }
      assert reduced == full;
    }
  }

  /** A node of that id whose field differs from `v`. */
  function Unlike(id: string, f: Field, v: Value): (n: Node)
    ensures n.id == id && Get(n, f) != v
  {
    var other := if v == Text("") then "other" else "";
    Node(id, other, if v == Who(None) then Some("") else None, other)
  }

  lemma FieldLost(batch: seq<Event>) returns (g: Graph)
    requires !LastSetsAll(batch)
    ensures ApplyAll(g, Coalesced(batch)) != ApplyAll(g, batch)
  {
    var i, f :| 0 <= i < |batch| && batch[i].id != "" && Sets(batch[i], f)
        && !Sets(LastOf(batch, batch[i].id).value, f);
    var blank := Node(batch[i].id, "", None, "");
    var n := Unlike(batch[i].id, f, Get(Folded(blank, batch), f));
    g := Some([n]);
    assert Touches(batch, n.id, f);
    TouchedForgets(n, blank, batch, f);
    NotSetStays(n, batch, f);
    LoneNode(n, batch);
    LoneNode(n, Coalesced(batch));
    hide ApplyAll, Coalesced, Folded, LastOf, LastSetsAll, Touches, Sets;
  }

  lemma NotSetStays(n: Node, batch: seq<Event>, f: Field)
    requires n.id != "" && LastOf(batch, n.id).Some? && !Sets(LastOf(batch, n.id).value, f)
    ensures Get(Folded(n, Coalesced(batch)), f) == Get(n, f)
  {
    CoalescedFolds(n, batch);
    hide Folded, Coalesced, LastOf;
  }

  lemma LoneNode(n: Node, es: seq<Event>)
    ensures ApplyAll(Some([n]), es) == Some([Folded(n, es)])
  {
    var g: Graph := Some([n]);
    ApplyAllAt(g, es, 0);
    assert FirstAt(NodeIds(g.value), n.id) == Some(0);
    var r := ApplyAll(g, es).value;
    assert |r| == |NodeIds(r)| == |NodeIds(g.value)| == 1;
    assert r == [r[0]];
  }

  /**
   Applying only the last event of each bead is the same as applying all of them, on every graph, iff
   each last event sets all the fields that the events it replaces set.
   */
  lemma CoalescingSoundIff(batch: seq<Event>)
    ensures LastSetsAll(batch) <==> forall g: Graph :: ApplyAll(g, Coalesced(batch)) == ApplyAll(g, batch)
  {
    if LastSetsAll(batch) {
      forall g: Graph ensures ApplyAll(g, Coalesced(batch)) == ApplyAll(g, batch) {
        GraphKept(g, batch);
      }
    } else {
      var g := FieldLost(batch);
    }
  }

  /** A status change followed in the same batch by a change of title is lost. */
  lemma StatusLostToUpdate()
    ensures var batch := [Status("kd-1", "closed"), Update("kd-1", None, "New title")];
      exists g: Graph :: ApplyAll(g, Coalesced(batch)) != ApplyAll(g, batch)
  {
    var batch := [Status("kd-1", "closed"), Update("kd-1", None, "New title")];
    assert batch[0].id == "kd-1" && Sets(batch[0], StatusField);
    assert LastOf(batch, "kd-1") == Some(batch[1]);
    CoalescingSoundIff(batch);
  }

  // ----- the values fields end up with

  /** The `k`-th event is the last one for that id that sets the field. */
  ghost predicate LastSetter(es: seq<Event>, id: string, f: Field, k: int) {
    && 0 <= k < |es| && es[k].id == id && Sets(es[k], f)
    && forall j :: k < j < |es| && es[j].id == id ==> !Sets(es[j], f)
  }

  lemma SetterCarries(n: Node, e: Event, f: Field)
    ensures Sets(e, f) ==> Get(Changed(n, e), f) == match f
      case StatusField => Text(e.newStatus)
      case AssigneeField => Who(e.newAssignee.value)
      case TitleField => Text(e.newTitle)
    ensures !Sets(e, f) ==> Get(Changed(n, e), f) == Get(n, f)
  {
  }

  lemma {:induction false} LastSetterDecides(n: Node, es: seq<Event>, f: Field, k: int)
    requires n.id != "" && LastSetter(es, n.id, f, k)
    ensures Get(Folded(n, es), f) == match f
      case StatusField => Text(es[k].newStatus)
      case AssigneeField => Who(es[k].newAssignee.value)
      case TitleField => Text(es[k].newTitle)
  {
    var front, e := es[..|es| - 1], es[|es| - 1];
    SetterCarries(Folded(n, front), e, f);
    hide Changed, Get;
    if k < |es| - 1 {
      assert LastSetter(front, n.id, f, k);
      LastSetterDecides(n, front, f, k);
    }
  }

  /**
   After any events the first node of an id has, in each field, what the last event of that id with a new
   value for it carries: its status, its assignee, who may be nobody, or its title. A field for which none
   has one is as before; so is every other node.
   */
  lemma FieldsAfter(g: Graph, es: seq<Event>, i: nat)
    requires g.Some? && i < |g.value| && g.value[i].id != ""
    ensures ApplyAll(g, es).Some? && |ApplyAll(g, es).value| == |g.value|
    ensures var n, r := g.value[i], ApplyAll(g, es).value[i];
      if exists j :: 0 <= j < i && g.value[j].id == n.id then r == n
      else
        && r.id == n.id
        && (forall k :: LastSetter(es, n.id, StatusField, k) ==> r.status == es[k].newStatus)
        && (forall k :: LastSetter(es, n.id, AssigneeField, k) ==> r.assignee == es[k].newAssignee.value)
        && (forall k :: LastSetter(es, n.id, TitleField, k) ==> r.title == es[k].newTitle)
        && ((forall e <- es :: e.id == n.id && e.Status? ==> e.newStatus == "") ==> r.status == n.status)
        && ((forall e <- es :: e.id == n.id && e.Update? ==> e.newAssignee.None?) ==> r.assignee == n.assignee)
        && ((forall e <- es :: e.id == n.id && e.Update? ==> e.newTitle == "") ==> r.title == n.title)
  {
    var n := g.value[i];
    ApplyAllAt(g, es, i);
    FirstOfItsId(NodeIds(g.value), i);
    var r := Folded(n, es);
    forall f, k | LastSetter(es, n.id, f, k)
      ensures Get(r, f) == match f
        case StatusField => Text(es[k].newStatus)
        case AssigneeField => Who(es[k].newAssignee.value)
        case TitleField => Text(es[k].newTitle)
    {
      LastSetterDecides(n, es, f, k);
    }
    forall f | !Touches(es, n.id, f)
      ensures Get(r, f) == Get(n, f)
    {
      UntouchedStays(n, es, f);
    }
    assert forall e <- es :: exists i :: 0 <= i < |es| && es[i] == e;
    hide Folded, ApplyAll, LastSetter;
    assert Get(r, StatusField) == Text(r.status) && Get(r, AssigneeField) == Who(r.assignee);
    assert Get(r, TitleField) == Text(r.title);
  }

  lemma FirstOfItsId(ids: seq<string>, i: nat)
    requires i < |ids|
    ensures FirstAt(ids, ids[i]) == Some(i) <==> forall j :: 0 <= j < i ==> ids[j] != ids[i]
  {
  }

  /**
   After a batch, likewise, but only the last event of the id counts, whatever field it sets: the fields
   it carries no new value for are as before the batch.
   */
  lemma FieldsAfterBatch(g: Graph, batch: seq<Event>, i: nat)
    requires g.Some? && i < |g.value| && g.value[i].id != ""
    requires forall j :: 0 <= j < i ==> g.value[j].id != g.value[i].id
    ensures ApplyAll(g, Coalesced(batch)).Some? && |ApplyAll(g, Coalesced(batch)).value| == |g.value|
    ensures var n, r := g.value[i], ApplyAll(g, Coalesced(batch)).value[i];
      && r.id == n.id
      && ((forall e <- batch :: e.id != n.id) ==> r == n)
      && forall k | 0 <= k < |batch| && batch[k].id == n.id && forall j :: k < j < |batch| ==> batch[j].id != n.id ::
          && r.status == (if batch[k].Status? && batch[k].newStatus != "" then batch[k].newStatus else n.status)
          && r.assignee == (if batch[k].Update? && batch[k].newAssignee.Some? then batch[k].newAssignee.value
                            else n.assignee)
          && r.title == (if batch[k].Update? && batch[k].newTitle != "" then batch[k].newTitle else n.title)
  {
    var n := g.value[i];
    ApplyAllAt(g, Coalesced(batch), i);
    FirstOfItsId(NodeIds(g.value), i);
    CoalescedFolds(n, batch);
    var last := LastOf(batch, n.id);
    forall k | 0 <= k < |batch| && batch[k].id == n.id && forall j :: k < j < |batch| ==> batch[j].id != n.id
      ensures last == Some(batch[k])
    {
      LastIsAt(batch, k);
    }
    hide Folded, Coalesced, ApplyAll, LastOf;
  }

  /** Fireworks are prepared for just the beads whose last event in the batch creates them. */
  lemma FireworksExactly(batch: seq<Event>, id: string)
    ensures id in Created(Coalesced(batch)) <==>
      id != "" && exists k :: 0 <= k < |batch| && batch[k].id == id && batch[k].Create?
                                && forall j :: k < j < |batch| ==> batch[j].id != id
  {
    if id != "" {
      CoalescedExactly(batch);
      var last := LastOf(batch, id);
      forall k | 0 <= k < |batch| && batch[k].id == id && forall j :: k < j < |batch| ==> batch[j].id != id
        ensures last == Some(batch[k])
      {
        LastIsAt(batch, k);
      }
      if last.Some? {
        var k := LastPlace(batch, id);
      }
      forall e | e in Coalesced(batch) && e.id == id
        ensures last == Some(e)
      {
        var i :| 0 <= i < |Coalesced(batch)| && Coalesced(batch)[i] == e;
        TheOneIsLast(Coalesced(batch), i);
      }
      hide Coalesced, LastOf;
    }
  }

  lemma {:induction false} LastPlace(es: seq<Event>, id: string) returns (k: nat)
    requires LastOf(es, id).Some?
    ensures k < |es| && es[k] == LastOf(es, id).value && es[k].id == id && forall j :: k < j < |es| ==> es[j].id != id
  {
    if es[|es| - 1].id == id {
      k := |es| - 1;
    } else {
      k := LastPlace(es[..|es| - 1], id);
    }
  }

  lemma {:induction false} LastIsAt(es: seq<Event>, k: nat)
    requires k < |es| && forall j :: k < j < |es| ==> es[j].id != es[k].id
    ensures LastOf(es, es[k].id) == Some(es[k])
  {
    if k < |es| - 1 {
      LastIsAt(es[..|es| - 1], k);
    }
  }

  // ----- status streams

  predicate StatusStream(es: seq<Event>) {
    forall i :: 0 <= i < |es| ==> es[i].Status? && es[i].id != "" && es[i].newStatus != ""
  }

  lemma StatusesSetAll(batch: seq<Event>)
    requires StatusStream(batch)
    ensures LastSetsAll(batch)
  {
    forall i, f | 0 <= i < |batch| && batch[i].id != "" && Sets(batch[i], f)
      ensures Sets(LastOf(batch, batch[i].id).value, f)
    {
      var last := LastOf(batch, batch[i].id).value;
      assert exists j :: 0 <= j < |batch| && batch[j] == last;
    }
  }

  /** A batch of status events leaves the graph, and the urgency of the next refresh, as if each had been applied. */
  lemma StatusBatchSound(g: Graph, batch: seq<Event>)
    requires StatusStream(batch)
    ensures ApplyAll(g, Coalesced(batch)) == ApplyAll(g, batch)
    ensures Structural(g, Coalesced(batch)) == Structural(g, batch)
  {
    StatusesSetAll(batch);
    GraphKept(g, batch);
    CoalescedExactly(batch);
    var reduced := Coalesced(batch);
    if i :| 0 <= i < |batch| && !Applied(g, batch[i]) {
      var last := LastOf(reduced, batch[i].id).value;
      var j :| 0 <= j < |reduced| && reduced[j] == last;
      assert !Applied(g, reduced[j]);
    }
    if j :| 0 <= j < |reduced| && !Applied(g, reduced[j]) {
      CoalescedFrom(batch, j);
    }
  }

  lemma {:induction false} CoalescedFrom(batch: seq<Event>, j: nat)
    requires j < |Coalesced(batch)|
    ensures Coalesced(batch)[j] in batch
  {
    var front, e := batch[..|batch| - 1], batch[|batch| - 1];
    if j < |Coalesced(front)| {
      CoalescedFrom(front, j);
    }
  }

  function AppliedInBatches(g: Graph, batches: seq<seq<Event>>): Graph {
    if batches == [] then g
    else ApplyAll(AppliedInBatches(g, batches[..|batches| - 1]), Coalesced(batches[|batches| - 1]))
  }

  function Stream(batches: seq<seq<Event>>): seq<Event> {
    if batches == [] then [] else Stream(batches[..|batches| - 1]) + batches[|batches| - 1]
  }

  lemma {:induction false} ApplyAllConcat(g: Graph, a: seq<Event>, b: seq<Event>)
    ensures ApplyAll(g, a + b) == ApplyAll(ApplyAll(g, a), b)
  {
    if b == [] {
      assert a + b == a;
    } else {
      ApplyAllConcat(g, a, b[..|b| - 1]);
      assert (a + b)[..|a + b| - 1] == a + b[..|b| - 1];
    }
  }

  /** However the timer cuts a stream of status events into batches, the graph ends as if there were no batches. */
  lemma {:induction false} StatusStreamSound(g: Graph, batches: seq<seq<Event>>)
    requires StatusStream(Stream(batches))
    ensures AppliedInBatches(g, batches) == ApplyAll(g, Stream(batches))
  {
    if batches != [] {
      var front, batch := batches[..|batches| - 1], batches[|batches| - 1];
      assert forall i :: 0 <= i < |Stream(front)| ==> Stream(batches)[i] == Stream(front)[i];
      assert forall i :: 0 <= i < |batch| ==> Stream(batches)[|Stream(front)| + i] == batch[i];
      StatusStreamSound(g, front);
      StatusBatchSound(AppliedInBatches(g, front), batch);
      ApplyAllConcat(g, Stream(front), batch);
    }
  }
}
