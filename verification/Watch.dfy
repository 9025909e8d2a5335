/**
 The event-driven watch loop: change notifications, debounce timer, reconnect signal, and the
 re-query that diffs the server's answer against the `seen` map.

 `Next` describes every interleaving of the server, the network link, the NATS callback and the
 watch loop from the moment Subscribe returns. The one assumption about the outside is that a
 notification is sent after the change it announces; notifications may be lost whenever the
 link is down or the channel is full.
 */
module Watch {
  import Subscription
  import opened Places

  type Id = string
  type Time = int            // an instant, compared as Time.Equal does

  datatype Bead = Bead(id: Id, updatedAt: Time)

  // ----- diffBeads

  /** The `seen` map after one answer: the last timestamp listed for an id wins. */
  function SeenAfter(beads: seq<Bead>, seen: map<Id, Time>): map<Id, Time> {
    if beads == [] then seen
    else SeenAfter(beads[..|beads| - 1], seen)[beads[|beads| - 1].id := beads[|beads| - 1].updatedAt]
  }

  predicate IsNews(b: Bead, seen: map<Id, Time>) {
    b.id !in seen || seen[b.id] != b.updatedAt
  }

  /** The beads reported for one answer, in the order they were listed. */
  function Changed(beads: seq<Bead>, seen: map<Id, Time>): seq<Bead> {
    if beads == [] then []
    else
      var front, last := beads[..|beads| - 1], beads[|beads| - 1];
      Changed(front, seen) + (if IsNews(last, SeenAfter(front, seen)) then [last] else [])
  }

  /** The map that every query of one watch shares and updates. */
  class SeenMap {
    var entries: map<Id, Time>

    constructor ()
      ensures entries == map[]
    {
      entries := map[];
    }
  }

  method DiffBeads(beads: seq<Bead>, seen: SeenMap) returns (changed: seq<Bead>)
    modifies seen
    ensures changed == Changed(beads, old(seen.entries))
    ensures seen.entries == SeenAfter(beads, old(seen.entries))
  {
    changed := [];
    for i := 0 to |beads|
      invariant changed == Changed(beads[..i], old(seen.entries))
      invariant seen.entries == SeenAfter(beads[..i], old(seen.entries))
    {
      var b := beads[i];
      assert beads[..i + 1][..i] == beads[..i];
      if b.id !in seen.entries || b.updatedAt != seen.entries[b.id] {
        changed := changed + [b];
      }
      seen.entries := seen.entries[b.id := b.updatedAt];
    }
    assert beads[..|beads|] == beads;
  }

  ghost predicate DistinctIds(beads: seq<Bead>) {
    forall i, j :: 0 <= i < j < |beads| ==> beads[i].id != beads[j].id
  }

  ghost predicate Lists(beads: seq<Bead>, view: map<Id, Time>) {
    && DistinctIds(beads)
    && (forall b <- beads :: b.id in view && view[b.id] == b.updatedAt)
    && (forall id <- view :: Bead(id, view[id]) in beads)
  }

  lemma {:induction false} SeenAfterLookup(beads: seq<Bead>, seen: map<Id, Time>)
    requires DistinctIds(beads)
    ensures forall b <- beads :: b.id in SeenAfter(beads, seen) && SeenAfter(beads, seen)[b.id] == b.updatedAt
    ensures forall id :: (forall b <- beads :: b.id != id) ==>
              (id in SeenAfter(beads, seen) <==> id in seen) &&
              (id in seen ==> SeenAfter(beads, seen)[id] == seen[id])
    ensures forall id <- seen :: id in SeenAfter(beads, seen)
  {
    if beads != [] {
      SeenAfterLookup(beads[..|beads| - 1], seen);
    }
  }

  /** With distinct ids, exactly the beads that are new or carry another timestamp are reported. */
  lemma {:induction false} ChangedExactly(beads: seq<Bead>, seen: map<Id, Time>)
    requires DistinctIds(beads)
    ensures forall b :: b in Changed(beads, seen) <==> b in beads && IsNews(b, seen)
  {
    if beads != [] {
      var front, last := beads[..|beads| - 1], beads[|beads| - 1];
      ChangedExactly(front, seen);
      SeenAfterLookup(front, seen);
      assert IsNews(last, SeenAfter(front, seen)) <==> IsNews(last, seen);
    }
  }

  /**
   With distinct ids the answer consists of the listed beads that are new or carry another timestamp, each
   of them once, and in the order listed.
   */
  lemma {:induction false} ReportedOnceInOrder(beads: seq<Bead>, seen: map<Id, Time>) returns (places: seq<nat>)
    requires DistinctIds(beads)
    ensures Picks(Changed(beads, seen), beads, places)
    ensures forall i: nat :: i < |beads| ==>
        (i in places <==> beads[i].id !in seen || seen[beads[i].id] != beads[i].updatedAt)
  {
    if beads == [] {
      places := [];
    } else {
      var n := |beads| - 1;
      var front, last := beads[..n], beads[n];
      places := ReportedOnceInOrder(front, seen);
      SeenAfterLookup(front, seen);
      var news := IsNews(last, SeenAfter(front, seen));
      assert front + [last] == beads && Changed(front, seen) + [] == Changed(front, seen);
      hide SeenAfter;
      assert n !in places;
      places := PicksOneMore(Changed(front, seen), front, places, last, news);
    }
  }

  // ----- the system around the loop

  datatype Phase =
    | Selecting                       // blocked in the select
    | Asked                           // ListBeads sent, server has not looked yet
    | Answered(beads: seq<Bead>)      // server has answered, diff not done
    | Ended                           // watchNATS returned

  datatype State = State(
    view: map<Id, Time>,     // what ListBeads would answer now
    unpublished: nat,        // changes stored but not yet announced
    inFlight: nat,           // announcements on the wire
    linkUp: bool,
    handlerDue: bool,        // link restored, ReconnectHandler not yet run
    buffered: nat,           // messages in the 64-slot channel
    reconnectSignal: bool,   // the one-slot reconnectCh
    armed: bool,             // debounce timer running
    fired: bool,             // debounce.C holds a tick
    cancelled: bool,         // ctx is done
    phase: Phase,
    seen: map<Id, Time>,
    reported: set<Bead>,     // everything printed so far
    dirty: set<Id>,          // changed since the last time the server looked
    touched: set<Id>         // changed since Subscribe returned
  )

  datatype Action =
    | Change(view: map<Id, Time>)           // the server stores any number of edits at once
    | Publish
    | Deliver                               // the NATS callback runs
    | Disconnect
    | Restore
    | RunReconnectHandler
    | ConsumeMessage(clearTick: bool)       // Reset(200ms); newer Go also clears a stale tick
    | ConsumeSignal(clearTick: bool)        // Reset(0)
    | Expire                                // the timer ticks
    | StartQuery
    | ServerLooks(beads: seq<Bead>)
    | FinishQuery
    | QueryFails
    | CancelContext
    | Stop                                  // the select picks ctx.Done()

  /** Ids whose entry differs between two views; leaving the view counts. */
  function Differences(a: map<Id, Time>, b: map<Id, Time>): set<Id> {
    set id | id in a.Keys + b.Keys && !(id in a && id in b && a[id] == b[id])
  }

  /** Which actions can happen. */
  ghost predicate Enabled(s: State, a: Action) {
    match a
    case Change(v) => true
    case Publish => s.unpublished > 0
    case Deliver => s.linkUp && s.inFlight > 0
    case Disconnect => s.linkUp
    case Restore => !s.linkUp
    case RunReconnectHandler => s.handlerDue
    case ConsumeMessage(_) => s.phase.Selecting? && s.buffered > 0
    case ConsumeSignal(_) => s.phase.Selecting? && s.reconnectSignal
    case Expire => s.armed
    case StartQuery => s.phase.Selecting? && s.fired
    case ServerLooks(beads) => s.phase.Asked? && Lists(beads, s.view)
    case FinishQuery => s.phase.Answered?
    case QueryFails => s.phase.Asked? || s.phase.Answered?
    case CancelContext => true
    case Stop => s.phase.Selecting? && s.cancelled
  }

  ghost function Next(s: State, a: Action): State
    requires Enabled(s, a)
  {
    match a
    case Change(v) =>
      var d := Differences(s.view, v);
      s.(view := v, unpublished := s.unpublished + |d|, dirty := s.dirty + d, touched := s.touched + d)
    case Publish =>
      s.(unpublished := s.unpublished - 1, inFlight := if s.linkUp then s.inFlight + 1 else s.inFlight)
    case Deliver =>
      s.(inFlight := s.inFlight - 1,
         buffered := if s.buffered < Subscription.CAPACITY then s.buffered + 1 else s.buffered)
    case Disconnect => s.(linkUp := false, inFlight := 0)
    case Restore => s.(linkUp := true, handlerDue := true)
    case RunReconnectHandler => s.(handlerDue := false, reconnectSignal := true)
    case ConsumeMessage(clear) => s.(buffered := s.buffered - 1, armed := true, fired := s.fired && !clear)
    case ConsumeSignal(clear) => s.(reconnectSignal := false, armed := true, fired := s.fired && !clear)
    case Expire => s.(armed := false, fired := true)
    case StartQuery => s.(fired := false, phase := Asked)
    case ServerLooks(beads) => s.(phase := Answered(beads), dirty := {})
    case FinishQuery =>
      s.(phase := Selecting,
         seen := SeenAfter(s.phase.beads, s.seen),
         reported := s.reported + (set b | b in Changed(s.phase.beads, s.seen)))
    case QueryFails =>
      if s.cancelled then s.(phase := Selecting) else s.(phase := Ended)
    case CancelContext => s.(cancelled := true)
    case Stop => s.(phase := Ended)
  }

  /** The moment Subscribe returns: the first query has printed what `seen` holds. */
  ghost predicate Start(s: State) {
    && s.unpublished == 0 && s.inFlight == 0 && s.buffered == 0
    && s.linkUp && !s.handlerDue && !s.reconnectSignal && !s.armed && !s.fired && !s.cancelled
    && s.phase.Selecting?
    && s.dirty == {} && s.touched == {}
    && (forall id <- s.seen :: Bead(id, s.seen[id]) in s.reported)
  }

  ghost predicate Legal(s: State, acts: seq<Action>)
    decreases acts
  {
    acts != [] ==> Enabled(s, acts[0]) && Legal(Next(s, acts[0]), acts[1..])
  }

  ghost function Run(s: State, acts: seq<Action>): State
    requires Legal(s, acts)
    decreases acts
  {
    if acts == [] then s else Run(Next(s, acts[0]), acts[1..])
  }

  // ----- no lost change

  ghost predicate StillWatching(s: State) {
    !s.phase.Ended? && !s.cancelled
  }

  /** Something will make the loop query again. */
  ghost predicate WakeUpPending(s: State) {
    || s.unpublished > 0 || s.inFlight > 0 || s.buffered > 0
    || s.armed || s.fired || s.phase.Asked?
    || s.reconnectSignal || s.handlerDue || !s.linkUp
  }

  ghost predicate Agrees(seen: map<Id, Time>, view: map<Id, Time>, id: Id) {
    id in view ==> id in seen && seen[id] == view[id]
  }

  /** What `seen` will be once an answer already received has been worked in. */
  ghost function EventualSeen(s: State): map<Id, Time> {
    if s.phase.Answered? then SeenAfter(s.phase.beads, s.seen) else s.seen
  }

  ghost predicate Inv(s: State) {
    && (StillWatching(s) && s.dirty != {} ==> WakeUpPending(s))
    && (StillWatching(s) ==> forall id <- s.touched - s.dirty :: Agrees(EventualSeen(s), s.view, id))
    && (forall id <- s.seen :: Bead(id, s.seen[id]) in s.reported)
    && (s.phase.Answered? ==> DistinctIds(s.phase.beads))
    && s.buffered <= 64
  }

  lemma ChangeKeepsInv(s: State, view: map<Id, Time>)
    requires Inv(s)
    ensures Inv(Next(s, Change(view)))
  {
    var s' := Next(s, Change(view));
    var d := Differences(s.view, view);
    if StillWatching(s') {
      if s.dirty == {} && s'.dirty != {} {
        assert d != {};
        assert |d| > 0;
      }
      forall id | id in s'.touched - s'.dirty
        ensures Agrees(EventualSeen(s'), s'.view, id)
      {
        assert id !in d && id in s.touched - s.dirty;
      }
    }
  }

  lemma LookKeepsInv(s: State, beads: seq<Bead>)
    requires Inv(s) && Enabled(s, ServerLooks(beads))
    ensures Inv(Next(s, ServerLooks(beads)))
    ensures forall id :: Agrees(EventualSeen(Next(s, ServerLooks(beads))), s.view, id)
  {
    SeenAfterLookup(beads, s.seen);
    forall id | id in s.view
      ensures Agrees(SeenAfter(beads, s.seen), s.view, id)
    {
      assert Bead(id, s.view[id]) in beads;
    }
  }

  lemma FinishKeepsInv(s: State)
    requires Inv(s) && s.phase.Answered?
    ensures Inv(Next(s, FinishQuery))
  {
    var beads := s.phase.beads;
    var s' := Next(s, FinishQuery);
    SeenAfterLookup(beads, s.seen);
    ChangedExactly(beads, s.seen);
    forall id | id in s'.seen
      ensures Bead(id, s'.seen[id]) in s'.reported
    {
      if b :| b in beads && b.id == id {
        assert s'.seen[id] == b.updatedAt;
        assert b == Bead(id, s'.seen[id]);
        if !IsNews(b, s.seen) {
          assert Bead(id, s.seen[id]) in s.reported;
        }
      } else {
        assert forall b <- beads :: b.id != id;
      }
    }
  }

  /** Server and link: a change that has not been noticed yet stays on its way. */
  lemma NetworkKeepsInv(s: State, a: Action)
    requires Inv(s) && Enabled(s, a)
    requires a.Publish? || a.Deliver? || a.Disconnect? || a.Restore? || a.RunReconnectHandler?
    ensures Inv(Next(s, a))
  {
    assert EventualSeen(Next(s, a)) == EventualSeen(s);
    hide Agrees, DistinctIds, EventualSeen;
  }

  /** Loop and timer: each hands the wake-up on. */
  lemma WakeUpKeepsInv(s: State, a: Action)
    requires Inv(s) && Enabled(s, a)
    requires a.ConsumeMessage? || a.ConsumeSignal? || a.Expire? || a.StartQuery?
    ensures Inv(Next(s, a))
  {
    assert EventualSeen(Next(s, a)) == EventualSeen(s);
    hide Agrees, DistinctIds, EventualSeen;
  }

  /** A failed query or a done context ends the watch. */
  lemma EndKeepsInv(s: State, a: Action)
    requires Inv(s) && Enabled(s, a)
    requires a.QueryFails? || a.CancelContext? || a.Stop?
    ensures Inv(Next(s, a)) && !StillWatching(Next(s, a))
  {
    hide Agrees, DistinctIds, EventualSeen;
  }

  lemma NextKeepsInv(s: State, a: Action)
    requires Inv(s) && Enabled(s, a)
    ensures Inv(Next(s, a))
  {
    assert a.FinishQuery? ==> s.phase.Answered?;
    hide Inv, Next, Enabled;
    match a
    case Change(v) => ChangeKeepsInv(s, v);
    case ServerLooks(beads) => LookKeepsInv(s, beads);
    case FinishQuery => FinishKeepsInv(s);
    case QueryFails => EndKeepsInv(s, a);
    case CancelContext => EndKeepsInv(s, a);
    case Stop => EndKeepsInv(s, a);
    case ConsumeMessage(_) => WakeUpKeepsInv(s, a);
    case ConsumeSignal(_) => WakeUpKeepsInv(s, a);
    case Expire => WakeUpKeepsInv(s, a);
    case StartQuery => WakeUpKeepsInv(s, a);
    case Publish => NetworkKeepsInv(s, a);
    case Deliver => NetworkKeepsInv(s, a);
    case Disconnect => NetworkKeepsInv(s, a);
    case Restore => NetworkKeepsInv(s, a);
    case RunReconnectHandler => NetworkKeepsInv(s, a);
  }

  /**
   No lost change. In every state reachable after Subscribe returns, while the watch goes on: if a
   bead changed since the server last looked, a wake-up is pending or the link is down; every
   bead changed earlier is in `seen` with the server's timestamp; and all of `seen` was printed.
   */
  lemma {:induction false} NoLostChange(s: State, acts: seq<Action>)
    requires Inv(s) && Legal(s, acts)
    ensures Inv(Run(s, acts))
    decreases acts
  {
    if acts != [] {
      NextKeepsInv(s, acts[0]);
      NoLostChange(Next(s, acts[0]), acts[1..]);
    }
  }

  lemma StartHasInv(s: State)
    requires Start(s)
    ensures Inv(s)
  {
  }

  /** The watch ends only after a failed query or a cancellation. */
  lemma {:induction false} EndsOnlyWhenTold(s: State, acts: seq<Action>)
    requires Legal(s, acts) && StillWatching(s)
    requires forall a <- acts :: !a.QueryFails? && !a.CancelContext?
    ensures StillWatching(Run(s, acts))
    decreases acts
  {
    if acts != [] {
      assert acts[0] in acts && forall a <- acts[1..] :: a in acts;
      StepGoesOn(s, acts[0]);
      hide Next, Enabled, StillWatching;
      EndsOnlyWhenTold(Next(s, acts[0]), acts[1..]);
    }
  }

  lemma StepGoesOn(s: State, a: Action)
    requires Enabled(s, a) && StillWatching(s) && !a.QueryFails? && !a.CancelContext?
    ensures StillWatching(Next(s, a))
  {
  }

  // ----- quiescence

  ghost predicate Quiescent(s: State) {
    s.phase.Selecting? && !WakeUpPending(s)
  }

  lemma RestIsUpToDate(s: State)
    requires Inv(s) && Quiescent(s) && !s.cancelled
    ensures forall id <- s.touched :: id in s.view ==>
              id in s.seen && s.seen[id] == s.view[id] && Bead(id, s.view[id]) in s.reported
  {
    forall id | id in s.touched && id in s.view
      ensures id in s.seen && s.seen[id] == s.view[id] && Bead(id, s.view[id]) in s.reported
    {
      assert id in s.touched - s.dirty;
      assert Agrees(EventualSeen(s), s.view, id);
    }
  }

  /** At rest, every bead changed since Subscribe is seen and reported at its current timestamp. */
  lemma QuiescentIsUpToDate(s: State, acts: seq<Action>)
    requires Start(s) && Legal(s, acts)
    ensures var s' := Run(s, acts);
      Quiescent(s') && !s'.cancelled ==>
        forall id <- s'.touched :: id in s'.view ==>
          id in s'.seen && s'.seen[id] == s'.view[id] && Bead(id, s'.view[id]) in s'.reported
  {
    StartHasInv(s);
    NoLostChange(s, acts);
    var s' := Run(s, acts);
    if Quiescent(s') && !s'.cancelled {
      RestIsUpToDate(s');
    }
  }

  /** Steps the system takes by itself, with no new change, link event or cancellation. */
  ghost predicate Internal(a: Action) {
    !a.Change? && !a.Disconnect? && !a.Restore? && !a.QueryFails? && !a.CancelContext? && !a.Stop?
  }

  /** A bound on the internal steps that are left. */
  ghost function Rank(s: State): nat {
    8 * s.unpublished + 7 * s.inFlight + 6 * s.buffered
    + (if s.handlerDue then 7 else 0) + (if s.reconnectSignal then 6 else 0)
    + (if s.armed then 5 else 0) + (if s.fired then 3 else 0)
    + (if s.phase.Asked? then 2 else if s.phase.Answered? then 1 else 0)
  }

  lemma InternalStepsDescend(s: State, a: Action)
    requires Enabled(s, a) && Internal(a)
    ensures Rank(Next(s, a)) < Rank(s)
  {
    hide SeenAfter, Changed, Lists;
    match a
    case Publish =>
    case Deliver =>
    case RunReconnectHandler =>
    case ConsumeMessage(_) =>
    case ConsumeSignal(_) =>
    case Expire =>
    case StartQuery =>
    case ServerLooks(_) =>
    case FinishQuery =>
  }

  ghost predicate AllInternal(acts: seq<Action>) {
    forall a <- acts :: Internal(a)
  }

  /** Left alone, the system makes at most `Rank(s)` steps. */
  lemma {:induction false} SettlesInRankSteps(s: State, acts: seq<Action>)
    requires Legal(s, acts) && AllInternal(acts)
    ensures |acts| + Rank(Run(s, acts)) <= Rank(s)
    decreases acts
  {
    if acts != [] {
      assert acts[0] in acts;
      assert forall a <- acts[1..] :: a in acts;
      InternalStepsDescend(s, acts[0]);
      SettlesInRankSteps(Next(s, acts[0]), acts[1..]);
    }
  }

  /** The listing of a finite view. */
  lemma {:induction false} ListingExists(view: map<Id, Time>, ids: set<Id>) returns (beads: seq<Bead>)
    requires ids <= view.Keys
    ensures DistinctIds(beads)
    ensures forall b :: b in beads <==> b.id in ids && b.updatedAt == view[b.id]
    decreases |ids|
  {
    if ids == {} {
      beads := [];
    } else {
      var id :| id in ids;
      var rest := ListingExists(view, ids - {id});
      beads := rest + [Bead(id, view[id])];
      assert forall i | 0 <= i < |rest| :: rest[i] in rest;
    }
  }

  /** With the link up and the watch going on, the loop is never stuck short of quiescence. */
  lemma NeverStuck(s: State)
    requires s.linkUp && !s.phase.Ended? && !Quiescent(s)
    ensures exists a :: Enabled(s, a) && Internal(a)
  {
    if s.unpublished > 0 {
      assert Enabled(s, Publish) && Internal(Publish);
    } else if s.inFlight > 0 {
      assert Enabled(s, Deliver) && Internal(Deliver);
    } else if s.handlerDue {
      assert Enabled(s, RunReconnectHandler) && Internal(RunReconnectHandler);
    } else if s.armed {
      assert Enabled(s, Expire) && Internal(Expire);
    } else if s.phase.Asked? {
      var beads := ListingExists(s.view, s.view.Keys);
      assert forall id <- s.view :: Bead(id, s.view[id]).id in s.view.Keys;
      assert Enabled(s, ServerLooks(beads)) && Internal(ServerLooks(beads));
    } else if s.phase.Answered? {
      assert Enabled(s, FinishQuery) && Internal(FinishQuery);
    } else if s.buffered > 0 {
      assert Enabled(s, ConsumeMessage(false)) && Internal(ConsumeMessage(false));
    } else if s.reconnectSignal {
      assert Enabled(s, ConsumeSignal(false)) && Internal(ConsumeSignal(false));
    } else {
      assert Enabled(s, StartQuery) && Internal(StartQuery);
    }
  }

  lemma InternalKeepsRunning(s: State, a: Action)
    requires Enabled(s, a) && Internal(a) && s.linkUp && StillWatching(s)
    ensures var s' := Next(s, a);
      s'.linkUp && StillWatching(s') && s'.view == s.view && s'.touched == s.touched
  {
  }

  /**
   Eventual consistency: from any reachable state with the link up, if nothing else changes, every
   maximal run of internal steps ends at rest with all beads changed since Subscribe reported.
   */
  lemma {:induction false} EventuallyUpToDate(s: State, acts: seq<Action>)
    requires Inv(s) && s.linkUp && StillWatching(s)
    requires Legal(s, acts) && AllInternal(acts)
    requires forall a :: Internal(a) ==> !Enabled(Run(s, acts), a)
    ensures var s' := Run(s, acts);
      && Quiescent(s')
      && s'.view == s.view
      && forall id <- s.touched :: id in s.view ==>
           id in s'.seen && s'.seen[id] == s.view[id] && Bead(id, s.view[id]) in s'.reported
    decreases acts
  {
    if acts == [] {
      if !Quiescent(s) {
        NeverStuck(s);
      } else {
        RestIsUpToDate(s);
      }
    } else {
      assert acts[0] in acts;
      assert forall a <- acts[1..] :: a in acts;
      NextKeepsInv(s, acts[0]);
      InternalKeepsRunning(s, acts[0]);
      EventuallyUpToDate(Next(s, acts[0]), acts[1..]);
    }
  }

  // ----- two runs, step by step

  lemma Goes(s: State, a: Action, rest: seq<Action>)
    requires Enabled(s, a) && Legal(Next(s, a), rest)
    ensures Legal(s, [a] + rest) && Run(s, [a] + rest) == Run(Next(s, a), rest)
  {
    assert ([a] + rest)[1..] == rest;
    hide Next, Enabled;
  }

  /** From the wake-up on: the timer, the query, the answer, the diff. */
  function QueryActions(beads: seq<Bead>): seq<Action> {
    [Expire] + ([StartQuery] + ([ServerLooks(beads)] + ([FinishQuery] + [])))
  }

  /** Every listed bead is recorded at its time, and reported if it was not recorded so before. */
  ghost predicate CaughtUp(before: State, after: State, beads: seq<Bead>) {
    && after.phase.Selecting? && after.linkUp && after.dirty == {}
    && after.view == before.view && after.touched == before.touched
    && forall b <- beads ::
        && b.id in after.seen && after.seen[b.id] == b.updatedAt
        && (b.id !in before.seen || before.seen[b.id] != b.updatedAt ==> b in after.reported)
  }

  lemma ArmedQueryRuns(s: State, beads: seq<Bead>)
    requires s.armed && s.phase.Selecting? && s.linkUp && Lists(beads, s.view)
    ensures Legal(s, QueryActions(beads)) && CaughtUp(s, Run(s, QueryActions(beads)), beads)
    ensures Run(s, QueryActions(beads)).inFlight == s.inFlight && Run(s, QueryActions(beads)).buffered == s.buffered
  {
    var fired := Next(s, Expire);
    var asked := Next(fired, StartQuery);
    var answered := Next(asked, ServerLooks(beads));
    Goes(answered, FinishQuery, []);
    Goes(asked, ServerLooks(beads), [FinishQuery] + []);
    Goes(fired, StartQuery, [ServerLooks(beads)] + ([FinishQuery] + []));
    Goes(s, Expire, [StartQuery] + ([ServerLooks(beads)] + ([FinishQuery] + [])));
    SeenAfterLookup(beads, s.seen);
    ChangedExactly(beads, s.seen);
    assert Run(Next(answered, FinishQuery), []) == Next(answered, FinishQuery);
    hide Legal, Run, SeenAfter, Changed;
  }

  /** Beads were added, removed or given another time. */
  ghost predicate Edited(a: map<Id, Time>, b: map<Id, Time>, ids: set<Id>) {
    forall id :: id in ids <==> (id in a && id !in b) || (id in b && id !in a) || (id in a && id in b && a[id] != b[id])
  }

  /** An edit, its notification, the debounce timer and one query: every edited bead in the view is reported. */
  lemma EditIsReported(s: State, view: map<Id, Time>, beads: seq<Bead>, clear: bool)
    requires Start(s) && Lists(beads, view) && s.view != view
    ensures var acts := [Change(view)] + ([Publish] + ([Deliver] + ([ConsumeMessage(clear)] + QueryActions(beads))));
      && Legal(s, acts)
      && var r := Run(s, acts);
         && r.view == view && Edited(s.view, view, r.touched) && r.buffered == 0
         && CaughtUp(s.(view := view, touched := r.touched), r, beads)
  {
    DifferentViews(s.view, view);
    var edited := Next(s, Change(view));
    var sent := Next(edited, Publish);
    var delivered := Next(sent, Deliver);
    var woken := Next(delivered, ConsumeMessage(clear));
    assert edited.touched == Differences(s.view, view) == woken.touched;
    ArmedQueryRuns(woken, beads);
    hide Legal, Run, QueryActions;
    Goes(delivered, ConsumeMessage(clear), QueryActions(beads));
    Goes(sent, Deliver, [ConsumeMessage(clear)] + QueryActions(beads));
    Goes(edited, Publish, [Deliver] + ([ConsumeMessage(clear)] + QueryActions(beads)));
    Goes(s, Change(view), [Publish] + ([Deliver] + ([ConsumeMessage(clear)] + QueryActions(beads))));
  }

  /** The same edit while the link is down: its notification is lost, and the reconnect makes up for it. */
  lemma ReconnectMakesUp(s: State, view: map<Id, Time>, beads: seq<Bead>, clear: bool)
    requires Start(s) && Lists(beads, view) && s.view != view
    ensures var acts := [Disconnect] + ([Change(view)] + ([Publish] + ([Restore] + ([RunReconnectHandler]
                        + ([ConsumeSignal(clear)] + QueryActions(beads))))));
      && Legal(s, acts)
      && var r := Run(s, acts);
         && r.view == view && Edited(s.view, view, r.touched) && r.inFlight == 0 && r.buffered == 0
         && CaughtUp(s.(view := view, touched := r.touched), r, beads)
  {
    DifferentViews(s.view, view);
    var down := Next(s, Disconnect);
    var edited := Next(down, Change(view));
    var lost := Next(edited, Publish);
    var up := Next(lost, Restore);
    var signalled := Next(up, RunReconnectHandler);
    var woken := Next(signalled, ConsumeSignal(clear));
    assert edited.touched == Differences(s.view, view) == woken.touched;
    ArmedQueryRuns(woken, beads);
    hide Legal, Run, QueryActions;
    var query := QueryActions(beads);
    Goes(signalled, ConsumeSignal(clear), query);
    Goes(up, RunReconnectHandler, [ConsumeSignal(clear)] + query);
    Goes(lost, Restore, [RunReconnectHandler] + ([ConsumeSignal(clear)] + query));
    Goes(edited, Publish, [Restore] + ([RunReconnectHandler] + ([ConsumeSignal(clear)] + query)));
    Goes(down, Change(view), [Publish] + ([Restore] + ([RunReconnectHandler] + ([ConsumeSignal(clear)] + query))));
    Goes(s, Disconnect,
         [Change(view)] + ([Publish] + ([Restore] + ([RunReconnectHandler] + ([ConsumeSignal(clear)] + query)))));
  }

  lemma DifferentViews(a: map<Id, Time>, b: map<Id, Time>)
    requires a != b
    ensures |Differences(a, b)| > 0 && Edited(a, b, Differences(a, b))
  {
    if Differences(a, b) == {} {
      NoDifference(a, b);
    }
  }

  lemma NoDifference(a: map<Id, Time>, b: map<Id, Time>)
    requires Differences(a, b) == {}
    ensures a == b
  {
    forall id
      ensures id in a <==> id in b
      ensures id in a && id in b ==> a[id] == b[id]
    {
      assert id !in Differences(a, b);
    }
  }
}
