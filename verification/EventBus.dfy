/**
 The event bus: registering handlers in a shared slice, removing them in place, and dispatching an
 event to the matching ones in priority order.

 A slice is an array with a length, as in Go: appending writes past the length when there is room
 and moves to a new array when there is not.
 */
module EventBus {
  import opened Wrappers

  datatype Handler = Handler(id: string, events: seq<string>, priority: int)

  datatype BusResult = BusResult(block: bool, reason: string, inject: seq<string>, warnings: seq<string>)

  /** What running an external handler's command comes to. */
  datatype Reply = Failed | NoResult | Output(result: BusResult)

  const EMPTY := BusResult(false, "", [], [])

  // ----- the handler slice

  /** The handlers without the first one called `id`. */
  function WithoutFirst(hs: seq<Handler>, id: string): seq<Handler> {
    if hs == [] then []
    else if hs[0].id == id then hs[1..]
    else [hs[0]] + WithoutFirst(hs[1..], id)
  }

  predicate Registered(hs: seq<Handler>, id: string) {
    exists h <- hs :: h.id == id
  }

  lemma {:induction false} WithoutFirstAt(hs: seq<Handler>, id: string, i: nat)
    requires i < |hs| && hs[i].id == id && forall k :: 0 <= k < i ==> hs[k].id != id
    ensures WithoutFirst(hs, id) == hs[..i] + hs[i + 1..]
  {
    if i > 0 {
      WithoutFirstAt(hs[1..], id, i - 1);
      assert hs[..i] + hs[i + 1..] == [hs[0]] + (hs[1..][..i - 1] + hs[1..][i..]);
    }
  }

  lemma {:induction false} WithoutFirstAbsent(hs: seq<Handler>, id: string)
    requires forall k :: 0 <= k < |hs| ==> hs[k].id != id
    ensures WithoutFirst(hs, id) == hs
  {
    if hs != [] {
      WithoutFirstAbsent(hs[1..], id);
    }
  }

  function OthersInOrder(hs: seq<Handler>, id: string): seq<Handler> {
    if hs == [] then [] else (if hs[0].id == id then [] else [hs[0]]) + OthersInOrder(hs[1..], id)
  }

  /** Removal takes out one handler of that id, if there is one, and leaves all others in their order. */
  lemma {:induction false} WithoutFirstSound(hs: seq<Handler>, id: string)
    ensures |WithoutFirst(hs, id)| == |hs| - if Registered(hs, id) then 1 else 0
    ensures OthersInOrder(WithoutFirst(hs, id), id) == OthersInOrder(hs, id)
  {
    if hs != [] {
      if hs[0].id == id {
        assert hs[0] in hs;
      } else {
        WithoutFirstSound(hs[1..], id);
        RegisteredTail(hs, id);
        assert ([hs[0]] + WithoutFirst(hs[1..], id))[1..] == WithoutFirst(hs[1..], id);
      }
    }
  }

  datatype Change = Add(h: Handler) | Remove(id: string)

  function AfterChange(hs: seq<Handler>, c: Change): seq<Handler> {
    match c
    case Add(h) => hs + [h]
    case Remove(id) => WithoutFirst(hs, id)
  }

  function AfterChanges(hs: seq<Handler>, changes: seq<Change>): seq<Handler> {
    if changes == [] then hs
    else AfterChange(AfterChanges(hs, changes[..|changes| - 1]), changes[|changes| - 1])
  }

  lemma OneChange(hs: seq<Handler>, c: Change)
    ensures AfterChanges(hs, [c]) == if c.Add? then hs + [c.h] else WithoutFirst(hs, c.id)
  {
    assert [c][..0] == [];
  }

  /** Changes take effect one after the other. */
  lemma {:induction false} ChangesCompose(hs: seq<Handler>, a: seq<Change>, b: seq<Change>)
    ensures AfterChanges(hs, a + b) == AfterChanges(AfterChanges(hs, a), b)
  {
    if b == [] {
      assert a + b == a;
    } else {
      hide AfterChange;
      ChangesCompose(hs, a, b[..|b| - 1]);
      assert (a + b)[..|a + b| - 1] == a + b[..|b| - 1];
    }
  }

  /** After several rounds of changes. */
  function AfterRounds(hs: seq<Handler>, rounds: seq<seq<Change>>): seq<Handler> {
    if rounds == [] then hs
    else AfterChanges(AfterRounds(hs, rounds[..|rounds| - 1]), rounds[|rounds| - 1])
  }

  lemma RegisteredTail(hs: seq<Handler>, id: string)
    requires hs != [] && hs[0].id != id
    ensures Registered(hs, id) <==> Registered(hs[1..], id)
  {
    assert hs == [hs[0]] + hs[1..];
  }

  // ----- dispatch

  predicate Matches(h: Handler, eventType: string) {
    eventType in h.events
  }

  function Matching(hs: seq<Handler>, eventType: string): seq<Handler> {
    if hs == [] then []
    else Matching(hs[..|hs| - 1], eventType) + (if Matches(hs[|hs| - 1], eventType) then [hs[|hs| - 1]] else [])
  }

  ghost predicate SortedByPriority(hs: seq<Handler>) {
    forall i, j :: 0 <= i < j < |hs| ==> hs[i].priority <= hs[j].priority
  }

  /** Some order by priority; handlers of equal priority may come out either way. */
  method SortByPriority(hs: seq<Handler>) returns (sorted: seq<Handler>)
    ensures SortedByPriority(sorted) && multiset(sorted) == multiset(hs)
  {
    sorted := [];
    var rest := hs;
    while rest != []
      invariant multiset(sorted) + multiset(rest) == multiset(hs)
      invariant SortedByPriority(sorted)
      invariant forall a <- sorted, b <- rest :: a.priority <= b.priority
      decreases |rest|
    {
      var k := LowestPriority(rest);
      var h := rest[k];
      assert rest == rest[..k] + [h] + rest[k + 1..];
      sorted := sorted + [h];
      rest := rest[..k] + rest[k + 1..];
    }
    assert multiset(rest) == multiset{};
  }

  method LowestPriority(hs: seq<Handler>) returns (k: nat)
    requires hs != []
    ensures k < |hs| && forall h <- hs :: hs[k].priority <= h.priority
  {
    k := 0;
    for i := 1 to |hs|
      invariant k < |hs| && forall j :: 0 <= j < i ==> hs[k].priority <= hs[j].priority
    {
      if hs[i].priority < hs[k].priority {
        k := i;
      }
    }
  }

  /** An external handler can raise the block, and can only add to the lists. */
  function Merge(result: BusResult, reply: Reply): BusResult {
    if !reply.Output? then result
    else
      var r := reply.result;
      BusResult(result.block || r.block, if r.block then r.reason else result.reason,
                result.inject + r.inject, result.warnings + r.warnings)
  }

  function MergeAll(replies: seq<Reply>): BusResult {
    if replies == [] then EMPTY else Merge(MergeAll(replies[..|replies| - 1]), replies[|replies| - 1])
  }

  class Bus {
    var cells: array<Handler>
    var len: nat

    ghost predicate Valid()
      reads this
    {
      len <= cells.Length
    }

    ghost function Handlers(): seq<Handler>
      requires Valid()
      reads this, cells
    {
      cells[..len]
    }

    constructor ()
      ensures Valid() && Handlers() == [] && fresh(cells)
    {
      cells := new Handler[0];
      len := 0;
    }

    method Register(h: Handler)
      requires Valid()
      modifies this, cells
      ensures Valid() && Handlers() == old(Handlers()) + [h]
      ensures cells == old(cells) || fresh(cells)
    {
      if len == cells.Length {
        var capacity := 2 * len + 1;
        var bigger := new Handler[capacity](i requires 0 <= i < capacity reads this, cells =>
          if i < len && i < cells.Length then cells[i] else h);
        cells := bigger;
        assert cells[..len] == old(cells[..len]);
      }
      cells[len] := h;
      len := len + 1;
    }

    /** The rest of the slice is shifted down over the removed handler, in the same array. */
    method Unregister(id: string) returns (removed: bool)
      requires Valid()
      modifies this, cells
      ensures Valid() && cells == old(cells)
      ensures removed <==> Registered(old(Handlers()), id)
      ensures Handlers() == WithoutFirst(old(Handlers()), id)
    {
      ghost var before := Handlers();
      for i := 0 to len
        invariant forall k :: 0 <= k < i ==> before[k].id != id
        invariant Valid() && Handlers() == before && len == old(len) && cells == old(cells)
      {
        if cells[i].id == id {
          WithoutFirstAt(before, id, i);
          assert before[i] in before;
          ShiftDown(i);
          return true;
        }
      }
      WithoutFirstAbsent(before, id);
      removed := false;
    }

    method ShiftDown(i: nat)
      requires Valid() && i < len
      modifies this`len, cells
      ensures Valid() && Handlers() == old(Handlers())[..i] + old(Handlers())[i + 1..]
    {
      ghost var before := Handlers();
      for k := i + 1 to len
        invariant len == |before| && cells[..k - 1] == before[..i] + before[i + 1..k]
        invariant cells[k..len] == before[k..]
      {
        assert cells[k] == cells[k..len][0] == before[k];
        ghost var rest := cells[k + 1..len];
        assert rest == cells[k..len][1..] == before[k + 1..];
        cells[k - 1] := cells[k];
        assert cells[k + 1..len] == rest;
        assert before[i + 1..k + 1] == before[i + 1..k] + [before[k]];
      }
      len := len - 1;
      assert before[i + 1..|before|] == before[i + 1..];
    }

    /** A copy: later changes to the bus cannot reach it. */
    method ListHandlers() returns (out: array<Handler>)
      requires Valid()
      ensures fresh(out) && out[..] == Handlers()
    {
      var n, source := len, cells;
      out := new Handler[n](i requires 0 <= i < n <= source.Length reads source => source[i]);
      assert out[..] == cells[..len];
    }

    /** A new slice, so later changes to the bus cannot reach it either. */
    method MatchingHandlers(eventType: string) returns (matched: array<Handler>)
      requires Valid()
      ensures fresh(matched)
      ensures multiset(matched[..]) == multiset(Matching(Handlers(), eventType)) && SortedByPriority(matched[..])
    {
      var found: seq<Handler> := [];
      for i := 0 to len
        invariant found == Matching(cells[..i], eventType)
      {
        assert cells[..i + 1][..i] == cells[..i];
        if eventType in cells[i].events {
          found := found + [cells[i]];
        }
      }
      found := SortByPriority(found);
      matched := new Handler[|found|](i requires 0 <= i < |found| => found[i]);
      assert matched[..] == found;
    }

    /** Any number of handlers come and go. */
    method Apply(changes: seq<Change>)
      requires Valid()
      modifies this, cells
      ensures Valid() && Handlers() == AfterChanges(old(Handlers()), changes)
      ensures cells == old(cells) || fresh(cells)
    {
      for i := 0 to |changes|
        invariant Valid() && Handlers() == AfterChanges(old(Handlers()), changes[..i])
        invariant cells == old(cells) || fresh(cells)
      {
        assert changes[..i + 1][..i] == changes[..i];
        match changes[i]
        case Add(h) => Register(h);
        case Remove(id) =>
          var removed := Unregister(id);
      }
      assert changes[..|changes|] == changes;
    }

    /**
     Runs the handlers matching at the start in priority order; `replies` says what each run comes to,
     and the context is cancelled once `cancelAfter` of them have run. The lock is not held meanwhile:
     `meanwhile[i]` are the changes to the bus before the i-th call.
     */
    method Dispatch(eventType: string, replies: seq<Reply>, cancelAfter: Option<nat>, meanwhile: seq<seq<Change>>)
        returns (result: BusResult, cancelled: bool, called: seq<Handler>)
      requires Valid()
      requires |meanwhile| == |replies| == |Matching(Handlers(), eventType)|
      modifies this, cells
      ensures Valid() && (cells == old(cells) || fresh(cells))
      ensures StartsOrderOf(called, old(Matching(Handlers(), eventType)))
      ensures |called| <= |replies| && result == MergeAll(replies[..|called|])
      ensures cancelled <==> cancelAfter.Some? && cancelAfter.value < |replies|
      ensures |called| == if cancelled then cancelAfter.value else |replies|
      ensures Handlers() == AfterRounds(old(Handlers()), meanwhile[..if cancelled then |called| + 1 else |called|])
    {
      var matching := MatchingHandlers(eventType);
      ghost var order, all := matching[..], Matching(Handlers(), eventType);
      SameSize(order, all);
      hide Matching, SortedByPriority, AfterRounds, MergeAll, StartsOrderOf;
      result, cancelled, called := CallEach(matching, replies, cancelAfter, meanwhile);
      OrderStarts(order, all, |called|);
    }

    /** The calls, one after the other, with the changes that come between them. */
    method CallEach(matching: array<Handler>, replies: seq<Reply>, cancelAfter: Option<nat>,
                    meanwhile: seq<seq<Change>>)
        returns (result: BusResult, cancelled: bool, called: seq<Handler>)
      requires Valid() && matching != cells
      requires |meanwhile| == |replies| == matching.Length
      modifies this, cells
      ensures Valid() && (cells == old(cells) || fresh(cells))
      ensures |called| <= matching.Length && called == old(matching[..])[..|called|]
      ensures result == MergeAll(replies[..|called|])
      ensures cancelled <==> cancelAfter.Some? && cancelAfter.value < |replies|
      ensures |called| == if cancelled then cancelAfter.value else |replies|
      ensures Handlers() == AfterRounds(old(Handlers()), meanwhile[..if cancelled then |called| + 1 else |called|])
    {
      ghost var order, before := matching[..], Handlers();
      result, called, cancelled := EMPTY, [], false;
      assert meanwhile[..0] == [] && replies[..0] == [];
      NoneYet(before);
      hide AfterRounds, AfterChanges, MergeAll, Merge;
      for i := 0 to matching.Length
        invariant Valid() && matching != cells && matching[..] == order
        invariant cells == old(cells) || fresh(cells)
        invariant Handlers() == AfterRounds(before, meanwhile[..i])
        invariant called == order[..i] && result == MergeAll(replies[..i])
        invariant cancelAfter.Some? ==> i <= cancelAfter.value
      {
        RoundsSnoc(before, meanwhile, i);
        MergeSnoc(replies, i);
        Apply(meanwhile[i]);
        if cancelAfter.Some? && cancelAfter.value <= i {
          return result, true, called;
        }
        result := Merge(result, replies[i]);
        called := called + [matching[i]];
      }
    }
  }

  lemma OrderStarts(order: seq<Handler>, hs: seq<Handler>, n: nat)
    requires SortedByPriority(order) && multiset(order) == multiset(hs) && n <= |order|
    ensures StartsOrderOf(order[..n], hs)
  {
  }

  lemma NoneYet(hs: seq<Handler>)
    ensures AfterRounds(hs, []) == hs && MergeAll([]) == EMPTY
  {
  }

  lemma RoundsSnoc(hs: seq<Handler>, rounds: seq<seq<Change>>, i: nat)
    requires i < |rounds|
    ensures AfterRounds(hs, rounds[..i + 1]) == AfterChanges(AfterRounds(hs, rounds[..i]), rounds[i])
  {
    hide AfterChanges;
    assert rounds[..i + 1][..i] == rounds[..i];
  }

  lemma MergeSnoc(replies: seq<Reply>, i: nat)
    requires i < |replies|
    ensures MergeAll(replies[..i + 1]) == Merge(MergeAll(replies[..i]), replies[i])
  {
    hide Merge;
    assert replies[..i + 1][..i] == replies[..i];
  }

  lemma SameSize<T>(s: seq<T>, t: seq<T>)
    requires multiset(s) == multiset(t)
    ensures |s| == |t|
  {
    assert |multiset(s)| == |multiset(t)|;
  }

  /** Handlers called one after the other are the first ones of a priority order of all of `hs`. */
  ghost predicate StartsOrderOf(called: seq<Handler>, hs: seq<Handler>) {
    exists order: seq<Handler> :: SortedByPriority(order) && multiset(order) == multiset(hs) && called <= order
  }

  /** A dispatch that is not cancelled calls every handler, each one once. */
  lemma UncancelledCallsAll(called: seq<Handler>, hs: seq<Handler>)
    requires StartsOrderOf(called, hs) && |called| == |hs|
    ensures forall i, j :: 0 <= i < j < |called| ==> called[i].priority <= called[j].priority
    ensures multiset(called) == multiset(hs)
  {
    var order: seq<Handler> :| SortedByPriority(order) && multiset(order) == multiset(hs) && called <= order;
    SameSize(order, hs);
    assert called == order;
  }

  /** A list handed out earlier is the same after any handlers have come and gone, during a dispatch as well. */
  method HandedOutListStays(bus: Bus, changes: seq<Change>, eventType: string, replies: seq<Reply>,
                            meanwhile: seq<seq<Change>>)
      returns (out: array<Handler>)
    requires bus.Valid()
    requires |meanwhile| == |replies| == |Matching(AfterChanges(bus.Handlers(), changes), eventType)|
    modifies bus, bus.cells
    ensures fresh(out) && out[..] == old(bus.Handlers())
    ensures bus.Valid() && bus.Handlers() == AfterRounds(AfterChanges(old(bus.Handlers()), changes), meanwhile)
  {
    out := bus.ListHandlers();
    bus.Apply(changes);
    assert out != bus.cells;
    var result, cancelled, called := bus.Dispatch(eventType, replies, None, meanwhile);
    assert meanwhile[..|meanwhile|] == meanwhile;
  }

  // ----- merging

  lemma {:induction false} MatchingExactly(hs: seq<Handler>, eventType: string)
    ensures forall h :: multiset(Matching(hs, eventType))[h] == if eventType in h.events then multiset(hs)[h] else 0
  {
    if hs != [] {
      MatchingExactly(hs[..|hs| - 1], eventType);
      assert hs == hs[..|hs| - 1] + [hs[|hs| - 1]];
    }
  }

  predicate Blocking(reply: Reply) {
    reply.Output? && reply.result.block
  }

  /** Along a chain the block never goes back and both lists only grow at their end. */
  lemma {:induction false} ChainGrows(replies: seq<Reply>, n: nat)
    requires n <= |replies|
    ensures var early, late := MergeAll(replies[..n]), MergeAll(replies);
      (early.block ==> late.block) && early.inject <= late.inject && early.warnings <= late.warnings
    decreases |replies|
  {
    if n == |replies| {
      assert replies[..n] == replies;
    } else {
      var front := replies[..|replies| - 1];
      assert front[..n] == replies[..n];
      ChainGrows(front, n);
    }
  }

  /**
   What a handler reports stands, whole, right after everything reported before it; failures and
   non-JSON add nothing.
   */
  lemma ContributionStands(replies: seq<Reply>, n: nat)
    requires n < |replies|
    ensures var early, late, reply := MergeAll(replies[..n]), MergeAll(replies), replies[n];
      if reply.Output? then
        early.inject + reply.result.inject <= late.inject && early.warnings + reply.result.warnings <= late.warnings
      else
        MergeAll(replies[..n + 1]) == early
  {
    assert replies[..n + 1][..n] == replies[..n];
    ChainGrows(replies, n + 1);
  }

  /** Running a chain in two parts and merging the outcomes is running it whole. */
  lemma {:induction false} ChainSplits(front: seq<Reply>, back: seq<Reply>)
    ensures MergeAll(front + back) == Merge(MergeAll(front), Output(MergeAll(back)))
  {
    if back == [] {
      assert front + back == front;
    } else {
      var n := |back| - 1;
      ChainSplits(front, back[..n]);
      assert (front + back)[..|front + back| - 1] == front + back[..n];
    }
  }

  ghost predicate LastBlocking(replies: seq<Reply>, i: int) {
    && 0 <= i < |replies| && Blocking(replies[i])
    && forall j :: i < j < |replies| ==> !Blocking(replies[j])
  }

  lemma {:induction false} ReasonOfLast(replies: seq<Reply>, i: nat)
    requires LastBlocking(replies, i)
    ensures MergeAll(replies).reason == replies[i].result.reason
  {
    var n := |replies| - 1;
    if i < n {
      assert !Blocking(replies[n]);
      ReasonOfLast(replies[..n], i);
    }
  }

  /** The event is blocked iff some handler says so, and the reason given is the last such handler's. */
  lemma {:induction false} BlockedByLast(replies: seq<Reply>)
    ensures MergeAll(replies).block <==> exists i :: 0 <= i < |replies| && Blocking(replies[i])
    ensures forall i :: LastBlocking(replies, i) ==> MergeAll(replies).reason == replies[i].result.reason
    ensures !MergeAll(replies).block ==> MergeAll(replies).reason == ""
  {
    if replies != [] {
      var n := |replies| - 1;
      BlockedByLast(replies[..n]);
      if i :| 0 <= i < n && Blocking(replies[i]) {
        assert Blocking(replies[..n][i]);
      }
    }
    hide MergeAll, Merge;
    forall i | LastBlocking(replies, i)
      ensures MergeAll(replies).reason == replies[i].result.reason
    {
      ReasonOfLast(replies, i);
    }
  }
}
