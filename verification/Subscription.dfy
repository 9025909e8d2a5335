/**
 The bounded channel, mutex and once-only cancel behind NATSSubscriber.Subscribe.

 `State` and `Next` describe every interleaving of message callbacks, one consumer and any
 number of cancel calls, one atomic operation at a time. `Subscriber` is the imperative code:
 each of its methods is one uninterrupted pass through the callback, the cancel function or a
 channel receive, and is proved to be a particular run of the state machine.
 */
module Subscription {
  import opened Wrappers

  /** The buffer size given to `make(chan []byte, 64)`. */
  const CAPACITY: nat := 64

  type Msg = string

  /** What became of a message once its callback held the mutex. */
  datatype Fate = Sent | Full(held: nat) | AfterClose

  datatype Entry = Entry(msg: Msg, fate: Fate)

  datatype Taken = Taken(msg: Msg, byConsumer: bool)

  /** Who holds `mu`, and how far a callback that holds it has come. */
  datatype Mutex = Free | Entered(msg: Msg) | SawOpen(msg: Msg) | HeldByCancel

  /** Where the one call that `once` lets through stands. */
  datatype CancelPc = NotCalled | Unsubscribing | Locking | Locked | Draining | Returned

  datatype State = State(
    invoked: seq<Msg>,       // the messages the callback was ever called with, in order
    waiting: seq<Msg>,       // callbacks that have started but not locked `mu`
    mu: Mutex,
    closed: bool,
    buffer: seq<Msg>,
    channelClosed: bool,
    cancel: CancelPc,
    panicked: bool,          // a send on a closed channel, or a second close
    closes: nat,             // how often close(ch) completed
    log: seq<Entry>,         // every message whose callback finished, in lock order
    taken: seq<Taken>        // everything removed from the channel, in order
  )

  datatype Action =
    | Invoke(msg: Msg)       // the NATS client calls the callback
    | Acquire(who: nat)      // a waiting callback locks `mu`
    | CheckClosed            // the callback reads `closed`
    | TrySend                // the callback's select, then unlock
    | Receive                // the consumer takes a message
    | CallCancel
    | Unsubscribe
    | CancelLock
    | SetClosed              // `closed = true`, then unlock
    | DrainStep              // one turn of the drain loop

  const Init := State([], [], Free, false, [], false, NotCalled, false, 0, [], [])

  /** One atomic step; an action that cannot happen in `s` leaves it unchanged. */
  function Next(s: State, a: Action): State {
    match a
    case Invoke(m) => s.(invoked := s.invoked + [m], waiting := s.waiting + [m])
    case Acquire(i) =>
      if s.mu.Free? && i < |s.waiting|
      then s.(waiting := s.waiting[..i] + s.waiting[i + 1..], mu := Entered(s.waiting[i]))
      else s
    case CheckClosed =>
      if !s.mu.Entered? then s
      else if s.closed then s.(mu := Free, log := s.log + [Entry(s.mu.msg, AfterClose)])
      else s.(mu := SawOpen(s.mu.msg))
    case TrySend =>
      if !s.mu.SawOpen? then s
      else if s.channelClosed then s.(mu := Free, panicked := true)
      else if |s.buffer| < CAPACITY
      then s.(mu := Free, buffer := s.buffer + [s.mu.msg], log := s.log + [Entry(s.mu.msg, Sent)])
      else s.(mu := Free, log := s.log + [Entry(s.mu.msg, Full(|s.buffer|))])
    case Receive =>
      if s.buffer == [] then s
      else s.(buffer := s.buffer[1..], taken := s.taken + [Taken(s.buffer[0], true)])
    case CallCancel => if s.cancel.NotCalled? then s.(cancel := Unsubscribing) else s
    case Unsubscribe => if s.cancel.Unsubscribing? then s.(cancel := Locking) else s
    case CancelLock =>
      if s.cancel.Locking? && s.mu.Free? then s.(cancel := Locked, mu := HeldByCancel) else s
    case SetClosed =>
      if s.cancel.Locked? then s.(cancel := Draining, mu := Free, closed := true) else s
    case DrainStep =>
      if !s.cancel.Draining? then s
      else if s.buffer != []
      then s.(buffer := s.buffer[1..], taken := s.taken + [Taken(s.buffer[0], false)])
      else if s.channelClosed then s.(cancel := Returned, panicked := true)
      else s.(cancel := Returned, channelClosed := true, closes := s.closes + 1)
  }

  function Run(s: State, acts: seq<Action>): State
    decreases acts
  {
    if acts == [] then s else Run(Next(s, acts[0]), acts[1..])
  }

  // ----- reading the history

  function Messages(log: seq<Entry>): seq<Msg> {
    if log == [] then [] else Messages(log[..|log| - 1]) + [log[|log| - 1].msg]
  }

  function SentMessages(log: seq<Entry>): seq<Msg> {
    if log == [] then []
    else SentMessages(log[..|log| - 1]) + (if log[|log| - 1].fate.Sent? then [log[|log| - 1].msg] else [])
  }

  function TakenMessages(taken: seq<Taken>): seq<Msg> {
    if taken == [] then [] else TakenMessages(taken[..|taken| - 1]) + [taken[|taken| - 1].msg]
  }

  /** What the consumer got, in order. */
  function Received(taken: seq<Taken>): seq<Msg> {
    if taken == [] then []
    else Received(taken[..|taken| - 1]) + (if taken[|taken| - 1].byConsumer then [taken[|taken| - 1].msg] else [])
  }

  /** `a` arises from `b` by leaving elements out. */
  ghost predicate Subsequence(a: seq<Msg>, b: seq<Msg>) {
    if a == [] then true
    else if b == [] then false
    else
      || (a[|a| - 1] == b[|b| - 1] && Subsequence(a[..|a| - 1], b[..|b| - 1]))
      || Subsequence(a, b[..|b| - 1])
  }

  // ----- the invariant

  ghost predicate Inv(s: State) {
    && !s.panicked
    && |s.buffer| <= 64
    && (s.closed <==> s.cancel.Draining? || s.cancel.Returned?)
    && (s.mu.HeldByCancel? <==> s.cancel.Locked?)
    && (s.mu.SawOpen? ==> !s.closed)
    && (s.channelClosed <==> s.cancel.Returned?)
    && s.closes == (if s.channelClosed then 1 else 0)
    && (s.channelClosed ==> s.buffer == [])
    && SentMessages(s.log) == TakenMessages(s.taken) + s.buffer
    && (forall e <- s.log :: e.fate.Full? ==> e.fate.held == 64)
    && (!s.closed ==> forall e <- s.log :: !e.fate.AfterClose?)
    && (!s.closed ==> forall t <- s.taken :: t.byConsumer)
  }

  lemma SentAppend(log: seq<Entry>, e: Entry)
    ensures SentMessages(log + [e]) == SentMessages(log) + (if e.fate.Sent? then [e.msg] else [])
  {
    assert (log + [e])[..|log|] == log;
  }

  lemma TakenAppend(taken: seq<Taken>, t: Taken)
    ensures TakenMessages(taken + [t]) == TakenMessages(taken) + [t.msg]
    ensures Received(taken + [t]) == Received(taken) + (if t.byConsumer then [t.msg] else [])
  {
    assert (taken + [t])[..|taken|] == taken;
  }

  /** Whatever is removed from the channel was its oldest message. */
  lemma TakeKeepsOrder(s: State, byConsumer: bool)
    requires Inv(s) && s.buffer != [] && (byConsumer || s.closed)
    ensures Inv(s.(buffer := s.buffer[1..], taken := s.taken + [Taken(s.buffer[0], byConsumer)]))
  {
    TakenAppend(s.taken, Taken(s.buffer[0], byConsumer));
    assert s.buffer == [s.buffer[0]] + s.buffer[1..];
  }

  lemma CheckKeepsInv(s: State)
    requires Inv(s)
    ensures Inv(Next(s, CheckClosed))
  {
    if s.mu.Entered? && s.closed {
      SentAppend(s.log, Entry(s.mu.msg, AfterClose));
    }
  }

  lemma SendKeepsInv(s: State)
    requires Inv(s)
    ensures Inv(Next(s, TrySend))
  {
    if s.mu.SawOpen? {
      SentAppend(s.log, Entry(s.mu.msg, Sent));
      SentAppend(s.log, Entry(s.mu.msg, Full(|s.buffer|)));
    }
  }

  lemma NextKeepsInv(s: State, a: Action)
    requires Inv(s)
    ensures Inv(Next(s, a))
  {
    hide SentMessages, TakenMessages;
    match a
    case CheckClosed => CheckKeepsInv(s);
    case TrySend => SendKeepsInv(s);
    case Receive =>
      if s.buffer != [] {
        TakeKeepsOrder(s, true);
      }
    case DrainStep =>
      if s.cancel.Draining? && s.buffer != [] {
        TakeKeepsOrder(s, false);
      }
    case _ =>
  }

  /** In every interleaving nothing panics, the channel is closed at most once and holds at most 64. */
  lemma {:induction false} RunKeepsInv(s: State, acts: seq<Action>)
    requires Inv(s)
    ensures Inv(Run(s, acts))
    decreases acts
  {
    if acts != [] {
      NextKeepsInv(s, acts[0]);
      RunKeepsInv(Next(s, acts[0]), acts[1..]);
    }
  }

  // ----- the consumer's view

  lemma {:induction false} SubsequenceExtends(a: seq<Msg>, b: seq<Msg>, more: seq<Msg>)
    requires Subsequence(a, b)
    ensures Subsequence(a, b + more)
    decreases |more|
  {
    if more == [] {
      assert b + more == b;
    } else {
      SubsequenceExtends(a, b, more[..|more| - 1]);
      assert (b + more)[..|b + more| - 1] == b + more[..|more| - 1];
    }
  }

  lemma {:induction false} SubsequenceTransitive(a: seq<Msg>, b: seq<Msg>, c: seq<Msg>)
    requires Subsequence(a, b) && Subsequence(b, c)
    ensures Subsequence(a, c)
    decreases |c|
  {
    if a != [] && c != [] {
      var c' := c[..|c| - 1];
      if b[|b| - 1] == c[|c| - 1] && Subsequence(b[..|b| - 1], c') {
        if a[|a| - 1] == b[|b| - 1] && Subsequence(a[..|a| - 1], b[..|b| - 1]) {
          SubsequenceTransitive(a[..|a| - 1], b[..|b| - 1], c');
        } else {
          SubsequenceTransitive(a, b[..|b| - 1], c');
        }
      } else {
        SubsequenceTransitive(a, b, c');
      }
    }
  }

  lemma {:induction false} ReceivedIsSubsequence(taken: seq<Taken>)
    ensures Subsequence(Received(taken), TakenMessages(taken))
  {
    if taken != [] {
      var rest := taken[..|taken| - 1];
      ReceivedIsSubsequence(rest);
      var last := taken[|taken| - 1];
      SubsequenceExtends(Received(rest), TakenMessages(rest), [last.msg]);
      assert TakenMessages(taken)[..|TakenMessages(taken)| - 1] == TakenMessages(rest);
      if last.byConsumer {
        assert Received(taken)[..|Received(taken)| - 1] == Received(rest);
      } else {
        assert Received(taken) == Received(rest);
      }
    }
  }

  lemma {:induction false} SentIsSubsequence(log: seq<Entry>)
    ensures Subsequence(SentMessages(log), Messages(log))
  {
    if log != [] {
      var rest := log[..|log| - 1];
      SentIsSubsequence(rest);
      var last := log[|log| - 1];
      SubsequenceExtends(SentMessages(rest), Messages(rest), [last.msg]);
      assert Messages(log)[..|Messages(log)| - 1] == Messages(rest);
      if last.fate.Sent? {
        assert SentMessages(log)[..|SentMessages(log)| - 1] == SentMessages(rest);
      } else {
        assert SentMessages(log) == SentMessages(rest);
      }
    }
  }

  lemma {:induction false} SubsequenceRefl(a: seq<Msg>)
    ensures Subsequence(a, a)
  {
    if a != [] {
      SubsequenceRefl(a[..|a| - 1]);
    }
  }

  /** Every run delivers an in-order subsequence of the messages in the order in which callbacks held the mutex. */
  lemma ReceivedInOrder(acts: seq<Action>)
    ensures var s := Run(Init, acts); Subsequence(Received(s.taken), Messages(s.log))
  {
    var s := Run(Init, acts);
    RunKeepsInv(Init, acts);
    ReceivedIsSubsequence(s.taken);
    SubsequenceRefl(TakenMessages(s.taken));
    SubsequenceExtends(TakenMessages(s.taken), TakenMessages(s.taken), s.buffer);
    SentIsSubsequence(s.log);
    SubsequenceTransitive(TakenMessages(s.taken), SentMessages(s.log), Messages(s.log));
    SubsequenceTransitive(Received(s.taken), TakenMessages(s.taken), Messages(s.log));
  }

  // ----- the order in which the callback was called

  /** The messages whose callbacks have not finished, the one that holds the mutex first. */
  function InHand(s: State): seq<Msg> {
    (match s.mu
     case Entered(m) => [m]
     case SawOpen(m) => [m]
     case _ => []) + s.waiting
  }

  lemma MessagesAppend(log: seq<Entry>, e: Entry)
    ensures Messages(log + [e]) == Messages(log) + [e.msg]
  {
    assert (log + [e])[..|log|] == log;
  }

  /** Every message so far: those whose callbacks finished, then those in hand. */
  function Accounted(s: State): seq<Msg> {
    Messages(s.log) + InHand(s)
  }

  ghost predicate OrderKept(s: State) {
    Accounted(s) == s.invoked
  }

  /** A callback that gets the mutex is the one that has waited longest, or carries the same message. */
  predicate TakesFirst(s: State, a: Action) {
    a.Acquire? && s.mu.Free? && a.who < |s.waiting| ==>
      [s.waiting[a.who]] + (s.waiting[..a.who] + s.waiting[a.who + 1..]) == s.waiting
  }

  ghost predicate FirstComeFirstServed(s: State, acts: seq<Action>)
    decreases acts
  {
    acts != [] ==> TakesFirst(s, acts[0]) && FirstComeFirstServed(Next(s, acts[0]), acts[1..])
  }

  ghost predicate OrderKeptThroughout(s: State, acts: seq<Action>)
    decreases acts
  {
    OrderKept(s) && (acts != [] ==> OrderKeptThroughout(Next(s, acts[0]), acts[1..]))
  }

  lemma SameFront(a: seq<Msg>, b: seq<Msg>, c: seq<Msg>)
    ensures a + b == a + c <==> b == c
  {
    if a + b == a + c {
      assert (a + b)[|a|..] == b && (a + c)[|a|..] == c;
    }
  }

  lemma InvokeEffect(s: State, m: Msg)
    ensures Accounted(Next(s, Invoke(m))) == Accounted(s) + [m]
  {
    hide Messages;
    assert Messages(s.log) + (InHand(s) + [m]) == Accounted(s) + [m];
  }

  lemma AcquireEffect(s: State, i: nat)
    requires s.mu.Free? && i < |s.waiting|
    ensures Accounted(s) == Messages(s.log) + s.waiting
    ensures Accounted(Next(s, Acquire(i))) == Messages(s.log) + ([s.waiting[i]] + (s.waiting[..i] + s.waiting[i + 1..]))
  {
    hide Messages;
    assert [] + s.waiting == s.waiting;
  }

  lemma FinishEffect(s: State, a: Action)
    requires !s.channelClosed || !s.mu.SawOpen?
    requires a.CheckClosed? || a.TrySend?
    ensures Accounted(Next(s, a)) == Accounted(s) && Next(s, a).invoked == s.invoked
  {
    if a.CheckClosed? {
      FinishKeepsOrder(s, AfterClose);
    } else {
      FinishKeepsOrder(s, Sent);
      FinishKeepsOrder(s, Full(|s.buffer|));
    }
    hide Messages;
  }

  /** No other step changes which messages are accounted for, or their order. */
  lemma OtherEffect(s: State, a: Action)
    requires Inv(s) && !a.Invoke? && !(a.Acquire? && s.mu.Free? && a.who < |s.waiting|)
    ensures Accounted(Next(s, a)) == Accounted(s) && Next(s, a).invoked == s.invoked
  {
    SendDoesNotPanic(s);
    hide Inv, Messages;
    if a.CheckClosed? || a.TrySend? {
      FinishEffect(s, a);
    }
  }

  lemma StepKeepsOrderIff(s: State, a: Action)
    requires Inv(s) && OrderKept(s)
    ensures OrderKept(Next(s, a)) <==> TakesFirst(s, a)
  {
    if a.Invoke? {
      InvokeEffect(s, a.msg);
    } else if a.Acquire? && s.mu.Free? && a.who < |s.waiting| {
      AcquireEffect(s, a.who);
      SameFront(Messages(s.log), [s.waiting[a.who]] + (s.waiting[..a.who] + s.waiting[a.who + 1..]), s.waiting);
      assert Next(s, a).invoked == s.invoked;
    } else {
      OtherEffect(s, a);
    }
    hide Inv, Messages, Accounted, InHand;
  }

  lemma SendDoesNotPanic(s: State)
    requires Inv(s)
    ensures s.mu.SawOpen? ==> !s.channelClosed
  {
    hide SentMessages, TakenMessages;
  }

  lemma FinishKeepsOrder(s: State, fate: Fate)
    ensures s.mu.Entered? || s.mu.SawOpen? ==>
              Messages(s.log + [Entry(s.mu.msg, fate)]) + s.waiting == Messages(s.log) + InHand(s)
  {
    if s.mu.Entered? || s.mu.SawOpen? {
      MessagesAppend(s.log, Entry(s.mu.msg, fate));
      assert Messages(s.log) + [s.mu.msg] + s.waiting == Messages(s.log) + ([s.mu.msg] + s.waiting);
    }
  }

  /** The order of calls is kept at every moment of a run iff callbacks get the mutex first come, first served. */
  lemma {:induction false} OrderKeptIff(s: State, acts: seq<Action>)
    requires Inv(s) && OrderKept(s)
    ensures OrderKeptThroughout(s, acts) <==> FirstComeFirstServed(s, acts)
    decreases acts
  {
    if acts != [] {
      hide Inv, OrderKept, TakesFirst;
      StepKeepsOrderIff(s, acts[0]);
      NextKeepsInv(s, acts[0]);
      if OrderKept(Next(s, acts[0])) {
        OrderKeptIff(Next(s, acts[0]), acts[1..]);
      }
    }
  }

  lemma {:induction false} OrderKeptAtEnd(s: State, acts: seq<Action>)
    requires OrderKeptThroughout(s, acts)
    ensures OrderKept(Run(s, acts))
    decreases acts
  {
    if acts != [] {
      OrderKeptAtEnd(Next(s, acts[0]), acts[1..]);
    }
  }

  /** First come, first served, the consumer receives an in-order subsequence of the calls. */
  lemma ReceivedInCallOrder(acts: seq<Action>)
    requires FirstComeFirstServed(Init, acts)
    ensures var s := Run(Init, acts); Subsequence(Received(s.taken), s.invoked)
  {
    var s := Run(Init, acts);
    assert OrderKept(Init);
    OrderKeptIff(Init, acts);
    OrderKeptAtEnd(Init, acts);
    ReceivedInOrder(acts);
    SubsequenceExtends(Received(s.taken), Messages(s.log), InHand(s));
  }

  /** The callback is only called when no other call is going on, as for one NATS subscription. */
  ghost predicate OneAtATime(s: State, acts: seq<Action>)
    decreases acts
  {
    acts != [] ==> (acts[0].Invoke? ==> InHand(s) == []) && OneAtATime(Next(s, acts[0]), acts[1..])
  }

  lemma InHandSize(s: State, a: Action)
    ensures |InHand(Next(s, a))| <= |InHand(s)| + if a.Invoke? then 1 else 0
    ensures |InHand(s)| <= 1 ==> TakesFirst(s, a)
  {
    if |InHand(s)| <= 1 && a.Acquire? && s.mu.Free? && a.who < |s.waiting| {
      assert s.waiting == [s.waiting[0]];
    }
  }

  /** Then every acquisition is first come, first served. */
  lemma {:induction false} OneAtATimeIsFirstCome(s: State, acts: seq<Action>)
    requires |InHand(s)| <= 1 && OneAtATime(s, acts)
    ensures FirstComeFirstServed(s, acts)
    decreases acts
  {
    if acts != [] {
      hide InHand, TakesFirst, Next;
      InHandSize(s, acts[0]);
      OneAtATimeIsFirstCome(Next(s, acts[0]), acts[1..]);
    }
  }

  ghost predicate NothingLost(s: State) {
    multiset(Accounted(s)) == multiset(s.invoked)
  }

  lemma StepLosesNothing(s: State, a: Action)
    requires Inv(s) && NothingLost(s)
    ensures NothingLost(Next(s, a))
  {
    if a.Invoke? {
      InvokeEffect(s, a.msg);
    } else if a.Acquire? && s.mu.Free? && a.who < |s.waiting| {
      AcquireEffect(s, a.who);
      Rearranged(s.waiting, a.who);
      assert Next(s, a).invoked == s.invoked;
    } else {
      OtherEffect(s, a);
    }
    hide Inv, Messages, Accounted, InHand, Next;
  }

  lemma Rearranged(w: seq<Msg>, i: nat)
    requires i < |w|
    ensures multiset([w[i]] + (w[..i] + w[i + 1..])) == multiset(w)
  {
    assert w == w[..i] + ([w[i]] + w[i + 1..]);
  }

  /** Under every interleaving each call is accounted for: finished with a known fate, or still going on. */
  lemma {:induction false} EveryCallAccountedFor(s: State, acts: seq<Action>)
    requires Inv(s) && NothingLost(s)
    ensures NothingLost(Run(s, acts))
    decreases acts
  {
    if acts != [] {
      hide Inv, NothingLost, Next;
      StepLosesNothing(s, acts[0]);
      NextKeepsInv(s, acts[0]);
      EveryCallAccountedFor(Next(s, acts[0]), acts[1..]);
    }
  }

  /** One callback that finds room, and the consumer taking its message. */
  lemma CallAndReceive(s: State, i: nat)
    requires s.mu.Free? && !s.closed && !s.channelClosed && s.buffer == [] && i < |s.waiting|
    ensures var m := s.waiting[i];
      Run(s, [Acquire(i), CheckClosed, TrySend, Receive]) ==
        s.(waiting := s.waiting[..i] + s.waiting[i + 1..],
           log := s.log + [Entry(m, Sent)], taken := s.taken + [Taken(m, true)])
  {
    RunFour(s, Acquire(i), CheckClosed, TrySend, Receive);
    var m := s.waiting[i];
    assert [] + [m] == [m] && [m][1..] == [];
  }

  /** Were callbacks to run side by side, a later one could overtake. */
  lemma CallbacksCanOvertake()
    ensures var later, earlier :=
        [Acquire(1), CheckClosed, TrySend, Receive], [Acquire(0), CheckClosed, TrySend, Receive];
      var s := Run(Run(Run(Init, [Invoke("a"), Invoke("b")]), later), earlier);
      s.invoked == ["a", "b"] && Received(s.taken) == ["b", "a"]
  {
    RunTwo(Init, Invoke("a"), Invoke("b"));
    var s := Init.(invoked := ["a", "b"], waiting := ["a", "b"]);
    assert [] + ["a"] == ["a"] && ["a"] + ["b"] == ["a", "b"];
    CallAndReceive(s, 1);
    assert ["a", "b"][..1] + ["a", "b"][2..] == ["a"];
    CallAndReceive(s.(waiting := ["a"], log := [] + [Entry("b", Sent)], taken := [] + [Taken("b", true)]), 0);
    TakenAppend([], Taken("b", true));
    TakenAppend([] + [Taken("b", true)], Taken("a", true));
    hide Received;
  }

  lemma RunTwo(s: State, a: Action, b: Action)
    ensures Run(s, [a, b]) == Next(Next(s, a), b)
  {
    assert [a, b][1..] == [b] && [b][1..] == [];
    assert Run(Next(s, a), [b]) == Run(Next(Next(s, a), b), []);
  }

  lemma {:induction false} AllSent(log: seq<Entry>)
    requires forall e <- log :: e.fate.Sent?
    ensures SentMessages(log) == Messages(log)
  {
    if log != [] {
      assert forall e <- log[..|log| - 1] :: e in log;
      AllSent(log[..|log| - 1]);
      assert log[|log| - 1] in log;
    }
  }

  lemma {:induction false} AllByConsumer(taken: seq<Taken>)
    requires forall t <- taken :: t.byConsumer
    ensures Received(taken) == TakenMessages(taken)
  {
    if taken != [] {
      assert forall t <- taken[..|taken| - 1] :: t in taken;
      AllByConsumer(taken[..|taken| - 1]);
      assert taken[|taken| - 1] in taken;
    }
  }

  /** Before cancel takes effect, a message is lost only by finding all 64 places taken. */
  lemma LossOnlyWhenFullOrCancelled(acts: seq<Action>)
    ensures var s := Run(Init, acts);
      !s.closed && (forall e <- s.log :: e.fate != Full(64)) ==>
        Received(s.taken) + s.buffer == Messages(s.log)
  {
    var s := Run(Init, acts);
    RunKeepsInv(Init, acts);
    if !s.closed && (forall e <- s.log :: e.fate != Full(64)) {
      assert forall e <- s.log :: e.fate.Sent?;
      AllSent(s.log);
      AllByConsumer(s.taken);
    }
  }

  // ----- the drain loop ends

  function DrainSteps(acts: seq<Action>): nat {
    if acts == [] then 0 else (if acts[0].DrainStep? then 1 else 0) + DrainSteps(acts[1..])
  }

  lemma NextWhileDraining(s: State, a: Action)
    requires Inv(s) && s.closed
    ensures var s' := Next(s, a);
      && s'.closed
      && |s'.buffer| <= |s.buffer|
      && (s.cancel.Returned? ==> s'.cancel.Returned?)
      && (a.DrainStep? && s.cancel.Draining? ==> s'.cancel.Returned? || |s'.buffer| < |s.buffer|)
  {
  }

  /**
   Once `closed` is set, no interleaving of callbacks, receives and further cancels can keep the
   drain loop going for more than one turn per message it found, plus the closing turn.
   */
  lemma {:induction false} DrainTerminates(s: State, acts: seq<Action>)
    requires Inv(s) && s.closed
    ensures DrainSteps(acts) > |s.buffer| ==> Run(s, acts).cancel.Returned?
    ensures s.cancel.Returned? ==> Run(s, acts).cancel.Returned? && Run(s, acts).closes == 1
    decreases acts
  {
    if acts == [] {
    } else {
      NextKeepsInv(s, acts[0]);
      NextWhileDraining(s, acts[0]);
      RunKeepsInv(Next(s, acts[0]), acts[1..]);
      DrainTerminates(Next(s, acts[0]), acts[1..]);
    }
  }

  // ----- the code

  lemma {:induction false} RunConcat(s: State, a: seq<Action>, b: seq<Action>)
    ensures Run(s, a + b) == Run(Run(s, a), b)
    decreases a
  {
    if a == [] {
      assert a + b == b;
    } else {
      assert (a + b)[1..] == a[1..] + b;
      RunConcat(Next(s, a[0]), a[1..], b);
    }
  }

  lemma RunFour(s: State, a: Action, b: Action, c: Action, d: Action)
    ensures Run(s, [a, b, c, d]) == Next(Next(Next(Next(s, a), b), c), d)
  {
    assert [a, b, c, d][1..] == [b, c, d];
    assert [b, c, d][1..] == [c, d];
    assert [c, d][1..] == [d];
    assert [d][1..] == [];
    var s2 := Next(Next(s, a), b);
    assert Run(s2, [c, d]) == Run(Next(s2, c), [d]);
    assert Run(Next(s2, c), [d]) == Run(Next(Next(s2, c), d), []);
  }

  class Subscriber {
    var buffer: seq<Msg>
    var channelClosed: bool
    var closed: bool
    var onceDone: bool
    ghost var invoked: seq<Msg>
    ghost var closes: nat
    ghost var log: seq<Entry>
    ghost var taken: seq<Taken>

    /** The machine state between two uninterrupted calls: nobody waits for or holds `mu`. */
    ghost function Snapshot(): State
      reads this
    {
      State(invoked, [], Free, closed, buffer, channelClosed, if onceDone then Returned else NotCalled,
            false, closes, log, taken)
    }

    constructor ()
      ensures Snapshot() == Init
    {
      buffer, channelClosed, closed, onceDone := [], false, false, false;
      invoked, closes, log, taken := [], 0, [], [];
    }

    /** The callback that NATS runs for one message. */
    method OnMessage(msg: Msg)
      requires Inv(Snapshot())
      modifies this
      ensures Snapshot() == Run(old(Snapshot()), [Invoke(msg), Acquire(0), CheckClosed, TrySend])
      ensures Inv(Snapshot())
    {
      ghost var s0 := Snapshot();
      RunFour(s0, Invoke(msg), Acquire(0), CheckClosed, TrySend);
      assert Next(Next(s0, Invoke(msg)), Acquire(0)) == s0.(invoked := s0.invoked + [msg], mu := Entered(msg));
      RunKeepsInv(s0, [Invoke(msg), Acquire(0), CheckClosed, TrySend]);
      invoked := invoked + [msg];
      if closed {
        log := log + [Entry(msg, AfterClose)];
        return;
      }
      if |buffer| < CAPACITY {
        buffer := buffer + [msg];
        log := log + [Entry(msg, Sent)];
      } else {
        log := log + [Entry(msg, Full(|buffer|))];
      }
    }

    /** `<-ch`: a message, or None once the channel is closed and empty. Would block otherwise. */
    method TakeNext() returns (r: Option<Msg>)
      requires Inv(Snapshot()) && (buffer != [] || channelClosed)
      modifies this
      ensures Snapshot() == Next(old(Snapshot()), Receive)
      ensures r == if old(buffer) == [] then None else Some(old(buffer)[0])
      ensures Received(taken) == Received(old(taken)) + (if r.None? then [] else [r.value])
    {
      if buffer == [] {
        return None;
      }
      r := Some(buffer[0]);
      TakenAppend(taken, Taken(buffer[0], true));
      taken := taken + [Taken(buffer[0], true)];
      buffer := buffer[1..];
    }

    /** The cancel function: a second call returns without touching anything. */
    method Cancel()
      requires Inv(Snapshot())
      modifies this
      ensures Snapshot() == Run(old(Snapshot()), CancelActions(|old(buffer)|))
      ensures channelClosed && buffer == [] && closes == 1
      ensures Received(taken) == Received(old(taken))
    {
      CancelEffect(Snapshot());
      if onceDone {
        return;
      }
      closed := true;
      while buffer != []
        invariant Undrained(buffer, taken) == old(Undrained(buffer, taken))
        invariant Received(taken) == Received(old(taken))
        invariant closed && !onceDone && !channelClosed && closes == 0 && log == old(log) && invoked == old(invoked)
        decreases |buffer|
      {
        TakenAppend(taken, Taken(buffer[0], false));
        taken := taken + [Taken(buffer[0], false)];
        buffer := buffer[1..];
      }
      channelClosed := true;
      closes := closes + 1;
      onceDone := true;
    }
  }

  /** The record of removals once the drain loop has emptied `buffer`. */
  function Undrained(buffer: seq<Msg>, taken: seq<Taken>): seq<Taken>
    decreases buffer
  {
    if buffer == [] then taken else Undrained(buffer[1..], taken + [Taken(buffer[0], false)])
  }

  /** One whole call of cancel that finds `n` messages to drain. */
  function CancelActions(n: nat): seq<Action> {
    [CallCancel, Unsubscribe, CancelLock, SetClosed] + seq(n + 1, _ => DrainStep)
  }

  lemma {:induction false} DrainEffect(s: State)
    requires s.cancel.Draining? && !s.channelClosed
    ensures Run(s, seq(|s.buffer| + 1, _ => DrainStep)) ==
            s.(cancel := Returned, channelClosed := true, closes := s.closes + 1,
               buffer := [], taken := Undrained(s.buffer, s.taken))
    decreases |s.buffer|
  {
    var acts := seq(|s.buffer| + 1, _ => DrainStep);
    assert acts[0] == DrainStep;
    if s.buffer == [] {
      assert acts[1..] == [];
    } else {
      assert acts[1..] == seq(|s.buffer|, _ => DrainStep);
      DrainEffect(Next(s, DrainStep));
    }
  }

  lemma {:induction false} DrainAfterReturn(s: State, n: nat)
    requires s.cancel.Returned?
    ensures Run(s, seq(n, _ => DrainStep)) == s
    decreases n
  {
    if n != 0 {
      assert seq(n, _ => DrainStep)[1..] == seq(n - 1, _ => DrainStep);
      DrainAfterReturn(s, n - 1);
    }
  }

  /** What a whole call of cancel does when nobody else holds the mutex. */
  lemma CancelEffect(s: State)
    requires Inv(s) && s.mu.Free? && (s.cancel.NotCalled? || s.cancel.Returned?)
    ensures Run(s, CancelActions(|s.buffer|)) ==
      if s.cancel.Returned? then s
      else s.(cancel := Returned, closed := true, channelClosed := true, closes := s.closes + 1,
              buffer := [], taken := Undrained(s.buffer, s.taken))
  {
    var prologue := [CallCancel, Unsubscribe, CancelLock, SetClosed];
    var drains := seq(|s.buffer| + 1, _ => DrainStep);
    RunConcat(s, prologue, drains);
    CancelPrologue(s);
    hide Inv, Next, Run;
    if s.cancel.Returned? {
      DrainAfterReturn(s, |s.buffer| + 1);
    } else {
      DrainEffect(s.(cancel := Draining, closed := true));
    }
  }

  lemma CancelPrologue(s: State)
    requires Inv(s) && s.mu.Free? && (s.cancel.NotCalled? || s.cancel.Returned?)
    ensures Run(s, [CallCancel, Unsubscribe, CancelLock, SetClosed]) ==
            if s.cancel.Returned? then s else s.(cancel := Draining, closed := true)
    ensures s.cancel.NotCalled? ==> !s.channelClosed
  {
    RunFour(s, CallCancel, Unsubscribe, CancelLock, SetClosed);
    hide SentMessages, TakenMessages, Run;
  }
}
