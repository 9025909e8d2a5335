/**
 Jacks: time-limited permits for infrastructure changes. Times and durations are whole nanoseconds;
 stored expiry times are cut to whole seconds, as their format does.
 */
module Jack {
  import opened Wrappers

  type Time = int
  type Duration = int

  const SECOND: Duration := 1_000_000_000
  const HOUR: Duration := 3600 * SECOND

  const MAX_TTL: Duration := 7 * 24 * HOUR
  const MAX_SINGLE_EXTENSION: Duration := 24 * HOUR
  const MAX_EXTENSIONS: nat := 5
  const MAX_CUMULATIVE_TTL: Duration := 7 * 24 * HOUR
  const MAX_CHANGES: nat := 500
  const MAX_CHANGE_FIELD: nat := 5 * 1024

  const VALID_ACTIONS := ["edit", "exec", "patch", "delete", "create"]

  datatype Status = Open | InProgress | Closed

  datatype Change = Change(at: Time, action: string, target: string, before: string, after: string, cmd: string,
                           agent: string)

  datatype State = State(
    status: Status,
    target: string,
    ttl: Duration,
    originalTtl: Option<Duration>,
    expiresAt: Time,
    extensions: nat,
    cumulative: Duration,
    changes: seq<Change>,
    closing: Option<(Time, string, bool)>   // when, why, reverted
  )

  datatype JackError =
    | ReasonRequired | RevertPlanRequired | TtlTooLong | ExtensionTooLong | AlreadyClosed
    | TooManyExtensions | CumulativeExceeded | ActionRequired | InvalidAction | LogFull | ReasonTooShort
    | StoreFailed

  function WholeSeconds(t: Time): Time {
    t - t % SECOND
  }

  function Truncated(s: string): string {
    if |s| > MAX_CHANGE_FIELD then s[..MAX_CHANGE_FIELD] else s
  }

  // ----- what each command does

  datatype Command =
    | Extend(ttl: Duration)
    | Log(change: Change)
    | Down(reason: string, skipRevert: bool, closes: bool)   // whether the second store call goes through

  /** `kd jack up`, given that the store creates the bead. */
  function Created(now: Time, target: string, reason: string, revertPlan: string, ttl: Duration,
                   started: bool): Result<State, JackError> {
    if reason == "" then Err(ReasonRequired)
    else if revertPlan == "" then Err(RevertPlanRequired)
    else if ttl > MAX_TTL then Err(TtlTooLong)
    else Ok(State(if started then InProgress else Open, target, ttl, None, WholeSeconds(now + ttl), 0, ttl, [], None))
  }

  function Extended(s: State, now: Time, ttl: Duration): Result<State, JackError> {
    if ttl > MAX_SINGLE_EXTENSION then Err(ExtensionTooLong)
    else if s.status.Closed? then Err(AlreadyClosed)
    else if s.extensions >= MAX_EXTENSIONS then Err(TooManyExtensions)
    else if s.cumulative + ttl > MAX_CUMULATIVE_TTL then Err(CumulativeExceeded)
    else Ok(s.(originalTtl := if s.extensions == 0 then Some(s.ttl) else s.originalTtl,
               expiresAt := WholeSeconds(now + ttl), extensions := s.extensions + 1, cumulative := s.cumulative + ttl))
  }

  function Logged(s: State, now: Time, c: Change): Result<State, JackError> {
    if c.action == "" then Err(ActionRequired)
    else if c.action !in VALID_ACTIONS then Err(InvalidAction)
    else if s.status.Closed? then Err(AlreadyClosed)
    else if |s.changes| >= MAX_CHANGES then Err(LogFull)
    else
      var target := if c.target == "" then s.target else c.target;
      Ok(s.(changes := s.changes + [c.(at := WholeSeconds(now), target := target,
                                       before := Truncated(c.before), after := Truncated(c.after))]))
  }

  /** Closing does not look at the status: a closed jack can be closed again with another reason. */
  function Downed(s: State, now: Time, reason: string, skipRevert: bool, closes: bool): Result<State, JackError> {
    if reason == "" then Err(ReasonRequired)
    else if skipRevert && |reason| < 10 then Err(ReasonTooShort)
    else Ok(s.(closing := Some((WholeSeconds(now), reason, !skipRevert)),
               status := if closes then Closed else s.status))
  }

  function Outcome(s: State, now: Time, c: Command): Result<State, JackError> {
    match c
    case Extend(ttl) => Extended(s, now, ttl)
    case Log(change) => Logged(s, now, change)
    case Down(reason, skipRevert, closes) => Downed(s, now, reason, skipRevert, closes)
  }

  // ----- the code

  /** A jack always carries a label of its kind; the general one is added when none was given. */
  method EnsureJackLabel(labels: seq<string>) returns (r: seq<string>)
    ensures exists i :: 0 <= i < |r| && "jack:" <= r[i]
    ensures r == labels || (r == labels + ["jack:general"] && forall i :: 0 <= i < |labels| ==> !("jack:" <= labels[i]))
  {
    for i := 0 to |labels|
      invariant forall k :: 0 <= k < i ==> !("jack:" <= labels[k])
    {
      if "jack:" <= labels[i] {
        return labels;
      }
    }
    r := labels + ["jack:general"];
    assert "jack:" <= r[|labels|];
  }

  class JackBead {
    var status: Status
    var target: string
    var ttl: Duration
    var originalTtl: Option<Duration>
    var expiresAt: Time
    var extensions: nat
    var cumulative: Duration
    var changes: seq<Change>
    var closing: Option<(Time, string, bool)>

    function Snapshot(): State
      reads this
    {
      State(status, target, ttl, originalTtl, expiresAt, extensions, cumulative, changes, closing)
    }

    constructor (s: State)
      ensures Snapshot() == s
    {
      status, target, ttl, originalTtl, expiresAt := s.status, s.target, s.ttl, s.originalTtl, s.expiresAt;
      extensions, cumulative, changes, closing := s.extensions, s.cumulative, s.changes, s.closing;
    }

    static method Up(now: Time, target: string, reason: string, revertPlan: string, ttl: Duration, created: bool,
                     started: bool)
        returns (r: Result<JackBead, JackError>)
      ensures r.Ok? ==> fresh(r.value) && created
      ensures r.Ok? ==> Created(now, target, reason, revertPlan, ttl, started) == Ok(r.value.Snapshot())
      ensures r.Err? && (r.error != StoreFailed || created) ==>
                Created(now, target, reason, revertPlan, ttl, started) == Err(r.error)
    {
      if reason == "" {
        return Err(ReasonRequired);
      }
      if revertPlan == "" {
        return Err(RevertPlanRequired);
      }
      if ttl > MAX_TTL {
        return Err(TtlTooLong);
      }
      var expires := now + ttl;
      if !created {
        return Err(StoreFailed);
      }
      var status := if started then InProgress else Open;
      var jack := new JackBead(State(status, target, ttl, None, WholeSeconds(expires), 0, ttl, [], None));
      r := Ok(jack);
    }

    method RunExtend(now: Time, ttl: Duration, stored: bool) returns (r: Result<(), JackError>)
      modifies this
      ensures r.Ok? ==> Extended(old(Snapshot()), now, ttl) == Ok(Snapshot())
      ensures r.Err? ==> Snapshot() == old(Snapshot())
      ensures r.Err? ==> (r.error == StoreFailed && !stored) || Extended(old(Snapshot()), now, ttl) == Err(r.error)
    {
      if ttl > MAX_SINGLE_EXTENSION {
        return Err(ExtensionTooLong);
      }
      if status == Closed {
        return Err(AlreadyClosed);
      }
      var extCount := extensions;
      if extCount >= MAX_EXTENSIONS {
        return Err(TooManyExtensions);
      }
      if cumulative + ttl > MAX_CUMULATIVE_TTL {
        return Err(CumulativeExceeded);
      }
      if !stored {
        return Err(StoreFailed);
      }
      if extCount == 0 {
        originalTtl := Some(this.ttl);
      }
      var newExpiry := now + ttl;
      expiresAt := WholeSeconds(newExpiry);
      extensions := extCount + 1;
      cumulative := cumulative + ttl;
      r := Ok(());
    }

    method RunLog(now: Time, c: Change, stored: bool) returns (r: Result<(), JackError>)
      modifies this
      ensures r.Ok? ==> Logged(old(Snapshot()), now, c) == Ok(Snapshot())
      ensures r.Err? ==> Snapshot() == old(Snapshot())
      ensures r.Err? ==> (r.error == StoreFailed && !stored) || Logged(old(Snapshot()), now, c) == Err(r.error)
    {
      if c.action == "" {
        return Err(ActionRequired);
      }
      if c.action !in VALID_ACTIONS {
        return Err(InvalidAction);
      }
      var before, after := c.before, c.after;
      if |before| > MAX_CHANGE_FIELD {
        before := before[..MAX_CHANGE_FIELD];
      }
      if |after| > MAX_CHANGE_FIELD {
        after := after[..MAX_CHANGE_FIELD];
      }
      if status == Closed {
        return Err(AlreadyClosed);
      }
      if |changes| >= MAX_CHANGES {
        return Err(LogFull);
      }
      if !stored {
        return Err(StoreFailed);
      }
      var what := c.target;
      if what == "" {
        what := target;
      }
      changes := changes + [Change(WholeSeconds(now), c.action, what, before, after, c.cmd, c.agent)];
      r := Ok(());
    }

    /** Two store calls: the closing fields, then the status. */
    method RunDown(now: Time, reason: string, skipRevert: bool, stored: bool, closes: bool)
        returns (r: Result<(), JackError>)
      modifies this
      ensures r.Ok? ==> closes && Downed(old(Snapshot()), now, reason, skipRevert, true) == Ok(Snapshot())
      ensures r.Err? && r.error != StoreFailed ==>
                Snapshot() == old(Snapshot())
                    && Downed(old(Snapshot()), now, reason, skipRevert, closes) == Err(r.error)
      ensures r.Err? && r.error == StoreFailed ==>
                Snapshot() == old(Snapshot())
                    || Downed(old(Snapshot()), now, reason, skipRevert, false) == Ok(Snapshot())
    {
      if reason == "" {
        return Err(ReasonRequired);
      }
      if skipRevert && |reason| < 10 {
        return Err(ReasonTooShort);
      }
      if !stored {
        return Err(StoreFailed);
      }
      closing := Some((WholeSeconds(now), reason, !skipRevert));
      if !closes {
        return Err(StoreFailed);
      }
      status := Closed;
      r := Ok(());
    }
  }

  // ----- runs

  datatype Grant = Grant(at: Time, ttl: Duration)

  /** A jack together with the lifetimes it was granted so far. */
  datatype History = History(state: State, grants: seq<Grant>)

  /** A refused command changes nothing. */
  function After(h: History, now: Time, c: Command): History {
    match Outcome(h.state, now, c)
    case Err(_) => h
    case Ok(s) => History(s, if c.Extend? then h.grants + [Grant(now, c.ttl)] else h.grants)
  }

  datatype Step = Step(now: Time, command: Command)

  function Run(h: History, steps: seq<Step>): History {
    if steps == [] then h
    else
      var last := steps[|steps| - 1];
      After(Run(h, steps[..|steps| - 1]), last.now, last.command)
  }

  function TotalGranted(grants: seq<Grant>): Duration {
    if grants == [] then 0 else TotalGranted(grants[..|grants| - 1]) + grants[|grants| - 1].ttl
  }

  /** A day in nanoseconds. */
  const DAY: Duration := 86_400_000_000_000

  ghost predicate Inv(h: History) {
    && h.grants != []
    && h.state.extensions == |h.grants| - 1 && h.state.extensions <= 5
    && h.state.cumulative == TotalGranted(h.grants)
    && h.state.cumulative <= 7 * DAY
    && (var end := h.grants[|h.grants| - 1].at + h.grants[|h.grants| - 1].ttl;
        h.state.expiresAt == end - end % 1_000_000_000)
    && h.state.ttl == h.grants[0].ttl
    && h.state.originalTtl == (if h.state.extensions == 0 then None else Some(h.grants[0].ttl))
    && |h.state.changes| <= 500
  }

  lemma StartInv(now: Time, target: string, reason: string, revertPlan: string, ttl: Duration, started: bool)
    requires Created(now, target, reason, revertPlan, ttl, started).Ok?
    ensures Inv(History(Created(now, target, reason, revertPlan, ttl, started).value, [Grant(now, ttl)]))
  {
    assert [Grant(now, ttl)][..0] == [];
  }

  lemma AfterKeepsInv(h: History, now: Time, c: Command)
    requires Inv(h)
    ensures Inv(After(h, now, c))
  {
    var h' := After(h, now, c);
    if h'.grants != h.grants {
      assert h'.grants[..|h.grants|] == h.grants;
    }
  }

  /**
   Over every run of extend, log and down after an up: extensions stay within their maximum and are
   counted exactly, the stored cumulative lifetime is the sum of what was granted and at most seven
   days, and the log is bounded.
   */
  lemma {:induction false} RunKeepsInv(h: History, steps: seq<Step>)
    requires Inv(h)
    ensures Inv(Run(h, steps))
  {
    if steps != [] {
      RunKeepsInv(h, steps[..|steps| - 1]);
      AfterKeepsInv(Run(h, steps[..|steps| - 1]), steps[|steps| - 1].now, steps[|steps| - 1].command);
    }
  }

  /** A jack needs a reason, a plan to revert and at most seven days; it starts with no change and is not closed. */
  lemma UpExactly(now: Time, target: string, reason: string, revertPlan: string, ttl: Duration, started: bool)
    ensures var r := Created(now, target, reason, revertPlan, ttl, started);
      && (r.Ok? <==> reason != "" && revertPlan != "" && ttl <= 7 * DAY)
      && (r.Ok? ==> r.value.status == (if started then InProgress else Open) && r.value.target == target
                    && r.value.changes == [] && r.value.closing == None)
      && (r == Err(ReasonRequired) <==> reason == "")
      && (r == Err(RevertPlanRequired) <==> reason != "" && revertPlan == "")
  {
  }

  /**
   After any run an extension is granted iff it is of a day at most, the jack is open, fewer than five were
   granted, and all grants together stay within seven days. Otherwise the first of these that fails is named.
   */
  lemma GrantedIff(h: History, now: Time, ttl: Duration)
    requires Inv(h)
    ensures After(h, now, Extend(ttl)).grants == h.grants + [Grant(now, ttl)] <==>
      ttl <= DAY && !h.state.status.Closed? && |h.grants| <= 5 && TotalGranted(h.grants) + ttl <= 7 * DAY
    ensures var r := Outcome(h.state, now, Extend(ttl));
      r.Err? ==>
        if ttl > DAY then r.error.ExtensionTooLong?
        else if h.state.status.Closed? then r.error.AlreadyClosed?
        else if |h.grants| > 5 then r.error.TooManyExtensions? else r.error.CumulativeExceeded?
    ensures Outcome(h.state, now, Extend(ttl)).Err? <==> After(h, now, Extend(ttl)).grants == h.grants
  {
  }

  /** Why a change or a `down` is refused: the first that is the case. */
  lemma RefusedFor(s: State, now: Time, c: Change, reason: string, skipRevert: bool, closes: bool)
    ensures var r := Logged(s, now, c);
      r.Err? ==>
        if |c.action| == 0 then r.error.ActionRequired?
        else if c.action !in {"edit", "exec", "patch", "delete", "create"} then r.error.InvalidAction?
        else if s.status.Closed? then r.error.AlreadyClosed? else r.error.LogFull?
    ensures var r := Downed(s, now, reason, skipRevert, closes);
      && (r.Err? <==> |reason| == 0 || (skipRevert && |reason| < 10))
      && (r.Err? ==> if |reason| == 0 then r.error.ReasonRequired? else r.error.ReasonTooShort?)
  {
  }

  /** A jack is closed iff it was or some `down` with a reason, a long one if nothing is reverted, went all the way. */
  lemma {:induction false} ClosedIff(h: History, steps: seq<Step>)
    ensures Run(h, steps).state.status.Closed? <==>
      || h.state.status.Closed?
      || exists i :: 0 <= i < |steps| && steps[i].command.Down? && steps[i].command.closes
           && steps[i].command.reason != "" && (steps[i].command.skipRevert ==> |steps[i].command.reason| >= 10)
    ensures !Run(h, steps).state.status.Closed? ==> Run(h, steps).state.status == h.state.status
  {
    if steps != [] {
      ClosedIff(h, steps[..|steps| - 1]);
    }
  }

  /** The entry that one accepted change leaves in the log of a jack with that target. */
  ghost predicate Records(e: Change, now: Time, c: Change, jackTarget: string) {
    && e.at == now - now % 1_000_000_000 && e.action == c.action && e.cmd == c.cmd && e.agent == c.agent
    && e.target == (if c.target == "" then jackTarget else c.target)
    && e.before == (if |c.before| > 5120 then c.before[..5120] else c.before)
    && e.after == (if |c.after| > 5120 then c.after[..5120] else c.after)
  }

  /** The entries from `from` on record the changes at `places`. */
  ghost predicate RecordsInOrder(log: seq<Change>, from: nat, steps: seq<Step>, places: seq<nat>, target: string) {
    && |log| == from + |places|
    && (forall j, k :: 0 <= j < k < |places| ==> places[j] < places[k])
    && forall k :: 0 <= k < |places| ==>
        && places[k] < |steps| && steps[places[k]].command.Log?
        && Records(log[from + k], steps[places[k]].now, steps[places[k]].command.change, target)
  }

  /** A change of a known action that finds the jack open and fewer than 500 entries. */
  ghost predicate IsLogged(h: History, c: Command) {
    && c.Log? && c.change.action in {"edit", "exec", "patch", "delete", "create"}
    && !h.state.status.Closed? && |h.state.changes| < 500
  }

  /** The log of a run: what was there, then one entry for each logged change, in order. */
  lemma {:induction false} LogOfRun(h: History, steps: seq<Step>) returns (places: seq<nat>)
    ensures h.state.changes <= Run(h, steps).state.changes && Run(h, steps).state.target == h.state.target
    ensures RecordsInOrder(Run(h, steps).state.changes, |h.state.changes|, steps, places, h.state.target)
    ensures forall i: nat :: i < |steps| ==> (i in places <==> IsLogged(Run(h, steps[..i]), steps[i].command))
  {
    hide Records, After, IsLogged, RecordsInOrder;
    if steps == [] {
      places := [];
      NoRecords(h.state.changes, h.state.target);
    } else {
      var n := |steps| - 1;
      places := LogOfRun(h, steps[..n]);
      var mid, last := Run(h, steps[..n]), steps[n];
      forall i | 0 <= i < n
        ensures steps[..n][..i] == steps[..i]
      {
      }
      LogEffect(mid, last.now, last.command);
      assert steps[..n] + [last] == steps;
      RecordsOneMore(mid.state.changes, Run(h, steps).state.changes, |h.state.changes|, steps[..n], last, places,
                     h.state.target);
      if IsLogged(mid, last.command) {
        places := places + [n];
      }
    }
  }

  lemma NoRecords(log: seq<Change>, target: string)
    ensures RecordsInOrder(log, |log|, [], [], target)
  {
  }

  lemma RecordsOneMore(log: seq<Change>, log': seq<Change>, from: nat, steps: seq<Step>, last: Step, places: seq<nat>,
                       target: string)
    requires RecordsInOrder(log, from, steps, places, target)
    ensures |steps| !in places
    ensures log' == log ==> RecordsInOrder(log', from, steps + [last], places, target)
    ensures last.command.Log? && |log'| == |log| + 1 && log <= log' ==>
      Records(log'[|log|], last.now, last.command.change, target) ==>
        RecordsInOrder(log', from, steps + [last], places + [|steps|], target)
  {
    hide Records;
    assert |steps| !in places;
  }

  /** Only an accepted change makes an entry. */
  lemma LogEffect(h: History, now: Time, c: Command)
    ensures var log, log' := h.state.changes, After(h, now, c).state.changes;
      && After(h, now, c).state.target == h.state.target
      && (if IsLogged(h, c)
          then c.Log? && |log'| == |log| + 1 && log <= log' && Records(log'[|log|], now, c.change, h.state.target)
          else log' == log)
  {
  }

  /** The change log only grows at its end, and once closed a jack is final: no lifetime, no change, no reopening. */
  lemma {:induction false} LogAppendOnlyAndClosedFinal(h: History, steps: seq<Step>)
    ensures var h' := Run(h, steps);
      && h.state.changes <= h'.state.changes && h.grants <= h'.grants
      && (h.state.status.Closed? ==>
            h'.state.status.Closed? && h'.state.changes == h.state.changes && h'.grants == h.grants
            && h'.state.expiresAt == h.state.expiresAt)
  {
    if steps != [] {
      LogAppendOnlyAndClosedFinal(h, steps[..|steps| - 1]);
    }
  }

  /** The closing fields a command writes, if it is an accepted `down`. */
  function Closing(now: Time, c: Command): Option<(Time, string, bool)> {
    match c
    case Down(reason, skipRevert, _) =>
      if reason == "" || (skipRevert && |reason| < 10) then None else Some((WholeSeconds(now), reason, !skipRevert))
    case _ => None
  }

  function LastClosing(closing: Option<(Time, string, bool)>, steps: seq<Step>): Option<(Time, string, bool)> {
    if steps == [] then closing
    else
      var n := |steps| - 1;
      var c := Closing(steps[n].now, steps[n].command);
      if c.Some? then c else LastClosing(closing, steps[..n])
  }

  /** Of a closed jack a run changes the closing fields and nothing else: they are those of the last accepted `down`. */
  lemma {:induction false} ClosedRunExact(h: History, steps: seq<Step>)
    requires h.state.status.Closed?
    ensures Run(h, steps) == h.(state := h.state.(closing := LastClosing(h.state.closing, steps)))
  {
    if steps != [] {
      ClosedRunExact(h, steps[..|steps| - 1]);
    }
  }

  /** So a closed jack stays as it is throughout iff every later `down` is refused or writes the same fields again. */
  lemma ClosingStaysIff(h: History, steps: seq<Step>)
    requires h.state.status.Closed?
    ensures (forall n: nat | n <= |steps| :: Run(h, steps[..n]) == h) <==>
            forall s <- steps :: Closing(s.now, s.command).Some? ==> Closing(s.now, s.command) == h.state.closing
  {
    hide Run, Closing;
    forall n: nat | n <= |steps|
      ensures Run(h, steps[..n]) == h <==> LastClosing(h.state.closing, steps[..n]) == h.state.closing
    {
      ClosedRunExact(h, steps[..n]);
    }
    if forall n: nat | n <= |steps| :: Run(h, steps[..n]) == h {
      forall i | 0 <= i < |steps|
        ensures Closing(steps[i].now, steps[i].command).Some? ==>
                  Closing(steps[i].now, steps[i].command) == h.state.closing
      {
        assert Run(h, steps[..i + 1]) == h;
      }
    }
    if forall s <- steps :: Closing(s.now, s.command).Some? ==> Closing(s.now, s.command) == h.state.closing {
      forall n: nat | n <= |steps|
        ensures LastClosing(h.state.closing, steps[..n]) == h.state.closing
      {
        SameClosing(h.state.closing, steps[..n]);
      }
    }
  }

  lemma {:induction false} SameClosing(closing: Option<(Time, string, bool)>, steps: seq<Step>)
    requires forall s <- steps :: Closing(s.now, s.command).Some? ==> Closing(s.now, s.command) == closing
    ensures LastClosing(closing, steps) == closing
  {
    hide Closing;
    if steps != [] {
      assert steps[|steps| - 1] in steps && forall s <- steps[..|steps| - 1] :: s in steps;
      SameClosing(closing, steps[..|steps| - 1]);
    }
  }

  // ----- how long a jack is in force

  /** The time a grant is in force: until its stored expiry, or until the next grant replaces it. */
  function InForce(g: Grant, until: Time): Duration {
    var expires := WholeSeconds(g.at + g.ttl);
    var end := if until < expires then until else expires;
    if end > g.at then end - g.at else 0
  }

  /** Total time the jack is unexpired up to `until`. */
  function TimeInForce(grants: seq<Grant>, until: Time): Duration {
    if grants == [] then 0
    else
      var last := grants[|grants| - 1];
      TimeInForce(grants[..|grants| - 1], last.at) + InForce(last, until)
  }

  /** With lifetimes that are not negative, a jack is never in force longer than it was granted. */
  lemma {:induction false} InForceAtMostGranted(grants: seq<Grant>, until: Time)
    requires forall i :: 0 <= i < |grants| ==> grants[i].ttl >= 0
    ensures TimeInForce(grants, until) <= TotalGranted(grants)
  {
    if grants != [] {
      InForceAtMostGranted(grants[..|grants| - 1], grants[|grants| - 1].at);
    }
  }

  /** So over every run a jack is in force for at most seven days. */
  lemma InForceBounded(h: History, steps: seq<Step>, until: Time)
    requires Inv(h) && forall i :: 0 <= i < |h.grants| ==> h.grants[i].ttl >= 0
    requires forall i :: 0 <= i < |steps| ==> (steps[i].command.Extend? ==> steps[i].command.ttl >= 0)
    ensures TimeInForce(Run(h, steps).grants, until) <= Run(h, steps).state.cumulative
    ensures Run(h, steps).state.cumulative <= 7 * DAY
  {
    RunKeepsInv(h, steps);
    GrantsNotNegative(h, steps);
    InForceAtMostGranted(Run(h, steps).grants, until);
  }

  lemma {:induction false} GrantsNotNegative(h: History, steps: seq<Step>)
    requires forall i :: 0 <= i < |h.grants| ==> h.grants[i].ttl >= 0
    requires forall i :: 0 <= i < |steps| ==> (steps[i].command.Extend? ==> steps[i].command.ttl >= 0)
    ensures forall i :: 0 <= i < |Run(h, steps).grants| ==> Run(h, steps).grants[i].ttl >= 0
  {
    if steps != [] {
      GrantsNotNegative(h, steps[..|steps| - 1]);
    }
  }

  /** At no time has a jack been in force for longer than it was granted. */
  ghost predicate Bounded(grants: seq<Grant>) {
    forall until: Time :: TimeInForce(grants, until) <= TotalGranted(grants)
  }

  lemma OneMoreGrant(grants: seq<Grant>, g: Grant)
    ensures TotalGranted(grants + [g]) == TotalGranted(grants) + g.ttl
    ensures forall until :: TimeInForce(grants + [g], until) == TimeInForce(grants, g.at) + InForce(g, until)
  {
    assert (grants + [g])[..|grants|] == grants;
  }

  lemma GrantKeepsBound(grants: seq<Grant>, g: Grant)
    requires Bounded(grants) && g.ttl >= 0
    ensures Bounded(grants + [g])
  {
    OneMoreGrant(grants, g);
    hide TimeInForce, TotalGranted;
    forall until: Time
      ensures TimeInForce(grants + [g], until) <= TotalGranted(grants + [g])
    {
      assert TimeInForce(grants, g.at) <= TotalGranted(grants);
    }
  }

  lemma NegativeGrantBreaksBound(ttl: Duration)
    requires ttl < 0
    ensures var first := [Grant(0, SECOND)]; Bounded(first) && !Bounded(first + [Grant(SECOND, ttl)])
  {
    var first := [Grant(0, SECOND)];
    assert first == [] + first && first[..0] == [];
    OneMoreGrant([], first[0]);
    OneMoreGrant(first, Grant(SECOND, ttl));
    assert TimeInForce(first + [Grant(SECOND, ttl)], SECOND) == SECOND;
  }

  /** An extension is sure to keep that bound exactly when it is not negative, which nothing checks. */
  lemma ExtensionKeepsBoundIff(ttl: Duration)
    ensures ttl >= 0 <==> forall grants, now :: Bounded(grants) ==> Bounded(grants + [Grant(now, ttl)])
  {
    hide Bounded;
    if ttl >= 0 {
      forall grants: seq<Grant>, now | Bounded(grants)
        ensures Bounded(grants + [Grant(now, ttl)])
      {
        GrantKeepsBound(grants, Grant(now, ttl));
      }
    } else {
      NegativeGrantBreaksBound(ttl);
    }
  }

  /** A negative extension, which is accepted, gives the difference back: eight days in force on seven granted. */
  lemma NegativeExtensionBreaksBound()
    ensures var week, day := MAX_TTL, MAX_SINGLE_EXTENSION;
      var start := History(State(InProgress, "pod", week, None, week, 0, week, [], None), [Grant(0, week)]);
      var h := After(After(start, week, Extend(-day)), week, Extend(day));
      Inv(start) && h.state.cumulative == week && TimeInForce(h.grants, 10 * day) == week + day
  {
    var week, day := MAX_TTL, MAX_SINGLE_EXTENSION;
    var g0 := [Grant(0, week)];
    var start := History(State(InProgress, "pod", week, None, week, 0, week, [], None), g0);
    assert week % SECOND == 0 && day % SECOND == 0;
    assert g0[..0] == [];
    var mid := After(start, week, Extend(-day));
    var g1 := g0 + [Grant(week, -day)];
    assert mid.grants == g1 && g1[..1] == g0;
    var h := After(mid, week, Extend(day));
    var g2 := g1 + [Grant(week, day)];
    assert h.grants == g2 && g2[..2] == g1;
    assert TimeInForce(g0, week) == week;
    assert TimeInForce(g1, week) == week;
  }
}
