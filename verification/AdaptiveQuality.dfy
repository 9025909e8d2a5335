/**
 Adaptive rendering quality: tiers driven by frame rates and by presets.
 */
module AdaptiveQuality {
  const FPS_LOW := 20.0
  const FPS_REDUCE := 30.0
  const FPS_RECOVER := 50.0
  const CONSECUTIVE_LOW: nat := 5
  const CONSECUTIVE_HIGH: nat := 30

  datatype Tier = FullQuality | Reduced | Minimal

  datatype State = State(tier: Tier, low: nat, high: nat, scale: real, auras: nat, manual: bool, intensity: real)

  const Init := State(FullQuality, 0, 0, 1.0, 20, false, 1.0)

  datatype Action = Tick(fps: real) | Preset(name: string)

  function CountFrame(s: State, fps: real): State {
    if fps < FPS_REDUCE then s.(low := s.low + 1, high := 0)
    else if fps > FPS_RECOVER then s.(high := s.high + 1, low := 0)
    else s.(low := 0, high := 0)
  }

  function AfterTick(s: State, fps: real): State {
    if s.manual then s
    else
      var c := CountFrame(s, fps);
      if fps < FPS_LOW then
        if c.tier != Minimal then c.(tier := Minimal, scale := 0.0, auras := 0) else c
      else if c.low >= CONSECUTIVE_LOW && c.tier == FullQuality then c.(tier := Reduced, scale := 0.5, auras := 10)
      else if c.high >= CONSECUTIVE_HIGH && c.tier == Minimal
      then c.(tier := Reduced, scale := 0.5, auras := 10, high := 0)
      else if c.high >= CONSECUTIVE_HIGH && c.tier == Reduced then c.(tier := FullQuality, scale := 1.0, auras := 20)
      else c
  }

  /** Unknown names do nothing; every known one but "normal" suspends the adaptation. */
  function AfterPreset(s: State, name: string): State {
    match name
    case "subtle" => s.(intensity := 0.25, manual := true, scale := 0.25, auras := 5, tier := Reduced)
    case "normal" => s.(intensity := 1.0, manual := false, scale := 1.0, auras := 20, tier := FullQuality)
    case "dramatic" => s.(intensity := 2.0, manual := true, scale := 1.5, auras := 20, tier := FullQuality)
    case "maximum" => s.(intensity := 4.0, manual := true, scale := 2.0, auras := 20, tier := FullQuality)
    case _ => s
  }

  function Next(s: State, a: Action): State {
    match a case Tick(fps) => AfterTick(s, fps) case Preset(name) => AfterPreset(s, name)
  }

  function Run(s: State, acts: seq<Action>): State {
    if acts == [] then s else Next(Run(s, acts[..|acts| - 1]), acts[|acts| - 1])
  }

  // ----- the code

  class Monitor {
    var tier: Tier
    var consecutiveLow: nat
    var consecutiveHigh: nat
    var particleBudgetScale: real
    var auraMaxNodes: nat
    var manualOverride: bool
    var intensity: real

    function Snapshot(): State
      reads this
    {
      State(tier, consecutiveLow, consecutiveHigh, particleBudgetScale, auraMaxNodes, manualOverride, intensity)
    }

    constructor ()
      ensures Snapshot() == Init
    {
      tier, consecutiveLow, consecutiveHigh := FullQuality, 0, 0;
      particleBudgetScale, auraMaxNodes, manualOverride, intensity := 1.0, 20, false, 1.0;
    }

    method AdaptiveQualityTick(fps: real)
      modifies this
      ensures Snapshot() == AfterTick(old(Snapshot()), fps)
    {
      if manualOverride {
        return;
      }
      if fps < FPS_REDUCE {
        consecutiveLow := consecutiveLow + 1;
        consecutiveHigh := 0;
      } else if fps > FPS_RECOVER {
        consecutiveHigh := consecutiveHigh + 1;
        consecutiveLow := 0;
      } else {
        consecutiveLow := 0;
        consecutiveHigh := 0;
      }
      if fps < FPS_LOW {
        if tier != Minimal {
          tier, particleBudgetScale, auraMaxNodes := Minimal, 0.0, 0;
        }
      } else if consecutiveLow >= CONSECUTIVE_LOW && tier == FullQuality {
        tier, particleBudgetScale, auraMaxNodes := Reduced, 0.5, 10;
      } else if consecutiveHigh >= CONSECUTIVE_HIGH {
        if tier == Minimal {
          tier, particleBudgetScale, auraMaxNodes := Reduced, 0.5, 10;
          consecutiveHigh := 0;
        } else if tier == Reduced {
          tier, particleBudgetScale, auraMaxNodes := FullQuality, 1.0, 20;
        }
      }
    }

    method ApplyVfxPreset(name: string)
      modifies this
      ensures Snapshot() == AfterPreset(old(Snapshot()), name)
    {
      var value := if name == "subtle" then 0.25 else if name == "normal" then 1.0
                   else if name == "dramatic" then 2.0 else if name == "maximum" then 4.0 else -1.0;
      if value < 0.0 {
        return;
      }
      intensity := value;
      manualOverride := name != "normal";
      if name == "subtle" {
        particleBudgetScale, auraMaxNodes, tier := 0.25, 5, Reduced;
      } else if name == "normal" {
        particleBudgetScale, auraMaxNodes, tier := 1.0, 20, FullQuality;
        manualOverride := false;
      } else if name == "dramatic" {
        particleBudgetScale, auraMaxNodes, tier := 1.5, 20, FullQuality;
      } else if name == "maximum" {
        particleBudgetScale, auraMaxNodes, tier := 2.0, 20, FullQuality;
      }
    }
  }

  // ----- over every run

  /** The frame rates that were counted: ticks while no preset is in force. */
  function Counted(s: State, acts: seq<Action>): seq<real> {
    if acts == [] then []
    else
      var front, last := acts[..|acts| - 1], acts[|acts| - 1];
      Counted(s, front) + (if last.Tick? && !Run(s, front).manual then [last.fps] else [])
  }

  /** The `n` frames that end at position `end` are all below the reduce threshold. */
  ghost predicate LowRun(h: seq<real>, end: int, n: nat) {
    n <= end <= |h| && forall i :: end - n <= i < end ==> h[i] < 30.0
  }

  ghost predicate HighRun(h: seq<real>, end: int, n: nat) {
    n <= end <= |h| && forall i :: end - n <= i < end ==> h[i] > 50.0
  }

  /** The settings that go with a tier. */
  predicate Consistent(s: State) {
    match s.tier
    case FullQuality => s.scale == 1.0 && s.auras == 20
    case Reduced => s.scale == 0.5 && s.auras == 10
    case Minimal => s.scale == 0.0 && s.auras == 0
  }

  ghost predicate Inv(s: State, h: seq<real>) {
    && (!s.manual ==> Consistent(s))
    && !(s.low > 0 && s.high > 0)
    && LowRun(h, |h|, s.low) && HighRun(h, |h|, s.high)
  }

  lemma RunsGrow(h: seq<real>, fps: real, end: int, n: nat)
    ensures LowRun(h, end, n) ==> LowRun(h + [fps], end, n)
    ensures HighRun(h, end, n) ==> HighRun(h + [fps], end, n)
    ensures LowRun(h, |h|, n) && fps < 30.0 ==> LowRun(h + [fps], |h| + 1, n + 1)
    ensures HighRun(h, |h|, n) && fps > 50.0 ==> HighRun(h + [fps], |h| + 1, n + 1)
  {
  }

  /**
   After any sequence of ticks and presets: with no override the settings match the tier, the two
   counters are never both positive, and each counts frames that really followed one another.
   */
  lemma {:induction false} EveryRunKeepsInv(acts: seq<Action>)
    ensures Inv(Run(Init, acts), Counted(Init, acts))
  {
    if acts != [] {
      var front, last := acts[..|acts| - 1], acts[|acts| - 1];
      EveryRunKeepsInv(front);
      var s, h := Run(Init, front), Counted(Init, front);
      if last.Tick? && !s.manual {
        RunsGrow(h, last.fps, |h|, s.low);
        RunsGrow(h, last.fps, |h|, s.high);
      } else {
        assert Counted(Init, acts) == h + [];
      }
    }
  }

  /** Quality drops from full to reduced only at the end of five consecutive counted frames below 30. */
  lemma ReducedOnlyAfterLowRun(acts: seq<Action>, fps: real)
    requires var s := Run(Init, acts); !s.manual && s.tier == FullQuality && AfterTick(s, fps).tier == Reduced
    ensures var h := Counted(Init, acts) + [fps]; LowRun(h, |h|, 5)
  {
    EveryRunKeepsInv(acts);
    var s, h := Run(Init, acts), Counted(Init, acts);
    RunsGrow(h, fps, |h|, s.low);
  }

  /** Conversely, from full quality five such frames in a row that stay at 20 or more do reduce it, and four do not. */
  lemma {:induction false} LowRunReduces(s: State, frames: seq<real>)
    requires !s.manual && s.tier == FullQuality && s.low == 0 && |frames| <= 5
    requires forall i :: 0 <= i < |frames| ==> 20.0 <= frames[i] < 30.0
    ensures var s' := RunTicks(s, frames);
      !s'.manual && s'.low == |frames| && s'.tier == if |frames| < 5 then FullQuality else Reduced
  {
    if frames != [] {
      LowRunReduces(s, frames[..|frames| - 1]);
    }
  }

  function RunTicks(s: State, frames: seq<real>): State {
    if frames == [] then s else AfterTick(RunTicks(s, frames[..|frames| - 1]), frames[|frames| - 1])
  }

  /** A preset other than "normal" is never lifted by frame rates, however bad they get. */
  lemma {:induction false} OverrideLasts(s: State, frames: seq<real>)
    requires s.manual
    ensures RunTicks(s, frames) == s
  {
    if frames != [] {
      OverrideLasts(s, frames[..|frames| - 1]);
    }
  }

  /** What each preset shows, and goes on showing whatever the frame rates; only "normal" lets them act again. */
  lemma PresetsLast(s: State, frames: seq<real>)
    ensures var r := RunTicks(AfterPreset(s, "subtle"), frames);
      r.intensity == 0.25 && r.scale == 0.25 && r.auras == 5 && r.tier == Reduced
    ensures var r := RunTicks(AfterPreset(s, "dramatic"), frames);
      r.intensity == 2.0 && r.scale == 1.5 && r.auras == 20 && r.tier == FullQuality
    ensures var r := RunTicks(AfterPreset(s, "maximum"), frames);
      r.intensity == 4.0 && r.scale == 2.0 && r.auras == 20 && r.tier == FullQuality
    ensures var r := RunTicks(AfterPreset(s, "normal"), frames);
      r.intensity == 1.0 && !r.manual && Consistent(r)
    ensures AfterPreset(s, "normal").tier == FullQuality
    ensures forall name :: name !in {"subtle", "normal", "dramatic", "maximum"} ==> AfterPreset(s, name) == s
  {
    OverrideLasts(AfterPreset(s, "subtle"), frames);
    OverrideLasts(AfterPreset(s, "dramatic"), frames);
    OverrideLasts(AfterPreset(s, "maximum"), frames);
    StaysConsistent(AfterPreset(s, "normal"), frames);
  }

  lemma {:induction false} StaysConsistent(s: State, frames: seq<real>)
    requires !s.manual && Consistent(s)
    ensures var r := RunTicks(s, frames); !r.manual && Consistent(r) && r.intensity == s.intensity
  {
    if frames != [] {
      StaysConsistent(s, frames[..|frames| - 1]);
    }
  }

  function IntensityOf(name: string): real
    requires name in {"subtle", "normal", "dramatic", "maximum"}
  {
    if name == "subtle" then 0.25 else if name == "normal" then 1.0 else if name == "dramatic" then 2.0 else 4.0
  }

  predicate IsKnownPreset(a: Action) {
    a.Preset? && a.name in {"subtle", "normal", "dramatic", "maximum"}
  }

  lemma NextIntensity(s: State, a: Action)
    ensures Next(s, a).intensity == if IsKnownPreset(a) then IntensityOf(a.name) else s.intensity
  {
  }

  /** The intensity is that of the last known preset, and 1 before the first; frames never change it. */
  lemma {:induction false} IntensityOfRun(acts: seq<Action>)
    ensures (forall i :: 0 <= i < |acts| ==> !IsKnownPreset(acts[i])) ==> Run(Init, acts).intensity == 1.0
    ensures forall k | 0 <= k < |acts| && IsKnownPreset(acts[k])
                && forall j :: k < j < |acts| ==> !IsKnownPreset(acts[j]) ::
              Run(Init, acts).intensity == IntensityOf(acts[k].name)
  {
    if acts != [] {
      var n := |acts| - 1;
      IntensityOfRun(acts[..n]);
      NextIntensity(Run(Init, acts[..n]), acts[n]);
      hide Next, IsKnownPreset, IntensityOf;
      forall k | 0 <= k < n && IsKnownPreset(acts[k]) && forall j :: k < j < |acts| ==> !IsKnownPreset(acts[j])
        ensures Run(Init, acts).intensity == IntensityOf(acts[k].name)
      {
        assert acts[..n][k] == acts[k];
        assert forall j :: k < j < n ==> acts[..n][j] == acts[j];
      }
    }
  }

  // ----- recovery

  ghost predicate OneRun(h: seq<real>, latest: int) {
    exists i: int :: i <= latest && HighRun(h, i, 30)
  }

  /** Two runs of thirty frames above 50 that do not overlap. */
  ghost predicate TwoRuns(h: seq<real>) {
    exists i: int, j: int ::
        i + 30 <= j && HighRun(h, i, 30) && HighRun(h, j, 30)
  }

  ghost predicate RecoveryInv(s: State, h: seq<real>) {
    && !s.manual && HighRun(h, |h|, s.high)
    && (s.tier == Reduced ==> OneRun(h, |h| - s.high))
    && (s.tier == FullQuality ==> TwoRuns(h))
  }

  lemma RecoveryStep(s: State, h: seq<real>, fps: real)
    requires RecoveryInv(s, h)
    ensures RecoveryInv(AfterTick(s, fps), h + [fps])
  {
    var s', h' := AfterTick(s, fps), h + [fps];
    RunsGrow(h, fps, |h|, s.high);
    if s.tier == FullQuality {
      var i: int, j: int :| i + 30 <= j && HighRun(h, i, 30)
          && HighRun(h, j, 30);
      RunsGrow(h, fps, i, 30);
      RunsGrow(h, fps, j, 30);
      assert HighRun(h', i, 30) && HighRun(h', j, 30);
    } else if s.tier == Reduced {
      var i: int :| i <= |h| - s.high && HighRun(h, i, 30);
      RunsGrow(h, fps, i, 30);
      assert HighRun(h', i, 30);
      if s'.tier == FullQuality {
        assert HighRun(h', |h'|, 30);
      }
    } else if s'.tier == Reduced {
      assert HighRun(h', |h'|, 30);
    }
  }

  lemma {:induction false} RecoveryRun(s: State, frames: seq<real>)
    requires !s.manual && s.tier == Minimal && s.high == 0
    ensures RecoveryInv(RunTicks(s, frames), frames)
  {
    if frames != [] {
      RecoveryRun(s, frames[..|frames| - 1]);
      RecoveryStep(RunTicks(s, frames[..|frames| - 1]), frames[..|frames| - 1], frames[|frames| - 1]);
      assert frames == frames[..|frames| - 1] + [frames[|frames| - 1]];
    } else {
      assert HighRun([], 0, 0);
    }
  }

  /** A frame below 20, and no other, forces quality down to minimal, and the count of high frames is then zero. */
  lemma EmergencyIff(s: State, fps: real)
    requires !s.manual && s.tier != Minimal
    ensures AfterTick(s, fps).tier == Minimal <==> fps < 20.0
  {
  }

  lemma EmergencyClearsHigh(s: State, fps: real)
    requires !s.manual && fps < 20.0
    ensures AfterTick(s, fps).tier == Minimal && AfterTick(s, fps).high == 0 && !AfterTick(s, fps).manual
  {
  }

  /** From an emergency, full quality without a preset takes two separate runs of 30 frames above 50. */
  lemma FullNeedsTwoRuns(s: State, fps: real, frames: seq<real>)
    requires !s.manual && fps < 20.0
    requires RunTicks(AfterTick(s, fps), frames).tier == FullQuality
    ensures TwoRuns(frames)
  {
    EmergencyClearsHigh(s, fps);
    RecoveryRun(AfterTick(s, fps), frames);
  }

  lemma {:induction false} HighFramesClimb(s: State, frames: seq<real>)
    requires !s.manual && s.tier == Minimal && s.high == 0 && |frames| <= 60
    requires forall i :: 0 <= i < |frames| ==> frames[i] > 50.0
    ensures var s', n := RunTicks(s, frames), |frames|;
      && !s'.manual
      && (n < 30 ==> s'.tier == Minimal && s'.high == n)
      && (30 <= n < 60 ==> s'.tier == Reduced && s'.high == n - 30)
      && (n == 60 ==> s'.tier == FullQuality)
  {
    if frames != [] {
      HighFramesClimb(s, frames[..|frames| - 1]);
    }
  }

  /** Sixty frames above 50 are enough, so the bound is tight. */
  lemma SixtyHighFramesRecover(s: State, fps: real, frames: seq<real>)
    requires !s.manual && fps < 20.0 && |frames| == 60
    requires forall i :: 0 <= i < |frames| ==> frames[i] > 50.0
    ensures RunTicks(AfterTick(s, fps), frames).tier == FullQuality
  {
    EmergencyClearsHigh(s, fps);
    HighFramesClimb(AfterTick(s, fps), frames);
  }
}
