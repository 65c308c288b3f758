/**
 * The device synchronisation protocol over any sequence of handler calls:
 * what successive polls report about the edge-triggered trigger and valve
 * and the level-triggered conveyor, and how frames are counted. Also the
 * corrected poll, which reports the hardware map as it was before the
 * valve reset.
 */
module Protocol {
  import opened Wrappers
  import opened Inference
  import opened History
  import opened Controller

  /** One handler call, with the inputs that reach the shared state. */
  datatype Command =
    | SetModeCmd(mode: Option<int>)
    | CaptureCmd
    | ControlCmd(device: Option<string>, action: Option<string>)
    | PollCmd
    | UploadCmd(frame: seq<byte>, detection: Detection, now: int)
    | TestUploadCmd(file: Option<string>, detection: Detection, now: int)

  function Step(s: State, c: Command): (out: (State, Option<PollReply>))
    requires Wf(s)
    ensures Wf(out.0)
    ensures out.1.Some? <==> c.PollCmd?
  {
    match c
    case SetModeCmd(m) => (AfterSetMode(s, m), None)
    case CaptureCmd => (AfterCapture(s), None)
    case ControlCmd(d, a) => (AfterControl(s, d, a), None)
    case PollCmd => (Poll(s).0, Some(Poll(s).1))
    case UploadCmd(f, det, now) => (AfterUpload(s, f, det, now), None)
    case TestUploadCmd(f, det, now) => (AfterTestUpload(s, f, det, now), None)
  }

  /** The state after the calls `cmds`, in order, and the replies of their polls, in order. */
  function Run(s: State, cmds: seq<Command>): (out: (State, seq<PollReply>))
    requires Wf(s)
    ensures Wf(out.0)
    decreases |cmds|
  {
    if cmds == [] then (s, [])
    else
      var first := Step(s, cmds[0]);
      var rest := Run(first.0, cmds[1..]);
      (rest.0, (if first.1.Some? then [first.1.value] else []) + rest.1)
  }

  function Captures(cmds: seq<Command>): nat {
    if cmds == [] then 0 else (if cmds[0].CaptureCmd? then 1 else 0) + Captures(cmds[1..])
  }

  function TriggeredPolls(replies: seq<PollReply>): nat {
    if replies == [] then 0 else (if replies[0].trigger then 1 else 0) + TriggeredPolls(replies[1..])
  }

  /** The uploads that carried a frame. */
  function Frames(cmds: seq<Command>): nat {
    if cmds == [] then 0
    else (if cmds[0].UploadCmd? && |cmds[0].frame| > 0 then 1 else 0) + Frames(cmds[1..])
  }

  lemma TriggeredPollsAppend(a: seq<PollReply>, b: seq<PollReply>)
    ensures TriggeredPolls(a + b) == TriggeredPolls(a) + TriggeredPolls(b)
  {
    if a == [] {
      assert a + b == b;
    } else {
      assert (a + b)[1..] == a[1..] + b;
      TriggeredPollsAppend(a[1..], b);
    }
  }

  /**
   * A trigger is delivered at most once per capture: the polls that report
   * it, plus a trigger still pending at the end, never outnumber the captures
   * plus a trigger pending at the start.
   */
  lemma {:induction false} TriggerAtMostOncePerCapture(s: State, cmds: seq<Command>)
    requires Wf(s)
    ensures TriggeredPolls(Run(s, cmds).1) + (if Run(s, cmds).0.trigger then 1 else 0)
         <= Captures(cmds) + (if s.trigger then 1 else 0)
    decreases |cmds|
  {
    if cmds != [] {
      var first := Step(s, cmds[0]);
      TriggerAtMostOncePerCapture(first.0, cmds[1..]);
      TriggeredPollsAppend(if first.1.Some? then [first.1.value] else [], Run(first.0, cmds[1..]).1);
    }
  }

  /**
   * The next poll reports the trigger exactly when a capture came since the
   * last poll (or one was pending before the calls), and clears it.
   */
  lemma {:induction false} PollReportsPendingCapture(s: State, cmds: seq<Command>)
    requires Wf(s)
    requires forall i :: 0 <= i < |cmds| ==> !cmds[i].PollCmd?
    ensures |Run(s, cmds + [PollCmd]).1| == 1
    ensures Run(s, cmds + [PollCmd]).1[0].trigger <==> s.trigger || CaptureCmd in cmds
    ensures !Run(s, cmds + [PollCmd]).0.trigger
    decreases |cmds|
  {
    if cmds == [] {
      assert [] + [PollCmd] == [PollCmd];
    } else {
      assert (cmds + [PollCmd])[1..] == cmds[1..] + [PollCmd];
      var first := Step(s, cmds[0]);
      PollReportsPendingCapture(first.0, cmds[1..]);
      assert first.0.trigger == (s.trigger || cmds[0].CaptureCmd?);
      assert CaptureCmd in cmds <==> cmds[0] == CaptureCmd || CaptureCmd in cmds[1..];
    }
  }

  /** The aliasing of the hardware map: no poll reply, over any run, carries `valve: true`. */
  lemma {:induction false} ValveNeverReported(s: State, cmds: seq<Command>)
    requires Wf(s)
    ensures forall i :: 0 <= i < |Run(s, cmds).1| ==>
      Valve in Run(s, cmds).1[i].hw && !Run(s, cmds).1[i].hw[Valve]
    decreases |cmds|
  {
    if cmds != [] {
      ValveNeverReported(Step(s, cmds[0]).0, cmds[1..]);
    }
  }

  /**
   * The conveyor is level-triggered: unless a call controls it, it keeps its
   * value through any run, polls included, and every poll reports that value.
   */
  lemma {:induction false} ConveyorIsLevel(s: State, cmds: seq<Command>)
    requires Wf(s)
    requires forall i :: 0 <= i < |cmds| ==> !(cmds[i].ControlCmd? && cmds[i].device == Some(Conveyor))
    ensures Run(s, cmds).0.hw[Conveyor] == s.hw[Conveyor]
    ensures forall i :: 0 <= i < |Run(s, cmds).1| ==>
      Conveyor in Run(s, cmds).1[i].hw && Run(s, cmds).1[i].hw[Conveyor] == s.hw[Conveyor]
    decreases |cmds|
  {
    if cmds != [] {
      var first := Step(s, cmds[0]);
      assert first.0.hw[Conveyor] == s.hw[Conveyor];
      ConveyorIsLevel(first.0, cmds[1..]);
    }
  }

  /** Every frame is counted exactly once, whatever its result, and nothing else counts. */
  lemma {:induction false} TotalCountsFrames(s: State, cmds: seq<Command>)
    requires Wf(s)
    ensures Run(s, cmds).0.stats.total == s.stats.total + Frames(cmds)
    decreases |cmds|
  {
    if cmds != [] {
      TotalCountsFrames(Step(s, cmds[0]).0, cmds[1..]);
    }
  }

  // ------------------------------------------------------------ corrected poll

  /**
   * The poll as the reset's own comment intends it: the reply carries a copy
   * of the hardware map taken before the valve is cleared, so a valve command
   * reaches the device once and is then gone.
   */
  function PollWithCopy(s: State): (out: (State, PollReply))
    requires Wf(s)
    ensures out.0 == Poll(s).0
    ensures out.1 == PollReply(s.mode, s.trigger, s.hw)
    ensures !out.0.hw[Valve] && !out.0.trigger
  {
    (Poll(s).0, PollReply(s.mode, s.trigger, s.hw))
  }

  /** One handler call, with the corrected poll in place of the poll as written. */
  function CorrectedStep(s: State, c: Command): (out: (State, Option<PollReply>))
    requires Wf(s)
    ensures Wf(out.0)
    ensures out.1.Some? <==> c.PollCmd?
    ensures !c.PollCmd? ==> out == Step(s, c)
  {
    if c.PollCmd? then (PollWithCopy(s).0, Some(PollWithCopy(s).1)) else Step(s, c)
  }

  /** `Run` with the corrected poll. */
  function CorrectedRun(s: State, cmds: seq<Command>): (out: (State, seq<PollReply>))
    requires Wf(s)
    ensures Wf(out.0)
    decreases |cmds|
  {
    if cmds == [] then (s, [])
    else
      var first := CorrectedStep(s, cmds[0]);
      var rest := CorrectedRun(first.0, cmds[1..]);
      (rest.0, (if first.1.Some? then [first.1.value] else []) + rest.1)
  }

  /** The calls that switch the valve on. */
  function ValveOns(cmds: seq<Command>): nat {
    if cmds == [] then 0
    else (if cmds[0] == ControlCmd(Some(Valve), Some("on")) then 1 else 0) + ValveOns(cmds[1..])
  }

  /** The poll replies that tell the device to fire the valve. */
  function ValvePolls(replies: seq<PollReply>): nat {
    if replies == [] then 0
    else (if Valve in replies[0].hw && replies[0].hw[Valve] then 1 else 0) + ValvePolls(replies[1..])
  }

  lemma ValvePollsAppend(a: seq<PollReply>, b: seq<PollReply>)
    ensures ValvePolls(a + b) == ValvePolls(a) + ValvePolls(b)
  {
    if a == [] {
      assert a + b == b;
    } else {
      assert (a + b)[1..] == a[1..] + b;
      ValvePollsAppend(a[1..], b);
    }
  }

  /** A call other than a poll or a valve control leaves the valve flag alone. */
  lemma StepKeepsValve(s: State, c: Command)
    requires Wf(s)
    requires !c.PollCmd? && !(c.ControlCmd? && c.device == Some(Valve))
    ensures CorrectedStep(s, c).0.hw[Valve] == s.hw[Valve]
  {
  }

  /**
   * With the corrected poll, a valve command is delivered at most once: the
   * polls that report the valve, plus a valve still set at the end, never
   * outnumber the "valve on" calls plus a valve set at the start.
   */
  lemma {:induction false} CorrectedValveAtMostOncePerCommand(s: State, cmds: seq<Command>)
    requires Wf(s)
    ensures ValvePolls(CorrectedRun(s, cmds).1) + (if CorrectedRun(s, cmds).0.hw[Valve] then 1 else 0)
         <= ValveOns(cmds) + (if s.hw[Valve] then 1 else 0)
    decreases |cmds|
  {
    if cmds != [] {
      var c := cmds[0];
      var first := CorrectedStep(s, c);
      CorrectedValveAtMostOncePerCommand(first.0, cmds[1..]);
      ValvePollsAppend(if first.1.Some? then [first.1.value] else [], CorrectedRun(first.0, cmds[1..]).1);
      if c.PollCmd? {
        assert !first.0.hw[Valve];
      } else if c.ControlCmd? && c.device == Some(Valve) {
        assert first.0.hw[Valve] ==> c == ControlCmd(Some(Valve), Some("on"));
      } else {
        StepKeepsValve(s, c);
      }
    }
  }

  /**
   * With the corrected poll, the next poll reports the valve exactly when it
   * was set, provided no call in between controls the valve, and clears it.
   */
  lemma {:induction false} CorrectedPollReportsValve(s: State, cmds: seq<Command>)
    requires Wf(s)
    requires forall i :: 0 <= i < |cmds| ==>
      !cmds[i].PollCmd? && !(cmds[i].ControlCmd? && cmds[i].device == Some(Valve))
    ensures |CorrectedRun(s, cmds + [PollCmd]).1| == 1
    ensures Valve in CorrectedRun(s, cmds + [PollCmd]).1[0].hw
    ensures CorrectedRun(s, cmds + [PollCmd]).1[0].hw[Valve] == s.hw[Valve]
    ensures !CorrectedRun(s, cmds + [PollCmd]).0.hw[Valve]
    decreases |cmds|
  {
    if cmds == [] {
      assert [] + [PollCmd] == [PollCmd];
    } else {
      assert (cmds + [PollCmd])[1..] == cmds[1..] + [PollCmd];
      StepKeepsValve(s, cmds[0]);
      CorrectedPollReportsValve(CorrectedStep(s, cmds[0]).0, cmds[1..]);
    }
  }

  /**
   * The intended pulse: after "valve on", the first poll reports the valve
   * (whatever other calls came between, short of another valve control) and
   * clears it.
   */
  lemma CorrectedValveDelivered(s: State, cmds: seq<Command>)
    requires Wf(s)
    requires forall i :: 0 <= i < |cmds| ==>
      !cmds[i].PollCmd? && !(cmds[i].ControlCmd? && cmds[i].device == Some(Valve))
    ensures var run := CorrectedRun(s, [ControlCmd(Some(Valve), Some("on"))] + cmds + [PollCmd]);
      |run.1| == 1 && Valve in run.1[0].hw && run.1[0].hw[Valve] && !run.0.hw[Valve]
  {
    var on := ControlCmd(Some(Valve), Some("on"));
    var all := [on] + cmds + [PollCmd];
    assert all[0] == on && all[1..] == cmds + [PollCmd];
    var first := CorrectedStep(s, on);
    assert first.0.hw[Valve];
    CorrectedPollReportsValve(first.0, cmds);
  }

  // ------------------------------------------------------------ scenarios

  /** A manual capture reaches the next poll and no later one. */
  method CaptureThenPollTwice() returns (first: PollReply, second: PollReply)
    ensures first.trigger && !second.trigger
    ensures first.mode == second.mode == 1
  {
    var status := new SystemStatus();
    var _ := status.ManualCapture("admin", "2024-01-31 08:00:00");
    first := status.CheckStatus();
    second := status.CheckStatus();
  }

  /** As written, the valve command is set and then lost: the poll that clears it reports it off. */
  method ValveCommandIsLost() returns (commanded: map<string, bool>, reply: PollReply, after: map<string, bool>)
    ensures Valve in commanded && Valve in reply.hw && Valve in after
    ensures commanded[Valve] && !reply.hw[Valve] && !after[Valve]
  {
    var status := new SystemStatus();
    var _, state := status.ControlHardware(Some(Valve), Some("on"), "admin", "2024-01-31 08:00:00");
    commanded := state;
    reply := status.CheckStatus();
    after := status.hardware.flags;
  }

  /** A frame whose first box is "ok_part" is answered "OK" and counted as OK. */
  method OkFrameIsCounted() returns (reply: TextReply, stats: Stats)
    ensures reply == TextReply("OK", 200)
    ensures stats.total == 1 && stats.ok == 1 && stats.ng == 0
    ensures stats.currentResult == "OK" && stats.aiConfidence == "92.0%"
  {
    var status := new SystemStatus();
    assert PyStr.OccursAt(PyStr.Lower("ok_part"), "ok", 0);
    var detection := Detected([Box("ok_part", "92.0")]);
    var archived;
    reply, archived := status.Upload([0xFF, 0xD8], detection, 1706688000, Clock(2024, 1, 31, 8, 0, 0), true);
    stats := status.stats;
  }
}
