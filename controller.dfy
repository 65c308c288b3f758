/**
 * The shared controller state (`system_status`) and the handlers that read
 * and change it. `State` is the record as a value and the functions after it
 * are the handlers' effects on that value; `SystemStatus` is the live object
 * whose methods make those changes in place, with the hardware flags in an
 * object of their own because the poll response holds a reference to them.
 */
module Controller {
  import opened Wrappers
  import opened Inference
  import opened History
  import opened ActivityLog
  import opened Order

  newtype byte = x: int | 0 <= x < 256

  const Conveyor := "conveyor"
  const Valve := "valve"
  const Devices: set<string> := {Conveyor, Valve}

  datatype Stats = Stats(total: nat, ok: nat, ng: nat, currentResult: string, aiConfidence: string)

  /** `system_status` as a value; `lastUpdate` is the caller's clock reading of the last inference. */
  datatype State = State(mode: int, trigger: bool, lastUpdate: int, hw: map<string, bool>, stats: Stats)

  /** What the device receives from a poll. */
  datatype PollReply = PollReply(mode: int, trigger: bool, hw: map<string, bool>)

  /** A plain-text reply and its HTTP status code. */
  datatype TextReply = TextReply(body: string, code: int)

  /** The one-key JSON objects the handlers answer with. */
  datatype JsonReply = Status(status: string) | Error(error: string)

  /** The state every handler keeps: both hardware flags present, and the counted results within the total. */
  ghost predicate Wf(s: State) {
    s.hw.Keys == Devices && s.stats.ok + s.stats.ng <= s.stats.total
  }

  function Initial(): (s: State)
    ensures Wf(s)
  {
    State(1, false, 0, map[Conveyor := false, Valve := false], Stats(0, 0, 0, "WAITING", "---"))
  }

  /** `int(data.get('mode', 1))`: a missing mode counts as 1. */
  function ModeValue(mode: Option<int>): int {
    if mode.Some? then mode.value else 1
  }

  /** The name written to the log: 1 is automatic, 2 is streaming, anything else manual. */
  function ModeName(mode: int): (name: string)
    ensures name == "Tự động" <==> mode == 1
    ensures name == "Stream" <==> mode == 2
    ensures name == "Thủ công" <==> mode != 1 && mode != 2
  {
    if mode == 1 then "Tự động" else if mode == 2 then "Stream" else "Thủ công"
  }

  /** Python's `f"{x}"` of a JSON value that may be absent. */
  function Show(x: Option<string>): string {
    if x.Some? then x.value else "None"
  }

  /** Setting the mode stores any integer, with no range check, and changes nothing else. */
  function AfterSetMode(s: State, mode: Option<int>): (r: State)
    ensures r.mode == ModeValue(mode)
    ensures r == s.(mode := r.mode)
    ensures Wf(s) ==> Wf(r)
  {
    s.(mode := ModeValue(mode))
  }

  /** A manual capture raises the trigger and shows "WAITING"; the counters stay. */
  function AfterCapture(s: State): (r: State)
    ensures r.trigger && r.stats.currentResult == "WAITING"
    ensures r.mode == s.mode && r.hw == s.hw && r.lastUpdate == s.lastUpdate
    ensures r.stats == s.stats.(currentResult := "WAITING")
    ensures Wf(s) ==> Wf(r)
  {
    s.(trigger := true, stats := s.stats.(currentResult := "WAITING"))
  }

  /** A device the hardware map knows. */
  predicate KnownDevice(device: Option<string>, s: State) {
    device.Some? && device.value in s.hw
  }

  /**
   * A known device's flag becomes whether the action is exactly "on", the
   * other flag stays; an unknown or missing device changes nothing.
   */
  function AfterControl(s: State, device: Option<string>, action: Option<string>): (r: State)
    ensures KnownDevice(device, s) ==>
      r.hw.Keys == s.hw.Keys && r.hw[device.value] == (action == Some("on")) &&
      (forall d :: d in s.hw && d != device.value ==> r.hw[d] == s.hw[d])
    ensures !KnownDevice(device, s) ==> r == s
    ensures r == s.(hw := r.hw)
    ensures Wf(s) ==> Wf(r)
  {
    if KnownDevice(device, s) then s.(hw := s.hw[device.value := action == Some("on")]) else s
  }

  /**
   * The device poll as written: the reply's trigger is the value read before
   * the reset, but its hardware map is the live map, serialised after the
   * valve was cleared. So the reply never carries `valve: true`.
   */
  function Poll(s: State): (out: (State, PollReply))
    requires Wf(s)
    ensures out.0 == s.(trigger := false, hw := s.hw[Valve := false])
    ensures out.1.mode == s.mode && out.1.trigger == s.trigger
    ensures out.1.hw.Keys == Devices && !out.1.hw[Valve] && out.1.hw[Conveyor] == s.hw[Conveyor]
    ensures Wf(out.0)
  {
    var hw := if s.hw[Valve] then s.hw[Valve := false] else s.hw;
    var next := s.(trigger := false, hw := hw);
    (next, PollReply(s.mode, s.trigger, next.hw))
  }

  /**
   * A frame that is not empty is counted once, "OK" and "NG" results are
   * counted in their own counters, and the result, its confidence and the
   * update time are replaced; an empty frame changes nothing.
   */
  function AfterUpload(s: State, frame: seq<byte>, detection: Detection, now: int): (r: State)
    ensures |frame| == 0 ==> r == s
    ensures |frame| > 0 ==>
      var o := Infer(detection);
      r.stats.total == s.stats.total + 1 &&
      r.stats.ok == s.stats.ok + (if o.result == "OK" then 1 else 0) &&
      r.stats.ng == s.stats.ng + (if o.result == "NG" then 1 else 0) &&
      r.stats.currentResult == o.result && r.stats.aiConfidence == o.confidence &&
      r.lastUpdate == now && r.mode == s.mode && r.trigger == s.trigger && r.hw == s.hw
    ensures Wf(s) ==> Wf(r)
  {
    if |frame| == 0 then s
    else
      var o := Infer(detection);
      var counted := s.stats.(total := s.stats.total + 1, currentResult := o.result, aiConfidence := o.confidence);
      var tallied :=
        if o.result == "OK" then counted.(ok := counted.ok + 1)
        else if o.result == "NG" then counted.(ng := counted.ng + 1)
        else counted;
      s.(stats := tallied, lastUpdate := now)
  }

  /**
   * The test upload replaces the shown result, its confidence and the update
   * time when a file with a name was sent, and never touches the counters.
   */
  function AfterTestUpload(s: State, file: Option<string>, detection: Detection, now: int): (r: State)
    ensures r.stats.total == s.stats.total && r.stats.ok == s.stats.ok && r.stats.ng == s.stats.ng
    ensures r.mode == s.mode && r.trigger == s.trigger && r.hw == s.hw
    ensures file.Some? && file.value != "" ==>
      r.stats.currentResult == Infer(detection).result && r.stats.aiConfidence == Infer(detection).confidence &&
      r.lastUpdate == now
    ensures !(file.Some? && file.value != "") ==> r == s
    ensures Wf(s) ==> Wf(r)
  {
    if file.Some? && file.value != "" then
      var o := Infer(detection);
      s.(lastUpdate := now, stats := s.stats.(currentResult := o.result, aiConfidence := o.confidence))
    else s
  }

  // ------------------------------------------------------------ the live object

  /** The `hardware` dict: an object, because a poll response refers to it rather than copying it. */
  class Hardware {
    var flags: map<string, bool>

    constructor ()
      ensures flags == map[Conveyor := false, Valve := false]
    {
      flags := map[Conveyor := false, Valve := false];
    }
  }

  /** A poll response before `jsonify`: its `hw` is the live hardware object itself. */
  datatype PollResponse = PollResponse(mode: int, trigger: bool, hw: Hardware)

  class SystemStatus {
    var currentMode: int
    var triggerCapture: bool
    var lastUpdateTime: int
    const hardware: Hardware
    var stats: Stats
    const logs: Log

    ghost predicate Valid()
      reads this, hardware, logs
    {
      logs.Valid() && Wf(Snapshot())
    }

    function Snapshot(): State
      reads this, hardware
    {
      State(currentMode, triggerCapture, lastUpdateTime, hardware.flags, stats)
    }

    constructor ()
      ensures Valid() && fresh(hardware) && fresh(logs)
      ensures Snapshot() == Initial() && logs.entries == []
    {
      currentMode := 1;
      triggerCapture := false;
      lastUpdateTime := 0;
      hardware := new Hardware();
      stats := Stats(0, 0, 0, "WAITING", "---");
      logs := new Log();
    }

    /** `set_mode` for an operator `user`, logged at time `at`. */
    method SetMode(mode: Option<int>, user: string, at: string) returns (reply: JsonReply)
      requires Valid()
      modifies this, logs
      ensures Valid()
      ensures Snapshot() == AfterSetMode(old(Snapshot()), mode)
      ensures logs.entries ==
        Logged(old(logs.entries), Entry(at, user, "Đổi chế độ", "Chuyển sang chế độ " + ModeName(ModeValue(mode))))
      ensures reply == Status("success")
    {
      var m := ModeValue(mode);
      currentMode := m;
      logs.Append(Entry(at, user, "Đổi chế độ", "Chuyển sang chế độ " + ModeName(m)));
      reply := Status("success");
    }

    /**
     * `login` on a form post: only the fixed administrator account is
     * accepted, and only an accepted login is logged. The session is not
     * modelled; `accepted` stands for the redirect to the dashboard.
     */
    method Login(username: string, password: string, at: string) returns (accepted: bool)
      requires Valid()
      modifies logs
      ensures Valid()
      ensures accepted <==> username == "admin" && password == "123456"
      ensures accepted ==>
        logs.entries == Logged(old(logs.entries), Entry(at, username, "Đăng nhập", "Truy cập hệ thống thành công"))
      ensures !accepted ==> logs.entries == old(logs.entries)
    {
      accepted := username == "admin" && password == "123456";
      if accepted {
        logs.Append(Entry(at, username, "Đăng nhập", "Truy cập hệ thống thành công"));
      }
    }

    /** `logout`: logged for the session's user, whatever the session held. */
    method Logout(user: string, at: string)
      requires Valid()
      modifies logs
      ensures Valid()
      ensures logs.entries == Logged(old(logs.entries), Entry(at, user, "Đăng xuất", "Thoát khỏi hệ thống"))
    {
      logs.Append(Entry(at, user, "Đăng xuất", "Thoát khỏi hệ thống"));
    }

    /** `manual_capture`. */
    method ManualCapture(user: string, at: string) returns (reply: JsonReply)
      requires Valid()
      modifies this, logs
      ensures Valid()
      ensures Snapshot() == AfterCapture(old(Snapshot()))
      ensures logs.entries == Logged(old(logs.entries), Entry(at, user, "Thao tác thủ công", "Nhấn nút chụp ảnh"))
      ensures reply == Status("trigger_sent")
    {
      triggerCapture := true;
      stats := stats.(currentResult := "WAITING");
      logs.Append(Entry(at, user, "Thao tác thủ công", "Nhấn nút chụp ảnh"));
      reply := Status("trigger_sent");
    }

    /** `control_hardware`: answers "success" and the hardware map whatever the device was. */
    method ControlHardware(device: Option<string>, action: Option<string>, user: string, at: string)
      returns (status: string, state: map<string, bool>)
      requires Valid()
      modifies hardware, logs
      ensures Valid()
      ensures Snapshot() == AfterControl(old(Snapshot()), device, action)
      ensures KnownDevice(device, old(Snapshot())) ==>
        logs.entries == Logged(old(logs.entries), Entry(at, user, "Điều khiển", "Test " + device.value + " -> " + Show(action)))
      ensures !KnownDevice(device, old(Snapshot())) ==> logs.entries == old(logs.entries)
      ensures status == "success" && state == hardware.flags
    {
      if device.Some? && device.value in hardware.flags {
        hardware.flags := hardware.flags[device.value := action == Some("on")];
        logs.Append(Entry(at, user, "Điều khiển", "Test " + device.value + " -> " + Show(action)));
      }
      status, state := "success", hardware.flags;
    }

    /**
     * `check_status`, the device poll: the response is built holding the live
     * hardware object, the trigger and the valve are then cleared, and only
     * after that is the response serialised.
     */
    method CheckStatus() returns (reply: PollReply)
      requires Valid()
      modifies this, hardware
      ensures Valid()
      ensures (Snapshot(), reply) == Poll(old(Snapshot()))
    {
      var response := PollResponse(currentMode, triggerCapture, hardware);
      triggerCapture := false;
      if hardware.flags[Valve] {
        hardware.flags := hardware.flags[Valve := false];
      }
      // `jsonify` reads the hardware object only now, after the reset.
      reply := PollReply(response.mode, response.trigger, response.hw.flags);
    }

    /**
     * `upload`, the device's frame post. `now` and `clock` are the clock
     * readings; `decodable` is whether the frame can be read back as an image,
     * which decides whether it is archived, under the name returned.
     */
    method Upload(frame: seq<byte>, detection: Detection, now: int, clock: Clock, decodable: bool)
      returns (reply: TextReply, archived: Option<string>)
      requires Valid() && ValidClock(clock)
      modifies this
      ensures Valid()
      ensures Snapshot() == AfterUpload(old(Snapshot()), frame, detection, now)
      ensures |frame| == 0 ==> reply == TextReply("ERROR", 400) && archived == None
      ensures |frame| > 0 ==> reply == TextReply(Infer(detection).result, 200)
      ensures archived ==
        if |frame| > 0 && decodable then Some(ArchiveName(Timestamp(clock), Infer(detection).result)) else None
    {
      if |frame| > 0 {
        var o := Infer(detection);
        stats := stats.(total := stats.total + 1);
        stats := stats.(currentResult := o.result);
        stats := stats.(aiConfidence := o.confidence);
        if o.result == "OK" {
          stats := stats.(ok := stats.ok + 1);
        } else if o.result == "NG" {
          stats := stats.(ng := stats.ng + 1);
        }
        lastUpdateTime := now;
        assert Snapshot() == AfterUpload(old(Snapshot()), frame, detection, now);
        var name := ArchiveName(Timestamp(clock), o.result);
        archived := if decodable then Some(name) else None;
        reply := TextReply(o.result, 200);
      } else {
        reply, archived := TextReply("ERROR", 400), None;
      }
    }

    /** `test_ai_upload`; `file` is the uploaded file's name, absent when no file part was sent. */
    method TestAiUpload(file: Option<string>, detection: Detection, now: int, user: string, at: string)
      returns (reply: JsonReply, code: int)
      requires Valid()
      modifies this, logs
      ensures Valid()
      ensures Snapshot() == AfterTestUpload(old(Snapshot()), file, detection, now)
      ensures file.None? ==> reply == Error("No file") && code == 400 && logs.entries == old(logs.entries)
      ensures file == Some("") ==> reply == Error("Error") && code == 500 && logs.entries == old(logs.entries)
      ensures file.Some? && file.value != "" ==>
        reply == Status("success") && code == 200 &&
        logs.entries == Logged(old(logs.entries), Entry(at, user, "Test AI", "Upload ảnh thủ công. KQ: " + Infer(detection).result))
    {
      if file.None? {
        return Error("No file"), 400;
      }
      if file.value != "" {
        var o := Infer(detection);
        lastUpdateTime := now;
        stats := stats.(currentResult := o.result);
        stats := stats.(aiConfidence := o.confidence);
        logs.Append(Entry(at, user, "Test AI", "Upload ảnh thủ công. KQ: " + o.result));
        return Status("success"), 200;
      }
      return Error("Error"), 500;
    }

    /** `export_excel` up to the spreadsheet: logs the export and numbers the sorted records. */
    method ExportExcel(files: seq<string>, user: string, at: string) returns (rows: seq<Row>)
      requires Valid()
      modifies logs
      ensures Valid()
      ensures logs.entries == Logged(old(logs.entries), Entry(at, user, "Xuất báo cáo", "Tải file Excel lịch sử"))
      ensures |rows| == |Accepted(files)|
      ensures forall i :: 0 <= i < |rows| ==> rows[i] == Row(i + 1, SortDesc(Accepted(files), RecordKey)[i])
      ensures SortedDesc(seq(|rows|, i requires 0 <= i < |rows| => rows[i].record), RecordKey)
      ensures multiset(seq(|rows|, i requires 0 <= i < |rows| => rows[i].record)) == multiset(Accepted(files))
    {
      logs.Append(Entry(at, user, "Xuất báo cáo", "Tải file Excel lịch sử"));
      rows := ExportRows(files);
    }
  }
}
