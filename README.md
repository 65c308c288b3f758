# Smart-factory inspection controller, modelled in Dafny

The system is a Flask server (`app.py`) that sits between an ESP32 camera
station and the operators' web dashboard. The device posts frames and polls
for commands. Operators switch the operating mode, request a capture, toggle
the conveyor and the reject valve, and browse the history of inspected
frames. This project models the in-memory part of that server and proves
properties of it:

- the shared `system_status` record and the handlers that change it
  (`set_mode`, `manual_capture`, `control_hardware`, the device poll
  `check_status`, and the statistics updates of `upload` and
  `test_ai_upload`);
- the bounded, newest-first activity log `log_activity`;
- the rule that turns the detector's first box into a label;
- the archive of inspected frames, where the file name
  `img_<YYYYMMDD>_<HHMMSS>_<result>.jpg` is the only record. This covers the
  name the upload handler writes, the parser shared by the full-history and
  export handlers, their sort, the export's row numbering, and the
  twelve-item recent list.

Files and modules:

- `wrappers.dfy` (`Wrappers`): `Option`, for Python's `None`.
- `pystr.dfy` (`PyStr`): the Python string operations the code uses:
  `startswith`, `endswith`, `in`, `lower`/`upper` over ASCII,
  `replace(pat, '')`, `split` and clamped slicing.
- `order.dfy` (`Order`): Python's ordering of strings and of string tuples.
  It also defines `SortDesc`, the stable descending sort that
  `list.sort(key=…, reverse=True)` performs.
- `inference.dfy` (`Inference`): the label rule and `run_ai_inference`,
  with the detector's answer taken as an input.
- `history.dfy` (`History`): archive names, the parser, the history scan and
  sort, the export rows and the recent-images list.
- `activity_log.dfy` (`ActivityLog`): the log as a class with a `seq` field,
  and the pure function that specifies it.
- `controller.dfy` (`Controller`): `system_status` as a value (`State`), the
  handlers' effects on that value as functions, and the live object
  `SystemStatus`. Its methods make those changes in place. The hardware
  flags live in a separate `Hardware` object, because the poll response
  holds a reference to them.
- `protocol.dfy` (`Protocol`): any sequence of handler calls (`Run`), what
  successive polls report, the corrected poll, and a few concrete scenarios.

The handlers do not lock anything. Each one is modelled as a single atomic
method or step.

Behaviours of the code that a reader might not expect, all modelled as
written:

- The code does not range-check the mode: any integer is stored, and 1
  when the key is missing.
- An unknown device is silently ignored, not rejected, and the reply is
  still "success".
- The history sort key is the day-first date string, then the time. This
  order is not chronological (`History.DayFirstOrderIsNotChronological`).
- Records with equal keys keep directory-listing order. That is the stable
  sort's order (`Order.SortDescStable`). There is no tie-break on the file
  name.
- The recent list sorts raw `.jpg` names and keeps twelve. It takes no
  limit parameter and does not parse the names.
- The test upload changes the shown result and confidence but none of the
  counters.
- A missing model gives confidence "0%". No detection gives "0.0%", because
  the code formats the float `0.0`.

## Model

| member | source | states |
|---|---|---|
| `Controller.Initial` | app.py:34-49 | The initial record (mode 1, no trigger, both flags off, zero counters) satisfies the invariant: it holds flags for exactly the conveyor and the valve, and `ok + ng <= total`. |
| `Controller.SystemStatus.constructor` | app.py:34-52 | A fresh controller holds the initial record and an empty log. |
| `Controller.AfterSetMode` | app.py:272-282 | Any integer becomes the mode (1 when absent), nothing else changes, and the invariant is kept. |
| `Controller.ModeName` | app.py:279 | The logged name is "Tự động" iff the mode is 1, "Stream" iff it is 2, and "Thủ công" iff it is neither. |
| `Controller.SystemStatus.SetMode` | app.py:272-282 | Stores the mode as `AfterSetMode` says, logs "Đổi chế độ" with the mode's name (1 automatic, 2 stream, anything else manual), and answers "success". |
| `Controller.AfterCapture` | app.py:284-292 | A capture raises the trigger and shows "WAITING"; mode, hardware, update time and counters stay. |
| `Controller.SystemStatus.Login` | app.py:92-104 | A login is accepted iff the user is "admin" and the password "123456". Only an accepted login adds the "Đăng nhập" entry; a refused one leaves the log as it was. |
| `Controller.SystemStatus.Logout` | app.py:106-111 | A logout adds the "Đăng xuất" entry for the session's user. |
| `Controller.SystemStatus.ManualCapture` | app.py:284-292 | Changes the state as `AfterCapture` says, logs the action, and answers "trigger_sent". |
| `Controller.AfterControl` | app.py:260-261 | For a known device, exactly that flag becomes `action == "on"` (any other or missing action turns it off) and the other flag stays. An unknown or missing device changes nothing. |
| `Controller.SystemStatus.ControlHardware` | app.py:254-266 | Changes the flags as `AfterControl` says. Only a known device is logged ("Test <device> -> <action>", where a missing action reads "None"). It always answers "success" with the current map. |
| `Controller.Poll` | app.py:295-309 | The poll reports the mode and the trigger as they were. It clears the trigger and the valve. Its hardware map is the map after the reset: `valve` is always false, and `conveyor` is the prior value. |
| `Controller.SystemStatus.CheckStatus` | app.py:295-309 | Builds the response around the live `Hardware` object, clears the trigger and then the valve, and only then reads the object's map into the reply, as `jsonify` does. So the new state and the reply are as `Poll` says: the reply carries the map after the reset. |
| `Controller.AfterUpload` | app.py:224-240 | An empty frame changes nothing. Otherwise `total` rises by exactly 1, `ok` by 1 iff the label is "OK", `ng` by 1 iff it is "NG". Result, confidence and update time are replaced, and `ok + ng <= total` is kept. |
| `Controller.SystemStatus.Upload` | app.py:221-251 | An empty frame gives "ERROR"/400, no state change and no archive file. Otherwise the state changes as `AfterUpload` says, the reply is the label with 200, and a readable frame is archived as `img_<timestamp>_<label>.jpg`. |
| `Controller.AfterTestUpload` | app.py:321-337 | With a named file, result, confidence and update time are replaced. Without one, nothing changes. The counters never change. |
| `Controller.SystemStatus.TestAiUpload` | app.py:321-337 | No file part gives "No file"/400. A file with an empty name gives "Error"/500. Otherwise the state changes as `AfterTestUpload` says, "Test AI" is logged with the label, and the answer is "success". |
| `Controller.SystemStatus.ExportExcel` | app.py:143-171 | Logs the export. Row i is numbered i+1 and holds the i-th record of the sorted accepted records. The rows' records are a permutation of the accepted records, in non-increasing `(date, time)` order. |
| `ActivityLog.Logged` | app.py:54-65 | The new entry is first, the old entries follow in order, and the length grows by one until it reaches 100, then stays there (the oldest is dropped). |
| `ActivityLog.Log.Append` | app.py:63-65 | Inserts at the front, pops the last entry past 100, keeps the length within 100, and leaves the list `Logged` describes. |
| `ActivityLog.LoggedAllKeepsNewest` | app.py:63-65 | After any run of entries, the log holds the newest entries first, then the old list, cut to 100. |
| `ActivityLog.LogRun` | app.py:63-65 | A fresh log fed a run of entries keeps the 100 newest, newest first. After 105 entries it holds exactly the last 100 of them. |
| `Inference.Classify` | app.py:78-83 | On the lower-cased class name: the label is "OK" iff it contains "ok". It is "NG" iff it contains "ng" but not "ok". Otherwise it is the name upper-cased. |
| `Inference.ClassifyIgnoresCase` | app.py:78 | Two class names with the same lower-case form get the same label. |
| `Inference.OkTestedBeforeNg` | app.py:81-82 | "ok_ng" is "OK", because "ok" is tested first. "Scratch_NG" is "NG". |
| `Inference.Infer` | app.py:68-88 | No model gives "MODEL ERROR"/"0%". No box gives "NO DETECT"/"0.0%". Otherwise the first box alone decides the label and the confidence. |
| `History.Timestamp` | app.py:243 | The timestamp is 15 characters: eight digits, an underscore, six digits. |
| `History.PaddedReadsBack` | app.py:243 | A zero-padded field of width w, read as a decimal number, is the number it was printed from, whenever that number is below 10^w. |
| `History.TimestampSpellsClock` | app.py:243 | Read as decimal numbers, the timestamp's year, month, day, hour, minute and second fields are the clock's fields. |
| `History.TimestampInjective` | app.py:243 | Two valid clock readings with the same timestamp are the same reading. |
| `History.ArchiveName` | app.py:244 | The written name starts with `img_` and ends with `.jpg`. It holds the timestamp right after `img_`, then `_`, then the result right before `.jpg`. |
| `History.DayFirst` | app.py:132 | The date shown is two characters longer than the field, and an 8-character `YYYYMMDD` field is shown as `DD/MM/YYYY`. |
| `History.Colons` | app.py:133 | The time shown is two characters longer than the field, and a 6-character `HHMMSS` field is shown as `HH:MM:SS`. |
| `History.ParseName` | app.py:129-138 | A name is accepted iff it starts with `img_`, ends with `.jpg`, and splits into at least three parts once every `.jpg` is removed. An accepted record keeps its file name. No name raises. |
| `History.ParseArchiveName` | app.py:131-134 | For an 8-character date and a 6-character time without `_` or `.`, and a result without `.`: parsing the written name gives the date as `DD/MM/YYYY` and the time as `HH:MM:SS`. The result is cut at its first underscore. |
| `History.ParseNameWithoutResult` | app.py:131-134 | A name `img_<date>_<time>.jpg` with no result part (8-character date, 6-character time, neither holding `_` or `.`) is accepted. Its date is shown day-first, its time with colons, and its result is "Unknown". |
| `History.ArchivedFrameReadsBack` | app.py:243-244 | The name written for a clock reading and a label without `_` or `.` parses back to that day, month and year, that time, and that label. |
| `History.AcceptedMembers` | app.py:128-138 | The records are exactly those of the parseable names: every record comes from a listed name whose parse it is, and every parseable listed name has its record. |
| `History.AcceptedCounts` | app.py:128-138 | A parseable name's record is collected exactly as often as the name is listed: no record is repeated or dropped. |
| `History.CollectRecords` | app.py:128-138 | The scan loop collects exactly `Accepted` of the listing, in listing order. |
| `History.FullHistory` | app.py:124-140 | The history is the stable descending sort of the accepted records, a permutation of them, ordered non-increasingly by `(date, time)`. |
| `History.DayFirstOrderIsNotChronological` | app.py:132-139 | A frame of 31 January 2024 is listed before one of 1 February 2024. |
| `History.ExportRows` | app.py:149-171 | Row i holds number i+1 and the i-th record of the full-history order. The rows are a permutation of the accepted records, sorted by `(date, time)`. |
| `History.JpgNames` | app.py:317 | Exactly the listed names that end in `.jpg`, each as often as it is listed. |
| `History.RecentImages` | app.py:314-319 | At most 12 names (fewer only when there are fewer `.jpg` names), in reverse string order. They are a sub-multiset of the listed `.jpg` names, so no name appears more often than it is listed. Every `.jpg` name left out is ordered at or below every name returned. |
| `Order.SortDescSorted` | app.py:139 | The sort's output is in non-increasing key order. |
| `Order.SortDesc` | app.py:139 | The sort's output is a permutation of its input. |
| `Order.SortDescStable` | app.py:139 | Elements that share a key come out in the order they went in. |
| `Order.KeyLeTrans` | app.py:139 | Tuple comparison of `(date, time)` keys is transitive. |
| `Order.KeyLeTotal` | app.py:139 | Any two `(date, time)` keys are comparable. |
| `PyStr.SplitJoin` | app.py:131 | Joining the parts of `split('_')` with `_` gives the string back. |
| `PyStr.SplitPartsFree` | app.py:131 | No part of `split('_')` holds `_`; with `PyStr.SplitJoin` this fixes the parts uniquely. |
| `PyStr.RemoveTrailing` | app.py:131 | Removing `.jpg` from a body without dots followed by `.jpg` leaves the body. |
| `Protocol.Run` | app.py:272-337 | Any sequence of handler calls keeps the invariant: both flags present and `ok + ng <= total`. |
| `Protocol.Step` | app.py:272-337 | One handler call keeps the invariant, and it yields a poll reply iff it is the device poll. |
| `Protocol.TriggerAtMostOncePerCapture` | app.py:286-303 | Over any run, the polls that report the trigger, plus a trigger still pending, never outnumber the captures plus a trigger pending at the start. |
| `Protocol.PollReportsPendingCapture` | app.py:286-303 | A poll reports the trigger iff a capture came since the previous poll, or one was pending, and it clears the trigger. |
| `Protocol.ValveNeverReported` | app.py:297-309 | Over any run, no poll reply carries `valve: true`. |
| `Protocol.ConveyorIsLevel` | app.py:297-309 | Unless a call controls the conveyor, it keeps its value through any run, polls included, and every poll reports that value. |
| `Protocol.TotalCountsFrames` | app.py:224-233 | Over any run, `total` grows by exactly the number of non-empty frames uploaded. |
| `Protocol.CaptureThenPollTwice` | app.py:284-309 | After a capture, the first poll reports the trigger and the second does not. |
| `Protocol.ValveCommandIsLost` | app.py:254-309 | After "valve on", the flag is set, but the poll that clears it reports it off. |
| `Protocol.OkFrameIsCounted` | app.py:221-251 | A frame whose first box is "ok_part" at 92.0 is answered "OK" with 200. It counts as total 1, ok 1, ng 0, with confidence "92.0%". |
| `Protocol.PollWithCopy` | app.py:305-307 | The corrected poll: the same state change as `Poll`, but the reply carries the map as it was before the valve reset. |
| `Protocol.CorrectedStep` | app.py:272-337 | One handler call with the corrected poll keeps the invariant, yields a reply iff it is the poll, and acts as the call as written otherwise. |
| `Protocol.CorrectedRun` | app.py:272-337 | Any sequence of handler calls with the corrected poll keeps the invariant. |
| `Protocol.CorrectedValveAtMostOncePerCommand` | app.py:305-307 | With the corrected poll, over any run, the polls that report the valve plus a valve still set at the end never outnumber the "valve on" calls plus a valve set at the start. |
| `Protocol.CorrectedPollReportsValve` | app.py:305-307 | With the corrected poll and no poll or valve control in between, the next poll reports the valve iff it was set, and clears it. |
| `Protocol.CorrectedValveDelivered` | app.py:254-307 | With the corrected poll, after "valve on" and any calls that neither poll nor control the valve, the first poll reports `valve: true` and the flag is then cleared. |

## Left out

- Loading and running the YOLO detector: it is a foreign library. Its answer is the input `Detection`: no model, or the boxes in the detector's order, with class names.
- Formatting the confidence with `round(final_conf * 100, 1)`: this is floating point. Each box carries its formatted percentage as a string.
- Detector exceptions: a failure inside the library would end the request with a server error. The model has no such path.
- Image I/O: writing `live.jpg`, plotting boxes, `cv2.imread`/`imwrite`, and `file.save`. `Upload` takes a `decodable` flag for whether `imread` succeeds, and returns the archive name instead of writing the file.
- `os.listdir`: the directory listing is an input sequence of names.
- Clock reads (`time.time()`, `time.strftime`, `datetime.now()`): they are parameters, and the log time is a pre-formatted string.
- Flask routing, `request`, `session` and `jsonify`: the session user (with its "Unknown"/"System" default) is a parameter, and JSON bodies are small datatypes.
- The session state of `login` and `logout` (the `logged_in` flag and the user), their page rendering and redirects, and the `index` page: these are Flask session and template details. Their activity-log entries are modelled (`Controller.SystemStatus.Login`, `Controller.SystemStatus.Logout`).
- The read-only handlers `get_logs`, `get_stats` and `check_new_image`: they return stored fields unchanged.
- Spreadsheet rendering with pandas and openpyxl (title, meta cells, borders, column widths): only the rows and their numbering are modelled.
- Concurrency between request threads: the code has no locking, and each handler is one atomic step.
- `Inference.Classify`: does not model Unicode case mapping. `lower` and `upper` change only the ASCII letters.
- `Controller.SystemStatus.SetMode`: does not model `int()` failing on a non-numeric mode. The mode arrives as an integer.
- `Controller.SystemStatus.ControlHardware`: does not model a device or action that is not a string. Both arrive as optional strings.
- `History.Timestamp`: does not model years outside 1000-9999, whose `%Y` has no four-digit form.
- `History.ParseArchiveName`: is stated for results without `.`, so that removing `.jpg` cannot touch the result. Labels never contain `.jpg` in practice.
- `PyStr.RemoveAll`: states only that the result is no longer. `RemoveTrailing` gives the exact result for the names the archive writes.

## Findings

| source | as written | input that shows it | evidently intended | confidence | as-written member | corrected member |
|---|---|---|---|---|---|---|
| app.py:297-309 | `response["hw"]` is the live hardware dict itself. The valve is cleared at line 307, before `jsonify` at line 309, so the device is never sent `valve: true`. | `control_hardware` with `{"device": "valve", "action": "on"}`, then `GET /check_status`: the reply has `hw.valve == false`, and the flag is already cleared. | The comment at line 305 says the valve command is switched off after it has been sent. The poll should report `valve: true` once, then reset it. | high; not executed | `Protocol.ValveCommandIsLost` | `Protocol.PollWithCopy` |

`Protocol.ValveNeverReported` proves that the as-written poll never
delivers the valve command in any run. `Protocol.PollWithCopy` builds its
reply from a copy of the map taken before the reset. Its contract proves
that the reply's valve is the valve that was set and that the flag is
cleared afterwards. Over runs that use the corrected poll,
`Protocol.CorrectedValveDelivered` proves that the first poll after a valve
command reports it, when no other valve control comes in between. `Protocol.CorrectedValveAtMostOncePerCommand` proves
that no valve command is reported more than once. The handler
methods and `Protocol.Run` keep the as-written poll, because they describe
what the server does today.
