# vision-vm: capture-region store, frame stream and controller helpers in Dafny

vision-vm streams a virtual display to viewers. A headless browser plays a
video on an X display. The streaming server (`streaming_server.py`) grabs a
region of that display, encodes each grab as PNG and writes it to every
connected viewer as a length-prefixed frame. A FastAPI control API
(`control_api.py`) lets the controller move the region and report playback
telemetry. The viewer (`verify_stream.py`) reads the frames back and shows a
rolling fps. The controller (`remote_controller.py`) drives the browser: it
parses the crop option, normalises the video URL, and keeps the server's
telemetry and region up to date while the video plays.

This project models the sequential core of those four files:

- `StreamingServer` holds the shared `capture_region` store as a class, one field per dictionary key. It also holds the fps and client-count globals, the monitor reader used by the capture loop, and the startup geometry probe.
- `ControlApi` holds the two writers and the status reader. Each writer has a pure transition and a method on the store proved equal to it. A sequence of writes is folded by `ApplyAll`.
- `Wire` is the `"!Qd"` frame format: a 16-byte header holding a big-endian unsigned 64-bit payload length and then the big-endian IEEE 754-2008 binary64 timestamp (section 3.4), followed by the payload. `Bytes` holds the big-endian integers, and `Window` holds a `deque(maxlen=n)`.
- `ClientSession` is `handle_client`. A pure step function `Step` describes one pass of the loop, and `Serve` describes the whole session. The imperative `HandleClient` is proved to end in exactly the state `Serve` gives and to write exactly the encoding of the frames `Serve` records. The environment of a session is a sequence of ticks. Each tick carries:
  - the control writes served since the last tick;
  - the capture result (`None` for a failed grab);
  - whether `sendall` succeeded;
  - the clock reading.
- `VerifyStream` models the viewer. The socket is a `Connection` class whose `recv` returns a chunk size chosen by the network. `RecvExact`, `RecvFrame` and the receive loop of `run` are proved against the decoder in `Wire`.
- `TextParsing` models Python's `str.strip()`, `str.split(',')`, `int()` in base 10, and `str()` of an integer.
- `RemoteController` covers:
  - `_parse_crop`;
  - the `t=` logic of `load_video`;
  - the request bodies of `update_telemetry`, `set_duration` and `reset_roi`;
  - the loop of `monitor_playback`, with its status latch and region de-duplication.

Doubles that are only copied (the stored `current_time` and `duration`, and the
header timestamp) are kept as their eight bytes (`Float64`). Doubles used in
arithmetic are real numbers: the fps values and the controller's playback
times. The controller's numbers reach the server through a parameter
`toDouble`, which stands for JSON encoding followed by the server's decoding.

Where the code and its own documentation disagree, the model follows the
code:

- The module docstring (streaming_server.py:10-12) describes an 8-byte header holding only the length. `struct.calcsize("!Qd")` is 16: the length, then the timestamp.
- `handle_client`'s docstring (streaming_server.py:114-115) says the region is read fresh on every frame. The code re-reads it only when `f_count % 10 == 0`.
- Telemetry values are stored exactly as received (control_api.py:151-157). Nothing replaces NaN or infinities by 0.0.
- `video_status` is stored as any non-empty string, not one of a fixed set of states.

The server's fps update divides by `ts_history[-1] - ts_history[0]` with no
guard (streaming_server.py:156-157). When the oldest and the newest entry of
the 30-entry history are equal, it raises `ZeroDivisionError`. That happens
when every send time in the window is the same clock reading. A repeated
reading alone does not cause it while an older, different entry is still in
the window. The generic handler catches the error and the session ends.
`Exit.ZeroDivision` models that outcome, and `ClientSession.StepExits`
states exactly when it occurs.

The session also depends on `STREAM_FPS` (streaming_server.py:33), outside
the modelled loop:

- `interval = 1.0 / TARGET_FPS` (streaming_server.py:122) runs after `active_clients += 1` (:119) and before the `try` (:126).
- With `STREAM_FPS=0` every connection raises there. The `finally` block never runs, so `active_clients` grows by one for each connection, and the socket is not closed.
- With a negative `STREAM_FPS`, the `time.sleep(interval)` after a failed capture (:144) raises `ValueError`, which ends the session.
- The model takes `STREAM_FPS` to be positive.

## Model

| member | source | states |
|---|---|---|
| Bytes.FromToBigEndian | streaming_server.py:35-36 | reading back the k-byte big-endian encoding of any n < 256^k gives n |
| Bytes.ToFromBigEndian | verify_stream.py:33-34 | every byte string is the big-endian encoding of the number it denotes, at its own width |
| Window.Push | streaming_server.py:124 | appending to a deque of at most `cap` entries keeps at most `cap`, ends with the new entry, and equals the last `cap` entries of the old contents plus the new one |
| Window.LastPush | streaming_server.py:155 | trimming to the last n before each append gives the same window as trimming once after it |
| Window.LastPushPrefix | verify_stream.py:151 | the window after reading i+1 clock values is the push of reading i onto the window after i readings |
| Wire.UnpackPackHeader | verify_stream.py:86 | unpacking a packed header gives back the length and the timestamp bit pattern |
| Wire.PackUnpackHeader | streaming_server.py:150 | every 16-byte header is the packing of what it unpacks to |
| Wire.PackHeader | streaming_server.py:150 | `struct.pack("!Qd", len, t)`: the 8-byte big-endian length then the timestamp's 8 bytes, 16 in all; its inverse is `UnpackHeader` (`UnpackPackHeader`, `PackUnpackHeader`) |
| Wire.UnpackHeader | verify_stream.py:86 | `struct.unpack("!Qd", header)`: the length read from the first 8 bytes, always below 2^64, and the timestamp bytes |
| Wire.EncodeFrame | streaming_server.py:150-151 | a written frame is 16 + len(payload) bytes; its header unpacks to (len(payload), timestamp) and the payload follows it unchanged |
| Wire.EncodeFramesSnoc | streaming_server.py:151 | the bytes of frames sent one after another are the concatenation of each frame's bytes |
| Wire.EncodeFrames | streaming_server.py:151 | the bytes of frames written one after another on one socket; decoded by `DecodeEncodeFrames` |
| Wire.DecodeFrame | verify_stream.py:83-88 | a decoded frame, re-encoded and followed by the leftover bytes, is exactly the input; decoding fails exactly when the input is shorter than a header or than header plus declared length |
| Wire.DecodeEncodeFrame | verify_stream.py:85-87 | decoding the bytes of one frame followed by anything gives that frame and the rest |
| Wire.DecodeFrames | verify_stream.py:148-149 | `recv_frame` repeated until the stream has no whole frame at its front: the frames, in order, and the leftover bytes; its two round trips are `DecodeEncodeFrames` and `EncodeDecodeFrames` |
| Wire.EncodeDecodeFrames | verify_stream.py:83-88 | decoding loses and invents nothing: the frames found, encoded again and followed by the leftover bytes, give back the stream, and the leftover does not start with a whole frame |
| Wire.DecodeEncodeFrames | verify_stream.py:85-87 | the viewer decodes exactly the frames the server wrote, in order, with no bytes left over |
| StreamingServer.CaptureRegion.constructor | streaming_server.py:44-53 | the store starts as top 0, left 0, 1280x720, time and duration +0.0, not ended, status "playing", with a positive rectangle |
| StreamingServer.CaptureRegion.GetCaptureMonitor | streaming_server.py:63-79 | the monitor is the four rectangle fields copied from the store and nothing else, positive when the store is |
| StreamingServer.CaptureRegion.ReadCurrentTime | streaming_server.py:147-148 | the frame timestamp is the store's `current_time` |
| StreamingServer.Telemetry.constructor | streaming_server.py:58-59 | fps starts at 0.0 and the client count at 0 |
| StreamingServer.Telemetry.ClientConnected | streaming_server.py:118-119 | the client count goes up by one, and fps is unchanged |
| StreamingServer.Telemetry.ClientDisconnected | streaming_server.py:178-180 | the client count goes down by one, and fps is unchanged |
| StreamingServer.Telemetry.ReportFps | streaming_server.py:156-159 | fps becomes the reported value, and the client count is unchanged |
| StreamingServer.StartStreamServer | streaming_server.py:215-222 | startup succeeds exactly when the probed width and height are both positive, and otherwise reports those dimensions |
| ControlApi.ApplyRegionUpdate | control_api.py:136-147 | a non-positive width or height gives 400 "Invalid dimensions" and an unchanged store; otherwise the rectangle becomes exactly the request, including negative top/left, and every telemetry field is kept |
| ControlApi.ApplyTelemetryUpdate | control_api.py:149-158 | the rectangle is kept; current_time and is_ended are overwritten; video_status changes only to a non-empty request string; duration changes only to a present request value |
| ControlApi.ApplyAllKeepsPositive | control_api.py:138-145 | no sequence of region and telemetry writes makes a positive rectangle empty |
| ControlApi.DefaultStaysPositive | streaming_server.py:47-48 | from the initial store, width > 0 and height > 0 hold after any sequence of writes |
| ControlApi.TelemetryKeepsRectangle | control_api.py:151-157 | any run of telemetry writes leaves the rectangle unchanged |
| ControlApi.RegionKeepsTelemetry | control_api.py:141-145 | any run of region writes leaves every telemetry field unchanged |
| ControlApi.RegionAndTelemetryCommute | control_api.py:136-158 | a region write and a telemetry write give the same store in either order |
| ControlApi.WritesAreIdempotent | control_api.py:136-158 | repeating a region write or a telemetry write changes nothing more |
| ControlApi.Apply | control_api.py:136-158 | one control request served against the store: a region write or a telemetry write |
| ControlApi.ApplyAll | control_api.py:136-158 | the store after serving requests in order; its invariants are `ApplyAllKeepsPositive`, `TelemetryKeepsRectangle` and `RegionKeepsTelemetry` |
| ControlApi.UpdateRegion | control_api.py:136-147 | the method leaves the store and returns the reply that `ApplyRegionUpdate` gives |
| ControlApi.UpdateTelemetry | control_api.py:149-158 | the method leaves the store as `ApplyTelemetryUpdate` gives and replies ok |
| ControlApi.GetStatus | control_api.py:110-122 | the reply is "ok" with a copy of the whole region, the current fps and the client count |
| ControlApi.StatusOutlivesWrite | control_api.py:112-113 | a status reply taken before a region write still shows the region from before the write |
| ClientSession.Step | streaming_server.py:124 | after any pass of the loop the send-time history holds at most 30 entries |
| ClientSession.SessionFps | streaming_server.py:157 | `(len(ts_history) - 1) / (ts_history[-1] - ts_history[0])` in exact arithmetic, defined only when the span is not zero |
| ClientSession.StepExits | streaming_server.py:142-161 | a failed capture leaves the session running with its count, history and frames unchanged; a capture ends it as PackError exactly when its length is 2^64 or more, Disconnected exactly when it fits but `sendall` fails, ZeroDivision exactly when it was sent and the new history has a zero span; otherwise the frame is sent, stamped with the store's current_time, and counted; the reported fps changes only after a successful send with at least 2 history entries, and then becomes `SessionFps` of the new history; the client count is untouched |
| ClientSession.Start | streaming_server.py:123-134 | the locals on entry: f_count 0, empty history, no frames, the rectangle read once |
| ClientSession.Run | streaming_server.py:135-173 | the loop: passes until one ends the session or the ticks run out; its properties are `RunConsistent`, `RunSendsCaptures` and `RunHangsUp` |
| ClientSession.Serve | streaming_server.py:110-182 | the whole session: the client count raised, the loop (or the failed display open), the count lowered in `finally`; its properties are `ServeInvariants`, `ServeSendsCaptures`, `ServeDeliversAll` and `ServeStreamDecodes` |
| ClientSession.RunHangsUp | streaming_server.py:135-173 | when every capture fits the header and is sent, and clock readings increase and follow every send time already in the history, the loop ends only when the ticks run out |
| ClientSession.ServeDeliversAll | streaming_server.py:110-182 | a session whose captures all fit and are sent, with increasing clock readings, ends as a client hang-up having sent every successful capture, in capture order |
| ClientSession.SendConsistent | streaming_server.py:147-161 | sending a frame keeps the session consistent: frame timestamp equals the store's current_time at capture, rectangle i was read at frame i - i % 10, f_count counts frames |
| ClientSession.StepConsistent | streaming_server.py:135-161 | one pass of the loop keeps the session consistent |
| ClientSession.RunConsistent | streaming_server.py:135-173 | the loop keeps the session consistent, leaves the client count where it found it, and always ends with an exit reason |
| ClientSession.ServeInvariants | streaming_server.py:110-182 | a session's net effect on active_clients is zero; every frame carries the store's current_time at capture; no cached rectangle serves more than 10 frames; history at most 30; f_count equals the frames sent unless the fps division failed |
| ClientSession.StepPayloads | streaming_server.py:142-151 | one pass sends its capture or nothing; a pass that continues without sending had a failed capture |
| ClientSession.RunSendsCaptures | streaming_server.py:135-161 | the payloads sent extend the earlier ones by a prefix of the successful captures, and by all of them when the ticks run out |
| ClientSession.ServeSendsCaptures | streaming_server.py:142-151 | a failed capture writes nothing; the payloads sent are the successful captures in order, all of them when the client hangs up |
| ClientSession.ServeStreamDecodes | streaming_server.py:150-151 | decoding the bytes a session wrote gives exactly its frames, in order, with nothing left over |
| ClientSession.ServeCommands | control_api.py:136-158 | serving a sequence of control requests leaves the store as `ApplyAll` gives |
| ClientSession.ServeTick | streaming_server.py:136-161 | one imperative pass leaves store, counters and locals as `Step` says, and writes exactly the encoding of the frame it adds |
| ClientSession.HandleClient | streaming_server.py:110-182 | the session leaves store, fps and client count as `Serve` says, ends with `Serve`'s exit reason, and writes exactly the encoding of `Serve`'s frames |
| VerifyStream.Connection.Recv | verify_stream.py:75 | a read returns 1..bufsize bytes from the front of the stream, or no bytes exactly when the stream has ended |
| VerifyStream.RecvExact | verify_stream.py:70-80 | returns the next nbytes bytes in arrival order and consumes exactly them, or raises with the stream exhausted when it is shorter; each request is at most min(nbytes, 65536); at most nbytes requests on success; none for nbytes = 0 |
| VerifyStream.Join | verify_stream.py:80 | `b"".join(chunks)`: the chunks concatenated in arrival order; `RecvExact` proves it equals the next nbytes of the stream |
| VerifyStream.RecvFrame | verify_stream.py:83-88 | returns exactly the frame `DecodeFrame` finds at the front and consumes 16 + length bytes; a stream ending inside a frame raises; the frame is the first of the stream's frames |
| VerifyStream.RollingFps | verify_stream.py:168-173 | fps is never negative; it is positive exactly when there are at least 2 timestamps and time advanced, and then equals (n - 1) / elapsed |
| VerifyStream.ShownFps | verify_stream.py:151-173 | the fps values shown for the first n arrivals: one per decodable frame, in order, each the rolling fps of the 60-entry window just after that arrival; none is negative |
| VerifyStream.Run | verify_stream.py:144-196 | the frames received are, in order, a prefix of the frames the server wrote, all of them when the stream ends; the window is the last 60 arrival times; the fps values shown are exactly `ShownFps` of the frames received, so each is the window's rolling fps at its frame, and none is negative |
| TextParsing.TrimStart | remote_controller.py:387 | drops exactly the leading whitespace: the result is a suffix, what was dropped is all whitespace, and the result does not start with whitespace |
| TextParsing.TrimEnd | remote_controller.py:387 | drops exactly the trailing whitespace: the result is a prefix, what was dropped is all whitespace, and the result does not end with whitespace |
| TextParsing.Strip | remote_controller.py:387 | `str.strip()`: drops the leading then the trailing whitespace; properties in `StripPadded` and `StripIdempotent` |
| TextParsing.StripPadded | remote_controller.py:387 | stripping a text with no surrounding whitespace, padded by any whitespace, gives back the text |
| TextParsing.StripIdempotent | remote_controller.py:387 | stripping twice is stripping once |
| TextParsing.Split | remote_controller.py:387 | `split(',')` gives at least one field, no field holds a comma, and joining the fields with commas gives back the input |
| TextParsing.SplitJoinWith | remote_controller.py:387 | splitting comma-joined fields that hold no comma gives back the fields |
| TextParsing.ParseIntIgnoresStrip | remote_controller.py:387 | `int(v.strip())` is `int(v)` |
| TextParsing.ParseInt | remote_controller.py:387 | `int(s)`: the stripped text must be an optional sign and digits with single underscores between digits, else `None` (ValueError); `ParseShowInt` proves it inverts `ShowInt` |
| TextParsing.ShowInt | remote_controller.py:387 | `str(n)`: a minus sign for negative n, then the decimal digits, most significant first |
| TextParsing.DigitsValueShowNat | remote_controller.py:387 | reading the decimal digits of n gives n |
| TextParsing.ShowNatValid | remote_controller.py:387 | the decimal digits of n are a valid `int()` literal and hold no comma |
| TextParsing.StripShowInt | remote_controller.py:387 | `str(n)` has no surrounding whitespace and no comma |
| TextParsing.ParseSignedShowInt | remote_controller.py:387 | parsing `str(n)` with its sign gives n |
| TextParsing.ParseShowInt | remote_controller.py:387 | `int()` of `str(n)` with any whitespace around it gives n |
| RemoteController.ParseEach | remote_controller.py:387 | parsing every field succeeds exactly when each field parses, giving each value at its position; otherwise it fails with the first field that does not parse |
| RemoteController.ParseCrop | remote_controller.py:385-395 | succeeds exactly when there are 4 comma-separated fields that each parse as an integer; the first is left, the second top, then width and height, with no sign check; a wrong count reports the count and a bad field reports that field |
| RemoteController.FormatCrop | remote_controller.py:386 | the `X,Y,W,H` text of a region, left edge first, each number as `str()` writes it; `ParseFormatCrop` proves `ParseCrop` inverts it |
| RemoteController.SplitFormatCrop | remote_controller.py:387 | the text of a region splits into its four numbers, left first |
| RemoteController.ParseEachFour | remote_controller.py:387 | four fields that each parse give their four values in order |
| RemoteController.ParseFormatCrop | remote_controller.py:385-395 | parsing the `X,Y,W,H` text of any region gives the region back |
| RemoteController.NormaliseUrl | remote_controller.py:103-106 | the result always contains "t="; a URL that already contains it is unchanged; otherwise "t=0" is appended after "&" when the URL has "?" and after "?" when it has none |
| RemoteController.NormaliseIdempotent | remote_controller.py:103-106 | normalising twice is normalising once |
| RemoteController.ContainsT | remote_controller.py:94 | `"t=" in url`: some position holds `t` followed by `=` |
| RemoteController.DigitRun | remote_controller.py:96 | the run of leading digits is maximal: all digits, followed by a non-digit or the end |
| RemoteController.DigitRunStops | remote_controller.py:96 | digits followed by a non-digit or the end are matched whole by the greedy `\d+` |
| RemoteController.MatchAt | remote_controller.py:96 | the value of the digit group when `[?&]t=(\d+)` matches at a position, else none |
| RemoteController.SearchFrom | remote_controller.py:96 | `re.search` from a position: the value at the leftmost matching position at or after it |
| RemoteController.StartTime | remote_controller.py:92-98 | a positive start time is only found in a URL that contains "t=" |
| RemoteController.MatchHere | remote_controller.py:96-97 | where `?t=` or `&t=` stands before a digit run, the match there reads the whole run as a decimal number |
| RemoteController.StartTimeFirstMatch | remote_controller.py:93-98 | when no earlier position matches, the start time is the digit run after the first `?t=` or `&t=` read as a decimal number, leading zeros included (`007` gives 7), whatever follows the run |
| RemoteController.StartTimeFirstMatchShown | remote_controller.py:93-98 | the canonical case: when the first match is followed by the digits of n, the start time is n |
| RemoteController.StartTimeNoMatch | remote_controller.py:93-98 | a URL in which `[?&]t=` followed by a digit occurs nowhere starts from 0 |
| RemoteController.SearchSkips | remote_controller.py:96 | a search starting before positions where the pattern cannot match finds what a search starting after them finds |
| RemoteController.ResumeFrom | remote_controller.py:92-98 | a URL without "t=" given "?t=n" or "&t=n" starts from n |
| RemoteController.StartTimeNormalised | remote_controller.py:92-106 | normalising the URL never changes the start time |
| RemoteController.ListParameterSuppressesResume | remote_controller.py:104 | a "list=" parameter already counts as "t=": such a URL gets no "t=0" and starts from 0 |
| RemoteController.TelemetryPayload | remote_controller.py:326-331 | the body carries the time and ended flag as given and no duration; video_status is included exactly when it is a non-empty string |
| RemoteController.TelemetryPayloadApplied | remote_controller.py:318-337 | the server takes the time and ended flag, takes the status only when one was sent, and keeps the duration and rectangle |
| RemoteController.DurationPayload | remote_controller.py:346-350 | `set_duration`'s body: current_time 0.0, is_ended false and the duration; its effect is `DurationResetsPlayhead` |
| RemoteController.DurationResetsPlayhead | remote_controller.py:346-350 | a duration body rewinds the server's playhead to +0.0 and clears is_ended, stores the duration, and keeps status and rectangle |
| RemoteController.ResetRoiPayload | remote_controller.py:375-380 | `reset_roi`'s body: top 0, left 0, 1280x720; its effect is `ResetRestoresDefault` |
| RemoteController.ResetRestoresDefault | remote_controller.py:373-382 | the reset body is accepted and makes the rectangle the default 1280x720 one, keeping every telemetry field |
| RemoteController.NextStatus | remote_controller.py:444-449 | the status becomes "complete" exactly when it was already complete, the video ended, or duration > 0 and time >= duration - 1.0; otherwise it is unchanged |
| RemoteController.PollStep | remote_controller.py:433-466 | one iteration as a function of the loop state: the status latch and telemetry post, following the URL, posting a changed region; properties in `PollStepRegions`, `PollStepTelemetry` and `StatusCompleteIffSawEnd` |
| RemoteController.MonitorSpec | remote_controller.py:430-466 | the loop state after the polls, in order |
| RemoteController.MonitorTick | remote_controller.py:433-466 | one imperative iteration leaves status, URL, last region and posted bodies as `PollStep` says |
| RemoteController.MonitorPlayback | remote_controller.py:417-466 | the loop over any run of polls ends in the state `MonitorSpec` gives |
| RemoteController.StatusCompleteIffSawEnd | remote_controller.py:429-449 | the status starts "playing", is "complete" exactly when some reading so far signalled the end, and never goes back |
| RemoteController.TelemetrySentAppend | remote_controller.py:451 | the telemetry bodies of two runs of requests are those of the first followed by those of the second |
| RemoteController.PollStepTelemetry | remote_controller.py:443-451 | a poll posts one telemetry body exactly when it has a reading, and that body carries the status after the poll's latch |
| RemoteController.TelemetryCarriesStatus | remote_controller.py:443-451 | the telemetry bodies posted are exactly `ExpectedTelemetry`: one per reading, in order, with its time and ended flag, and status "complete" exactly when that reading or an earlier one signalled the end, else "playing" |
| RemoteController.TelemetryStatusKnown | remote_controller.py:451 | every telemetry body posted names a status, "playing" or "complete" |
| RemoteController.RegionsSentAppend | remote_controller.py:465 | the regions posted by two runs of requests are those of the first followed by those of the second |
| RemoteController.PollStepRegions | remote_controller.py:462-466 | a poll posts its region exactly when one was detected and it differs from the last one, which then becomes it |
| RemoteController.RegionsDeduplicated | remote_controller.py:462-466 | no region is posted twice in a row, the first differs from the starting region, and the last region remembered is the last one posted |

## Left out

- Threads and locks: each lock-guarded body is one atomic method. Control writes interleave with a streaming session only between passes of its loop.
- Screen grabs (mss) and PNG encoding and decoding (cv2): a capture is an opaque `Option` of bytes, and a decode only says whether it succeeded.
- Sockets, HTTP, FastAPI routing and pydantic validation, JSON, the Chrome/CDP controller and all Playwright page interaction. These are foreign I/O; page readings enter as values in `Poll`.
- Pacing sleeps, `time.monotonic` and the capture loop's timing: clock readings are inputs of each tick or frame.
- Floating-point rounding, NaN and infinities: fps and playback times are real numbers, and stored doubles are opaque bit patterns.
- `ClientSession.Serve`: the source loop never ends by itself; the model runs it over a finite tick sequence and ends it as a client hang-up when the ticks run out.
- `RemoteController.MonitorPlayback`: the source loops until interrupted; the model runs over a finite sequence of polls.
- `ClientSession.Serve`: `STREAM_FPS` is taken to be positive. With 0 the session raises before its `try` block, so `active_clients` is never decremented and leaks one per connection; with a negative value the first failed capture ends the session through `ValueError` from `time.sleep`.
- `ClientSession.Step`: a failed `sendall` ends the session without modelling the partial bytes it may have written.
- The viewer's `poll_status` thread and `overlay_diagnostics`: HTTP polling and drawing. `poll_status` reads a `"video"` key that `get_status` never returns.
- The viewer's auto-close on a "complete" status, its 'q' key, window-title updates and the `KeyboardInterrupt` exit: GUI and process control. The modelled loop stops only when the stream ends or the clock readings run out.
- Log lines, including the rate-limited ROI log in `_get_capture_monitor`.
- `calculate_video_region` and `get_playback_state`: these read the page through Playwright. Detected regions enter as values.
- The command-line entry points of all three programs, `capture_heartbeat.py` (benchmark timing and file output) and `main.py` (process wiring).
- `TextParsing.ParseInt`: only ASCII digits are digits, although Python's `int()` also accepts other Unicode decimal digits. The same holds for `\d` in `RemoteController.MatchAt`. Python's limit on integer string conversion is also left out: `int()` and `str()` raise `ValueError` beyond 4300 decimal digits (`sys.int_info.default_max_str_digits`), while `ParseInt` and `ShowInt` accept any length, so `ParseShowInt` and `ParseFormatCrop` hold in Python only for numbers of at most 4300 digits.
- `RemoteController.ParseCrop`: the two `ValueError`s of `_parse_crop` are told apart (`InvalidLiteral` and `WrongCount`); the source raises the same exception type for both.
