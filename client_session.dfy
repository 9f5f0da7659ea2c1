/**
  One streaming session (`handle_client`): the per-client loop that
  captures the cached rectangle, stamps each frame with the store's
  `current_time`, writes header and payload to the socket, keeps a
  30-entry history of send times for the fps estimate, and refreshes the
  cached rectangle every tenth frame.

  The environment of one session is a sequence of ticks. A tick carries
  the control requests the command channel served since the previous tick
  (so writers interleave with the session at tick boundaries), the result
  of the opaque capture-and-encode call, whether `sendall` succeeded, and
  the monotonic clock reading taken after the send. Pacing sleeps are not
  modelled. The source's loop only ends by an exception; when the ticks
  run out, the model ends the session as a hang-up by the client.
*/
module ClientSession {
  import opened Bytes
  import opened Wrappers
  import opened Wire
  import Window
  import opened StreamingServer
  import opened ControlApi

  /** The cached rectangle is re-read when `f_count % RefreshInterval == 0`. */
  const RefreshInterval: nat := 10

  /** `ts_history = deque(maxlen=30)`. */
  const HistoryLimit: nat := 30

  datatype Tick = Tick(
    commands: seq<Command>,
    capture: Option<seq<byte>>,
    sendOk: bool,
    clock: real)

  /** How a session ends; every way runs the `finally` block. */
  datatype Exit =
    | DeviceUnavailable  // the per-session display handle could not be opened
    | Disconnected       // `sendall` failed: broken pipe, reset, other OSError
    | PackError          // `struct.pack` refused a payload length of 2^64 or more
    | ZeroDivision       // the fps formula divided by a zero time span
    | Hangup             // no more ticks: the client went away

  /** The shared state a session touches: the capture region and the two telemetry globals. */
  datatype World = World(region: Region, fps: real, clients: int)

  /**
    The session's locals, with three ghost-like records kept for the
    proofs: `views[i]` is the store as the session saw it when it captured
    frame `i`, and `rects[i]` the rectangle that capture used.
  */
  datatype Session = Session(
    fCount: nat,
    monitor: Monitor,
    history: seq<real>,
    frames: seq<Frame>,
    views: seq<Region>,
    rects: seq<Monitor>,
    exit: Option<Exit>)

  /** `(len(ts_history) - 1) / (ts_history[-1] - ts_history[0])`, in exact arithmetic. */
  function SessionFps(h: seq<real>): real
    requires |h| > 1 && h[|h| - 1] != h[0]
  {
    (|h| - 1) as real / (h[|h| - 1] - h[0])
  }

  /** The fps division fails: the oldest and newest send times of the history are equal. */
  predicate ZeroSpan(h: seq<real>)
  {
    |h| > 1 && h[|h| - 1] == h[0]
  }

  /** One pass of the `while True` loop. */
  function Step(w: World, s: Session, t: Tick): (r: (World, Session))
    requires |s.history| <= HistoryLimit
    ensures |r.1.history| <= HistoryLimit
  {
    var region := ApplyAll(w.region, t.commands);
    var monitor := if s.fCount % RefreshInterval == 0 then MonitorOf(region) else s.monitor;
    var w1 := w.(region := region);
    var s1 := s.(monitor := monitor);
    match t.capture
    case None => (w1, s1)
    case Some(png) =>
      if |png| >= TwoTo64 then (w1, s1.(exit := Some(PackError)))
      else if !t.sendOk then (w1, s1.(exit := Some(Disconnected)))
      else
        var history := Window.Push(s.history, t.clock, HistoryLimit);
        var s2 := s1.(history := history,
                      frames := s.frames + [Frame(png, region.currentTime)],
                      views := s.views + [region],
                      rects := s.rects + [monitor]);
        if ZeroSpan(history) then
          (w1, s2.(exit := Some(ZeroDivision)))
        else if |history| > 1 then
          (w1.(fps := SessionFps(history)), s2.(fCount := s.fCount + 1))
        else
          (w1, s2.(fCount := s.fCount + 1))
  }

  function Run(w: World, s: Session, ticks: seq<Tick>): (World, Session)
    requires |s.history| <= HistoryLimit
    decreases |ticks|
  {
    if s.exit.Some? then (w, s)
    else if ticks == [] then (w, s.(exit := Some(Hangup)))
    else
      var (w', s') := Step(w, s, ticks[0]);
      Run(w', s', ticks[1..])
  }

  /** The session's locals on entry: no frames yet, the rectangle read once. */
  function Start(region: Region): Session
  {
    Session(0, MonitorOf(region), [], [], [], [], None)
  }

  /** The whole of `handle_client`, from the counter increment to the `finally` block. */
  function Serve(w: World, deviceOk: bool, ticks: seq<Tick>): (World, Session)
  {
    if !deviceOk then (w, Start(w.region).(exit := Some(DeviceUnavailable)))
    else
      var (w', s) := Run(w.(clients := w.clients + 1), Start(w.region), ticks);
      (w'.(clients := w'.clients - 1), s)
  }

  /** The payloads of a sequence of frames. */
  function Payloads(fs: seq<Frame>): (ps: seq<seq<byte>>)
    ensures |ps| == |fs|
    ensures forall i :: 0 <= i < |fs| ==> ps[i] == fs[i].payload
  {
    if fs == [] then [] else [fs[0].payload] + Payloads(fs[1..])
  }

  /** The payloads of the successful captures among `ticks`, in order. */
  function Captures(ticks: seq<Tick>): seq<seq<byte>>
  {
    if ticks == [] then []
    else (if ticks[0].capture.Some? then [ticks[0].capture.value] else []) + Captures(ticks[1..])
  }

  predicate IsPrefix<T(==)>(a: seq<T>, b: seq<T>)
  {
    |a| <= |b| && a == b[..|a|]
  }

  /**
    What holds of a session's state between ticks: the bookkeeping lines
    up with the frames, every frame carries the `current_time` of the
    store it was captured under, frame `i` used the rectangle read when
    frame `i - i % 10` was captured, and the cached rectangle is the one
    the next frame will use.
  */
  ghost predicate Consistent(s: Session)
  {
    && |s.views| == |s.frames| && |s.rects| == |s.frames|
    && |s.history| <= HistoryLimit
    && AllPackable(s.frames)
    && (s.exit != Some(ZeroDivision) ==> s.fCount == |s.frames|)
    && (s.exit == Some(ZeroDivision) ==> s.fCount + 1 == |s.frames|)
    && (forall i :: 0 <= i < |s.frames| ==> s.frames[i].timestamp == s.views[i].currentTime)
    && (forall i :: 0 <= i < |s.rects| ==> s.rects[i] == MonitorOf(s.views[i - i % RefreshInterval]))
    && (s.exit.None? && s.fCount % RefreshInterval != 0 ==>
          s.monitor == MonitorOf(s.views[s.fCount - s.fCount % RefreshInterval]))
  }

  lemma RefreshArithmetic(f: nat)
    ensures f % RefreshInterval == 0 ==> (f + 1) - (f + 1) % RefreshInterval == f
    ensures f % RefreshInterval != 0 && (f + 1) % RefreshInterval != 0 ==>
      (f + 1) - (f + 1) % RefreshInterval == f - f % RefreshInterval
  {
  }

  /** Sending one frame keeps the session consistent, whether or not the fps update then fails. */
  lemma SendConsistent(s: Session, region: Region, monitor: Monitor, png: seq<byte>, history: seq<real>)
    requires Consistent(s) && s.exit.None?
    requires monitor == if s.fCount % RefreshInterval == 0 then MonitorOf(region) else s.monitor
    requires |png| < TwoTo64 && |history| <= HistoryLimit
    ensures var s2 := s.(monitor := monitor, history := history,
                         frames := s.frames + [Frame(png, region.currentTime)],
                         views := s.views + [region],
                         rects := s.rects + [monitor]);
      Consistent(s2.(fCount := s.fCount + 1)) && Consistent(s2.(exit := Some(ZeroDivision)))
  {
    var f := s.fCount;
    var views := s.views + [region];
    var rects := s.rects + [monitor];
    RefreshArithmetic(f);
    assert rects[f] == MonitorOf(views[f - f % RefreshInterval]);
    assert forall i :: 0 <= i < |rects| ==> rects[i] == MonitorOf(views[i - i % RefreshInterval]) by {
      forall i | 0 <= i < |rects|
        ensures rects[i] == MonitorOf(views[i - i % RefreshInterval])
      {
        if i < f {
          assert rects[i] == s.rects[i];
          assert views[i - i % RefreshInterval] == s.views[i - i % RefreshInterval];
        }
      }
    }
    var frames := s.frames + [Frame(png, region.currentTime)];
    assert AllPackable(frames) by {
      forall i | 0 <= i < |frames| ensures Packable(frames[i]) {
        if i < f { assert frames[i] == s.frames[i]; }
      }
    }
  }

  lemma StepConsistent(w: World, s: Session, t: Tick)
    requires Consistent(s) && s.exit.None?
    ensures Consistent(Step(w, s, t).1)
  {
    var region := ApplyAll(w.region, t.commands);
    var monitor := if s.fCount % RefreshInterval == 0 then MonitorOf(region) else s.monitor;
    match t.capture
    case None =>
    case Some(png) =>
      if |png| < TwoTo64 && t.sendOk {
        SendConsistent(s, region, monitor, png, Window.Push(s.history, t.clock, HistoryLimit));
      }
  }

  lemma {:induction false} RunConsistent(w: World, s: Session, ticks: seq<Tick>)
    requires Consistent(s)
    ensures Consistent(Run(w, s, ticks).1)
    ensures Run(w, s, ticks).0.clients == w.clients
    ensures Run(w, s, ticks).1.exit.Some?
    decreases |ticks|
  {
    if s.exit.None? && ticks != [] {
      StepConsistent(w, s, ticks[0]);
      var (w', s') := Step(w, s, ticks[0]);
      RunConsistent(w', s', ticks[1..]);
    }
  }

  /**
    A session leaves `active_clients` as it found it, however its loop
    ends (for a positive `STREAM_FPS`, see the README);
    every frame it sent carries the store's `current_time` at capture, not
    a clock reading; and no cached rectangle serves more than ten frames:
    frame `i` was captured with the rectangle the store held when frame
    `i - i % 10` was captured.
  */
  lemma ServeInvariants(w: World, deviceOk: bool, ticks: seq<Tick>)
    ensures var (w', s) := Serve(w, deviceOk, ticks);
      && w'.clients == w.clients
      && s.exit.Some?
      && |s.history| <= HistoryLimit
      && |s.views| == |s.frames| && |s.rects| == |s.frames|
      && AllPackable(s.frames)
      && (forall i :: 0 <= i < |s.frames| ==> s.frames[i].timestamp == s.views[i].currentTime)
      && (forall i :: 0 <= i < |s.rects| ==> s.rects[i] == MonitorOf(s.views[i - i % RefreshInterval]))
      && (s.exit != Some(ZeroDivision) ==> s.fCount == |s.frames|)
  {
    if deviceOk {
      RunConsistent(w.(clients := w.clients + 1), Start(w.region), ticks);
    }
  }

  lemma PayloadsSnoc(fs: seq<Frame>, f: Frame)
    ensures Payloads(fs + [f]) == Payloads(fs) + [f.payload]
  {
  }

  /** One tick sends its capture, or nothing; only a failed capture lets the session go on without sending. */
  lemma StepPayloads(w: World, s: Session, t: Tick)
    requires |s.history| <= HistoryLimit && s.exit.None?
    ensures var s' := Step(w, s, t).1;
      var added := if t.capture.Some? then [t.capture.value] else [];
      && s'.exit != Some(Hangup)
      && (s'.exit.None? ==> Payloads(s'.frames) == Payloads(s.frames) + added)
      && (Payloads(s'.frames) == Payloads(s.frames) || Payloads(s'.frames) == Payloads(s.frames) + added)
  {
    var s' := Step(w, s, t).1;
    if |s'.frames| > |s.frames| {
      PayloadsSnoc(s.frames, s'.frames[|s'.frames| - 1]);
    }
  }

  /**
    How one pass ends. A failed capture skips the pass: the session goes on
    with its count, history and frames as they were. A successful capture
    ends the session when its length does not fit the header, when
    `sendall` fails, or when the fps division meets a zero span; otherwise
    the frame is sent, stamped and counted.
  */
  lemma StepExits(w: World, s: Session, t: Tick)
    requires |s.history| <= HistoryLimit && s.exit.None?
    ensures var r := Step(w, s, t).1;
      && (t.capture.None? ==> r.exit.None? && r.fCount == s.fCount && r.history == s.history && r.frames == s.frames)
      && (r.exit == Some(PackError) <==> t.capture.Some? && |t.capture.value| >= TwoTo64)
      && (r.exit == Some(Disconnected) <==> t.capture.Some? && |t.capture.value| < TwoTo64 && !t.sendOk)
      && (r.exit == Some(ZeroDivision) <==>
            t.capture.Some? && |t.capture.value| < TwoTo64 && t.sendOk &&
            ZeroSpan(Window.Push(s.history, t.clock, HistoryLimit)))
      && r.exit != Some(Hangup) && r.exit != Some(DeviceUnavailable)
      && (t.capture.Some? && r.exit.None? ==>
            && r.fCount == s.fCount + 1
            && r.history == Window.Push(s.history, t.clock, HistoryLimit)
            && r.frames == s.frames + [Frame(t.capture.value, ApplyAll(w.region, t.commands).currentTime)])
    ensures var (w', r) := Step(w, s, t);
      && w'.region == ApplyAll(w.region, t.commands) && w'.clients == w.clients
      && (if t.capture.Some? && r.exit.None? && |r.history| > 1
          then !ZeroSpan(r.history) && w'.fps == SessionFps(r.history)
          else w'.fps == w.fps)
  {
  }

  /** Every capture fits the header and its send succeeds. */
  predicate Deliverable(ticks: seq<Tick>)
  {
    forall i :: 0 <= i < |ticks| && ticks[i].capture.Some? ==> ticks[i].sendOk && |ticks[i].capture.value| < TwoTo64
  }

  /** The clock readings strictly increase from tick to tick. */
  predicate ClockIncreasing(ticks: seq<Tick>)
  {
    forall i, j :: 0 <= i < j < |ticks| ==> ticks[i].clock < ticks[j].clock
  }

  /** Every send time in the history precedes every clock reading still to come. */
  predicate Earlier(h: seq<real>, ticks: seq<Tick>)
  {
    forall y, i :: y in h && 0 <= i < |ticks| ==> y < ticks[i].clock
  }

  /** With such ticks no pass ends the session, so it runs until the ticks run out. */
  lemma {:induction false} RunHangsUp(w: World, s: Session, ticks: seq<Tick>)
    requires |s.history| <= HistoryLimit && s.exit.None?
    requires Deliverable(ticks) && ClockIncreasing(ticks) && Earlier(s.history, ticks)
    ensures Run(w, s, ticks).1.exit == Some(Hangup)
    decreases |ticks|
  {
    if ticks != [] {
      var t := ticks[0];
      var h := Window.Push(s.history, t.clock, HistoryLimit);
      StepExits(w, s, t);
      Window.PushEntries(s.history, t.clock, HistoryLimit);
      assert !ZeroSpan(h) by {
        if |h| > 1 {
          assert h[0] in s.history;
        }
      }
      var step := Step(w, s, t);
      assert step.1.exit.None?;
      var rest := ticks[1..];
      assert step.1.history == s.history || step.1.history == h;
      forall y, i | y in step.1.history && 0 <= i < |rest|
        ensures y < rest[i].clock
      {
        assert rest[i] == ticks[i + 1];
      }
      assert Deliverable(rest) by {
        forall i | 0 <= i < |rest| ensures rest[i] == ticks[i + 1] { }
      }
      assert ClockIncreasing(rest) by {
        forall i | 0 <= i < |rest| ensures rest[i] == ticks[i + 1] { }
      }
      RunHangsUp(step.0, step.1, rest);
    }
  }

  /**
    A session whose captures all fit the header and reach the client, with
    clock readings that keep growing, ends only when the client goes away,
    and by then has sent every successful capture, in capture order.
  */
  lemma ServeDeliversAll(w: World, ticks: seq<Tick>)
    requires Deliverable(ticks) && ClockIncreasing(ticks)
    ensures Serve(w, true, ticks).1.exit == Some(Hangup)
    ensures Payloads(Serve(w, true, ticks).1.frames) == Captures(ticks)
  {
    var w1, s0 := w.(clients := w.clients + 1), Start(w.region);
    assert Earlier(s0.history, ticks) by { assert s0.history == []; }
    RunHangsUp(w1, s0, ticks);
    assert Serve(w, true, ticks).1 == Run(w1, s0, ticks).1;
    ServeSendsCaptures(w, ticks);
  }

  lemma PrefixOfConcat<T>(a: seq<T>, b: seq<T>)
    ensures IsPrefix(a, a + b)
  {
    assert (a + b)[..|a|] == a;
  }

  lemma CapturesCons(ticks: seq<Tick>)
    requires ticks != []
    ensures Captures(ticks) == (if ticks[0].capture.Some? then [ticks[0].capture.value] else []) + Captures(ticks[1..])
  {
  }

  lemma {:induction false} RunSendsCaptures(w: World, s: Session, ticks: seq<Tick>)
    requires |s.history| <= HistoryLimit && s.exit.None?
    ensures var s' := Run(w, s, ticks).1;
      && IsPrefix(Payloads(s'.frames), Payloads(s.frames) + Captures(ticks))
      && (s'.exit == Some(Hangup) ==> Payloads(s'.frames) == Payloads(s.frames) + Captures(ticks))
    decreases |ticks|
  {
    if ticks != [] {
      var step := Step(w, s, ticks[0]);
      var before := Payloads(s.frames);
      var added := if ticks[0].capture.Some? then [ticks[0].capture.value] else [];
      var later := Captures(ticks[1..]);
      StepPayloads(w, s, ticks[0]);
      CapturesCons(ticks);
      assert before + Captures(ticks) == (before + added) + later;
      if step.1.exit.None? {
        RunSendsCaptures(step.0, step.1, ticks[1..]);
      } else {
        PrefixOfConcat(before, added + later);
        PrefixOfConcat(before + added, later);
      }
    }
  }

  /**
    A failed capture writes nothing; the frames a session writes are its
    successful captures, in capture order, and when the session runs to
    the end of its ticks, all of them.
  */
  lemma ServeSendsCaptures(w: World, ticks: seq<Tick>)
    ensures var s := Serve(w, true, ticks).1;
      && IsPrefix(Payloads(s.frames), Captures(ticks))
      && (s.exit == Some(Hangup) ==> Payloads(s.frames) == Captures(ticks))
  {
    RunSendsCaptures(w.(clients := w.clients + 1), Start(w.region), ticks);
    assert Payloads([]) + Captures(ticks) == Captures(ticks);
  }

  /** What the viewer decodes from a session's socket is exactly the frames the session sent, in order. */
  lemma ServeStreamDecodes(w: World, deviceOk: bool, ticks: seq<Tick>)
    ensures AllPackable(Serve(w, deviceOk, ticks).1.frames)
    ensures DecodeFrames(EncodeFrames(Serve(w, deviceOk, ticks).1.frames)) == (Serve(w, deviceOk, ticks).1.frames, [])
  {
    ServeInvariants(w, deviceOk, ticks);
    DecodeEncodeFrames(Serve(w, deviceOk, ticks).1.frames);
  }

  /** The command channel serving requests against the shared store between two ticks. */
  method ServeCommands(store: CaptureRegion, cs: seq<Command>)
    modifies store
    ensures store.Snapshot() == ApplyAll(old(store.Snapshot()), cs)
  {
    for i := 0 to |cs|
      invariant store.Snapshot() == ApplyAll(old(store.Snapshot()), cs[..i])
    {
      assert cs[..i + 1][..i] == cs[..i];
      match cs[i] {
        case PostRegion(req) =>
          var _ := UpdateRegion(store, req);
        case PostTelemetry(req) =>
          var _ := UpdateTelemetry(store, req);
      }
    }
    assert cs[..|cs|] == cs;
  }

  /**
    One pass of `handle_client`'s loop against the shared store and
    counters: the writes served before it, the cached rectangle refreshed
    every tenth frame, then the capture, send and fps report. `frames`,
    `views` and `rects` record what was sent so far; `bytes` is what this
    pass writes to the socket.
  */
  method ServeTick(store: CaptureRegion, stats: Telemetry, t: Tick,
                   fCount: nat, monitor: Monitor, history: seq<real>,
                   ghost frames: seq<Frame>, ghost views: seq<Region>, ghost rects: seq<Monitor>)
    returns (fCount': nat, monitor': Monitor, history': seq<real>, closed: Option<Exit>, bytes: seq<byte>,
             ghost frames': seq<Frame>, ghost views': seq<Region>, ghost rects': seq<Monitor>)
    requires |history| <= HistoryLimit && AllPackable(frames)
    modifies store, stats
    ensures Step(World(old(store.Snapshot()), old(stats.currentFps), old(stats.activeClients)),
                 Session(fCount, monitor, history, frames, views, rects, None), t)
         == (World(store.Snapshot(), stats.currentFps, stats.activeClients),
             Session(fCount', monitor', history', frames', views', rects', closed))
    ensures AllPackable(frames') && EncodeFrames(frames') == EncodeFrames(frames) + bytes
  {
    ServeCommands(store, t.commands);
    monitor' := monitor;
    if fCount % RefreshInterval == 0 {
      monitor' := store.GetCaptureMonitor();
    }
    fCount', history', closed, bytes := fCount, history, None, [];
    frames', views', rects' := frames, views, rects;
    match t.capture {
      case None =>
      case Some(png) =>
        var vTime := store.ReadCurrentTime();
        if |png| >= TwoTo64 {
          closed := Some(PackError);
        } else if !t.sendOk {
          closed := Some(Disconnected);
        } else {
          var header := PackHeader(|png|, vTime);
          EncodeFramesSnoc(frames, Frame(png, vTime));
          bytes := header + png;
          frames' := frames + [Frame(png, vTime)];
          views' := views + [store.Snapshot()];
          rects' := rects + [monitor'];
          history' := Window.Push(history, t.clock, HistoryLimit);
          if |history'| > 1 && history'[|history'| - 1] == history'[0] {
            closed := Some(ZeroDivision);
          } else {
            if |history'| > 1 {
              stats.ReportFps(SessionFps(history'));
            }
            fCount' := fCount + 1;
          }
        }
    }
  }

  /**
    `handle_client`: returns the bytes written to the client socket and how
    the session ended; the shared store and counters end as `Serve` says.
  */
  method HandleClient(store: CaptureRegion, stats: Telemetry, deviceOk: bool, ticks: seq<Tick>)
    returns (wire: seq<byte>, exit: Exit)
    modifies store, stats
    ensures var (w, s) := Serve(World(old(store.Snapshot()), old(stats.currentFps), old(stats.activeClients)), deviceOk, ticks);
      && store.Snapshot() == w.region && stats.currentFps == w.fps && stats.activeClients == w.clients
      && s.exit == Some(exit)
      && AllPackable(s.frames) && wire == EncodeFrames(s.frames)
  {
    ghost var w0 := World(store.Snapshot(), stats.currentFps, stats.activeClients);
    stats.ClientConnected();
    if !deviceOk {
      stats.ClientDisconnected();
      return [], DeviceUnavailable;
    }
    var monitor := store.GetCaptureMonitor();
    var fCount: nat := 0;
    var history: seq<real> := [];
    var closed: Option<Exit> := None;
    ghost var frames: seq<Frame> := [];
    ghost var views: seq<Region> := [];
    ghost var rects: seq<Monitor> := [];
    ghost var goal := Run(w0.(clients := w0.clients + 1), Start(w0.region), ticks);
    wire := [];
    var i := 0;
    while i < |ticks| && closed.None?
      invariant 0 <= i <= |ticks|
      invariant |history| <= HistoryLimit
      invariant AllPackable(frames) && wire == EncodeFrames(frames)
      invariant Run(World(store.Snapshot(), stats.currentFps, stats.activeClients),
                    Session(fCount, monitor, history, frames, views, rects, closed), ticks[i..]) == goal
    {
      assert ticks[i..][0] == ticks[i] && ticks[i..][1..] == ticks[i + 1..];
      var bytes;
      fCount, monitor, history, closed, bytes, frames, views, rects :=
        ServeTick(store, stats, ticks[i], fCount, monitor, history, frames, views, rects);
      wire := wire + bytes;
      i := i + 1;
    }
    if closed.None? {
      closed := Some(Hangup);
    }
    stats.ClientDisconnected();
    exit := closed.value;
  }
}
