/**
  The shared state of the streaming server: the global capture region (a
  rectangle plus playback telemetry), its reader for the capture loop, the
  fps/client counters, and the startup probe of the display geometry.
  Each lock-guarded body of the source is one method here; the locks
  themselves are not modelled.
*/
module StreamingServer {
  import opened Bytes
  import opened Wrappers

  /** The value of the `capture_region` dictionary. */
  datatype Region = Region(
    top: int,
    left: int,
    width: int,
    height: int,
    currentTime: Float64,
    duration: Float64,
    isEnded: bool,
    videoStatus: string)

  /** The mss monitor dictionary: only the rectangle. */
  datatype Monitor = Monitor(top: int, left: int, width: int, height: int)

  /** The store's value at server start. */
  const DefaultRegion: Region :=
    Region(0, 0, 1280, 720, PositiveZero, PositiveZero, false, "playing")

  /** The invariant every writer keeps: a non-empty rectangle. */
  predicate Positive(r: Region)
  {
    r.width > 0 && r.height > 0
  }

  /** The rectangle of a region; the telemetry fields are dropped. */
  function MonitorOf(r: Region): Monitor
  {
    Monitor(r.top, r.left, r.width, r.height)
  }

  /** True when two regions agree on every telemetry field. */
  predicate SameTelemetry(a: Region, b: Region)
  {
    a.currentTime == b.currentTime && a.duration == b.duration &&
    a.isEnded == b.isEnded && a.videoStatus == b.videoStatus
  }

  /** The global `capture_region` dictionary, one field per key. */
  class CaptureRegion {
    var top: int
    var left: int
    var width: int
    var height: int
    var currentTime: Float64
    var duration: Float64
    var isEnded: bool
    var videoStatus: string

    function Snapshot(): Region
      reads this
    {
      Region(top, left, width, height, currentTime, duration, isEnded, videoStatus)
    }

    constructor ()
      ensures Snapshot() == DefaultRegion
      ensures Positive(Snapshot())
    {
      top, left, width, height := 0, 0, 1280, 720;
      currentTime, duration := PositiveZero, PositiveZero;
      isEnded, videoStatus := false, "playing";
    }

    /** `_get_capture_monitor`: a copy of the four rectangle fields, taken in one locked read. */
    method GetCaptureMonitor() returns (m: Monitor)
      ensures m == MonitorOf(Snapshot())
      ensures Positive(Snapshot()) ==> m.width > 0 && m.height > 0
    {
      m := Monitor(top, left, width, height);
    }

    /** The locked read of `current_time` that stamps each frame. */
    method ReadCurrentTime() returns (t: Float64)
      ensures t == Snapshot().currentTime
    {
      t := currentTime;
    }
  }

  /** The `current_fps` and `active_clients` globals. */
  class Telemetry {
    var currentFps: real
    var activeClients: int

    constructor ()
      ensures currentFps == 0.0 && activeClients == 0
    {
      currentFps, activeClients := 0.0, 0;
    }

    method ClientConnected()
      modifies this
      ensures activeClients == old(activeClients) + 1 && currentFps == old(currentFps)
    {
      activeClients := activeClients + 1;
    }

    method ClientDisconnected()
      modifies this
      ensures activeClients == old(activeClients) - 1 && currentFps == old(currentFps)
    {
      activeClients := activeClients - 1;
    }

    /** Last writer wins: the exposed fps is whatever the latest session reported. */
    method ReportFps(fps: real)
      modifies this
      ensures currentFps == fps && activeClients == old(activeClients)
    {
      currentFps := fps;
    }
  }

  datatype StartupError = InvalidMonitorDimensions(width: int, height: int)

  /**
    The probe in `start_stream_server_thread`: the server thread is started
    only when the probed display has a positive width and height; otherwise
    startup fails with the offending dimensions.
  */
  function StartStreamServer(probe: Monitor): (r: Result<Monitor, StartupError>)
    ensures r.Success? <==> probe.width > 0 && probe.height > 0
    ensures r.Success? ==> r.value == probe
    ensures r.Failure? ==> r.error == InvalidMonitorDimensions(probe.width, probe.height)
  {
    if probe.width <= 0 || probe.height <= 0 then
      Failure(InvalidMonitorDimensions(probe.width, probe.height))
    else
      Success(probe)
  }
}
