/**
  The store operations of the control API: the region and telemetry
  writers and the status reader. Each writer assigns into the shared
  capture region field by field; `RegionUpdate` and `TelemetryUpdate` are
  the validated request bodies. HTTP routing is not modelled.
*/
module ControlApi {
  import opened Bytes
  import opened Wrappers
  import opened StreamingServer

  datatype RegionUpdate = RegionUpdate(top: int, left: int, width: int, height: int)

  /**
    A telemetry request. `N` is the number type: the server receives
    binary64 values, the controller builds them from real numbers.
  */
  datatype TelemetryUpdate<N> = TelemetryUpdate(
    currentTime: N,
    isEnded: bool,
    videoStatus: Option<string>,
    duration: Option<N>)

  /** `{"status": "ok"}` or the `HTTPException` raised by a handler. */
  datatype Reply = Ok | HttpError(code: int, detail: string)

  /** A request the control API serves against the store. */
  datatype Command =
    | PostRegion(region: RegionUpdate)
    | PostTelemetry(telemetry: TelemetryUpdate<Float64>)

  datatype StatusReply = StatusReply(
    status: string,
    captureRegion: Region,
    fps: real,
    activeClients: int)

  /** Python truthiness of an optional string: present and non-empty. */
  predicate Truthy(s: Option<string>)
  {
    s.Some? && s.value != ""
  }

  /**
    `update_region`: a non-positive width or height is refused with a 400
    and the store is left as it was; otherwise exactly the four rectangle
    fields are replaced, with no range check on `top` and `left`.
  */
  function ApplyRegionUpdate(r: Region, req: RegionUpdate): (res: (Region, Reply))
    ensures res.1.Ok? <==> req.width > 0 && req.height > 0
    ensures res.1.HttpError? ==> res == (r, HttpError(400, "Invalid dimensions"))
    ensures res.1.Ok? ==> MonitorOf(res.0) == Monitor(req.top, req.left, req.width, req.height)
    ensures SameTelemetry(res.0, r)
  {
    if req.width <= 0 || req.height <= 0 then
      (r, HttpError(400, "Invalid dimensions"))
    else
      (r.(top := req.top, left := req.left, width := req.width, height := req.height), Ok)
  }

  /**
    `update_telemetry`: `current_time` and `is_ended` are always
    overwritten, as received; `video_status` only by a non-empty string;
    `duration` only when present. The rectangle is never touched.
  */
  function ApplyTelemetryUpdate(r: Region, req: TelemetryUpdate<Float64>): (r': Region)
    ensures MonitorOf(r') == MonitorOf(r)
    ensures r'.currentTime == req.currentTime && r'.isEnded == req.isEnded
    ensures r'.videoStatus != r.videoStatus ==> Truthy(req.videoStatus) && r'.videoStatus == req.videoStatus.value
    ensures Truthy(req.videoStatus) ==> r'.videoStatus == req.videoStatus.value
    ensures r'.duration != r.duration ==> req.duration == Some(r'.duration)
    ensures req.duration.Some? ==> r'.duration == req.duration.value
  {
    var r1 := r.(currentTime := req.currentTime, isEnded := req.isEnded);
    var r2 := if Truthy(req.videoStatus) then r1.(videoStatus := req.videoStatus.value) else r1;
    if req.duration.Some? then r2.(duration := req.duration.value) else r2
  }

  function Apply(r: Region, c: Command): (Region, Reply)
  {
    match c
    case PostRegion(req) => ApplyRegionUpdate(r, req)
    case PostTelemetry(req) => (ApplyTelemetryUpdate(r, req), Ok)
  }

  /** The store after serving `cs` in order. */
  function ApplyAll(r: Region, cs: seq<Command>): Region
  {
    if cs == [] then r else Apply(ApplyAll(r, cs[..|cs| - 1]), cs[|cs| - 1]).0
  }

  /** No sequence of writes can make the rectangle empty. */
  lemma {:induction false} ApplyAllKeepsPositive(r: Region, cs: seq<Command>)
    requires Positive(r)
    ensures Positive(ApplyAll(r, cs))
  {
    if cs != [] {
      ApplyAllKeepsPositive(r, cs[..|cs| - 1]);
    }
  }

  /** From the default store, width > 0 and height > 0 hold after any sequence of writes. */
  lemma DefaultStaysPositive(cs: seq<Command>)
    ensures Positive(ApplyAll(DefaultRegion, cs))
  {
    ApplyAllKeepsPositive(DefaultRegion, cs);
  }

  /** A run of telemetry writes leaves the rectangle where it was. */
  lemma {:induction false} TelemetryKeepsRectangle(r: Region, cs: seq<Command>)
    requires forall i :: 0 <= i < |cs| ==> cs[i].PostTelemetry?
    ensures MonitorOf(ApplyAll(r, cs)) == MonitorOf(r)
  {
    if cs != [] {
      TelemetryKeepsRectangle(r, cs[..|cs| - 1]);
    }
  }

  /** A run of region writes leaves every telemetry field where it was. */
  lemma {:induction false} RegionKeepsTelemetry(r: Region, cs: seq<Command>)
    requires forall i :: 0 <= i < |cs| ==> cs[i].PostRegion?
    ensures SameTelemetry(ApplyAll(r, cs), r)
  {
    if cs != [] {
      RegionKeepsTelemetry(r, cs[..|cs| - 1]);
    }
  }

  /** The two writers touch disjoint fields, so their order does not matter. */
  lemma RegionAndTelemetryCommute(r: Region, a: RegionUpdate, t: TelemetryUpdate<Float64>)
    ensures ApplyTelemetryUpdate(ApplyRegionUpdate(r, a).0, t) == ApplyRegionUpdate(ApplyTelemetryUpdate(r, t), a).0
  {
  }

  /** Repeating a write changes nothing more. */
  lemma WritesAreIdempotent(r: Region, a: RegionUpdate, t: TelemetryUpdate<Float64>)
    ensures ApplyRegionUpdate(ApplyRegionUpdate(r, a).0, a) == ApplyRegionUpdate(r, a)
    ensures ApplyTelemetryUpdate(ApplyTelemetryUpdate(r, t), t) == ApplyTelemetryUpdate(r, t)
  {
  }

  /** `POST /sensor/region`. */
  method UpdateRegion(store: CaptureRegion, req: RegionUpdate) returns (reply: Reply)
    modifies store
    ensures (store.Snapshot(), reply) == ApplyRegionUpdate(old(store.Snapshot()), req)
  {
    if req.width <= 0 || req.height <= 0 {
      return HttpError(400, "Invalid dimensions");
    }
    store.top := req.top;
    store.left := req.left;
    store.width := req.width;
    store.height := req.height;
    reply := Ok;
  }

  /** `POST /sensor/telemetry`: always succeeds; the values are stored unsanitised. */
  method UpdateTelemetry(store: CaptureRegion, req: TelemetryUpdate<Float64>) returns (reply: Reply)
    modifies store
    ensures store.Snapshot() == ApplyTelemetryUpdate(old(store.Snapshot()), req)
    ensures reply == Ok
  {
    store.currentTime := req.currentTime;
    store.isEnded := req.isEnded;
    if Truthy(req.videoStatus) {
      store.videoStatus := req.videoStatus.value;
    }
    if req.duration.Some? {
      store.duration := req.duration.value;
    }
    reply := Ok;
  }

  /** `GET /status`: a copy of all eight region fields with the fps and client count. */
  method GetStatus(store: CaptureRegion, stats: Telemetry) returns (reply: StatusReply)
    ensures reply.status == "ok"
    ensures reply.captureRegion == store.Snapshot()
    ensures reply.fps == stats.currentFps && reply.activeClients == stats.activeClients
  {
    var region := store.Snapshot();
    reply := StatusReply("ok", region, stats.currentFps, stats.activeClients);
  }

  /**
    A status reply is a value: a region write served after it does not
    change what the reply says.
  */
  method StatusOutlivesWrite(store: CaptureRegion, stats: Telemetry, req: RegionUpdate)
    returns (before: StatusReply, after: StatusReply)
    modifies store
    ensures before.captureRegion == old(store.Snapshot())
    ensures after.captureRegion == ApplyRegionUpdate(old(store.Snapshot()), req).0
  {
    before := GetStatus(store, stats);
    var _ := UpdateRegion(store, req);
    after := GetStatus(store, stats);
  }
}
