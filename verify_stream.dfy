/**
  The viewer's side of the frame stream: reading exactly n bytes from a
  TCP socket, reading one length-prefixed frame, and the receive loop with
  its 60-entry window of arrival times and guarded fps estimate. PNG
  decoding and drawing are opaque; the status-polling thread is not
  modelled.
*/
module VerifyStream {
  import opened Bytes
  import opened Wrappers
  import opened Wire
  import Window

  /** The largest `recv` buffer `recv_exact` asks for. */
  const MaxRecv: nat := 65536

  /** `FPS_WINDOW`: arrival times kept for the fps estimate. */
  const FpsWindow: nat := 60

  /** `ConnectionError("Server closed the connection")`. */
  datatype ConnectionError = ServerClosed

  function Min(a: nat, b: nat): nat
  {
    if a < b then a else b
  }

  /** `b"".join(chunks)`. */
  function Join(chunks: seq<seq<byte>>): seq<byte>
  {
    if chunks == [] then [] else Join(chunks[..|chunks| - 1]) + chunks[|chunks| - 1]
  }

  /**
    The viewer's end of the TCP connection. `pending` is what the server
    has sent and the viewer has not read yet, up to the server's close;
    `recv` hands it out in chunks whose sizes the network chooses.
    `requests` logs the buffer size of every `recv` call.
  */
  class Connection {
    var pending: seq<byte>
    ghost var requests: seq<nat>

    constructor (incoming: seq<byte>)
      ensures pending == incoming && requests == []
    {
      pending := incoming;
      requests := [];
    }

    /**
      `socket.recv(bufsize)`: between 1 and `bufsize` bytes from the front
      of the stream, or no bytes once the server has closed it.
    */
    method Recv(bufsize: nat) returns (chunk: seq<byte>)
      requires bufsize > 0
      modifies this
      ensures |chunk| <= bufsize
      ensures chunk == [] <==> old(pending) == []
      ensures old(pending) == chunk + pending
      ensures requests == old(requests) + [bufsize]
    {
      if pending == [] {
        chunk := [];
      } else {
        var k :| 1 <= k <= bufsize && k <= |pending|;
        chunk := pending[..k];
        pending := pending[k..];
      }
      requests := requests + [bufsize];
    }
  }

  /**
    `recv_exact`: the next `nbytes` bytes of the stream, in arrival order,
    or `ConnectionError` when the stream ends first (having consumed all
    of it). Each `recv` asks for at most `min(nbytes, 65536)` bytes, a
    successful read makes at most `nbytes` calls, and reading 0 bytes calls
    `recv` not at all.
  */
  method RecvExact(conn: Connection, nbytes: nat) returns (r: Result<seq<byte>, ConnectionError>)
    modifies conn
    ensures |old(conn.pending)| >= nbytes ==>
      r == Success(old(conn.pending)[..nbytes]) && conn.pending == old(conn.pending)[nbytes..]
    ensures |old(conn.pending)| < nbytes ==> r == Failure(ServerClosed) && conn.pending == []
    ensures |old(conn.requests)| <= |conn.requests|
    ensures forall j :: |old(conn.requests)| <= j < |conn.requests| ==>
      0 < conn.requests[j] <= Min(nbytes, MaxRecv)
    ensures r.Success? ==> |conn.requests| - |old(conn.requests)| <= nbytes
    ensures nbytes == 0 ==> conn.requests == old(conn.requests)
  {
    var chunks: seq<seq<byte>> := [];
    var remaining: nat := nbytes;
    while remaining > 0
      invariant remaining <= nbytes <= |old(conn.pending)| + remaining
      invariant Join(chunks) == old(conn.pending)[..nbytes - remaining]
      invariant conn.pending == old(conn.pending)[nbytes - remaining..]
      invariant |old(conn.requests)| <= |conn.requests| <= |old(conn.requests)| + nbytes - remaining
      invariant conn.requests[..|old(conn.requests)|] == old(conn.requests)
      invariant forall j :: |old(conn.requests)| <= j < |conn.requests| ==>
        0 < conn.requests[j] <= Min(nbytes, MaxRecv)
      decreases remaining
    {
      var chunk := conn.Recv(Min(remaining, MaxRecv));
      if chunk == [] {
        return Failure(ServerClosed);
      }
      var done := nbytes - remaining;
      assert old(conn.pending)[..done + |chunk|] == old(conn.pending)[..done] + chunk;
      chunks := chunks + [chunk];
      remaining := remaining - |chunk|;
    }
    r := Success(Join(chunks));
  }

  /**
    `recv_frame`: reads the 16-byte header, then exactly the payload length
    it declares, consuming exactly the frame `DecodeFrame` finds at the
    front of the stream; a stream that ends inside a frame raises.
  */
  method RecvFrame(conn: Connection) returns (r: Result<Frame, ConnectionError>)
    modifies conn
    ensures DecodeFrame(old(conn.pending)).Some? ==>
      r == Success(DecodeFrame(old(conn.pending)).value.0) && conn.pending == DecodeFrame(old(conn.pending)).value.1
    ensures DecodeFrame(old(conn.pending)).None? ==> r == Failure(ServerClosed) && conn.pending == []
    ensures r.Success? ==> DecodeFrames(old(conn.pending)).0 == [r.value] + DecodeFrames(conn.pending).0
    ensures r.Failure? ==> DecodeFrames(old(conn.pending)).0 == []
  {
    ghost var s := old(conn.pending);
    DecodeFramesUnfold(s);
    var header := RecvExact(conn, HeaderSize);
    if header.Failure? {
      return Failure(header.error);
    }
    var (length, timestamp) := UnpackHeader(header.value);
    var payload := RecvExact(conn, length);
    if payload.Failure? {
      return Failure(payload.error);
    }
    assert s[HeaderSize..][..length] == s[HeaderSize..HeaderSize + length];
    r := Success(Frame(payload.value, timestamp));
  }

  /**
    The fps shown for a window of arrival times: `(len - 1) / elapsed`
    when there are at least two entries and time has advanced, else 0.0.
    It is never negative and never divides by zero.
  */
  function RollingFps(timestamps: seq<real>): (fps: real)
    ensures fps >= 0.0
    ensures fps > 0.0 <==> |timestamps| >= 2 && timestamps[|timestamps| - 1] > timestamps[0]
    ensures fps > 0.0 ==> fps * (timestamps[|timestamps| - 1] - timestamps[0]) == (|timestamps| - 1) as real
  {
    if |timestamps| >= 2 then
      var elapsed := timestamps[|timestamps| - 1] - timestamps[0];
      if elapsed > 0.0 then (|timestamps| - 1) as real / elapsed else 0.0
    else 0.0
  }

  /**
    The fps values shown for the first `n` arrivals: one per decodable
    frame, in arrival order, each the rolling fps of the window as it
    stands just after that frame's arrival time entered it.
  */
  function ShownFps(clock: seq<real>, decodable: seq<bool>, n: nat): (shown: seq<real>)
    requires n <= |clock| && |decodable| == |clock|
    ensures |shown| <= n
    ensures forall j :: 0 <= j < |shown| ==> shown[j] >= 0.0
  {
    if n == 0 then []
    else
      ShownFps(clock, decodable, n - 1) +
      (if decodable[n - 1] then [RollingFps(Window.Last(clock[..n], FpsWindow))] else [])
  }

  /**
    The receive loop of `run`. `clock[i]` is the monotonic time read when
    frame `i` arrives and `decodable[i]` whether its PNG decodes; the loop
    stops when the stream ends (`ended`) or the readings run out. Every
    arriving frame enters the window, decodable or not; an fps value is
    shown only for decodable ones.
  */
  method Run(conn: Connection, clock: seq<real>, decodable: seq<bool>)
    returns (frames: seq<Frame>, timestamps: seq<real>, shown: seq<real>, ended: bool)
    requires |decodable| == |clock|
    modifies conn
    ensures |frames| <= |clock|
    ensures |frames| <= |DecodeFrames(old(conn.pending)).0|
    ensures frames == DecodeFrames(old(conn.pending)).0[..|frames|]
    ensures ended ==> frames == DecodeFrames(old(conn.pending)).0
    ensures !ended ==> |frames| == |clock|
    ensures timestamps == Window.Last(clock[..|frames|], FpsWindow)
    ensures |timestamps| <= FpsWindow
    ensures shown == ShownFps(clock, decodable, |frames|)
    ensures forall j :: 0 <= j < |shown| ==> shown[j] >= 0.0
  {
    ghost var all := DecodeFrames(old(conn.pending)).0;
    frames, timestamps, shown, ended := [], [], [], false;
    var i := 0;
    while i < |clock|
      invariant i == |frames| <= |clock|
      invariant all == frames + DecodeFrames(conn.pending).0
      invariant timestamps == Window.Last(clock[..i], FpsWindow)
      invariant shown == ShownFps(clock, decodable, i)
    {
      var r := RecvFrame(conn);
      if r.Failure? {
        ended := true;
        break;
      }
      assert all == (frames + [r.value]) + DecodeFrames(conn.pending).0;
      frames := frames + [r.value];
      Window.LastPushPrefix(clock, i, FpsWindow);
      timestamps := Window.Push(timestamps, clock[i], FpsWindow);
      if decodable[i] {
        shown := shown + [RollingFps(timestamps)];
      }
      i := i + 1;
    }
    assert all[..|frames|] == frames;
  }
}
