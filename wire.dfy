/**
  The frame format of the TCP stream, struct format "!Qd": a 16-byte header
  (payload length as a big-endian unsigned 64-bit integer, then the capture
  timestamp as a big-endian binary64) followed by the payload. The server
  packs it; the viewer unpacks it.
*/
module Wire {
  import opened Bytes
  import opened Wrappers

  /** `struct.calcsize("!Qd")`. */
  const HeaderSize: nat := 16

  datatype Frame = Frame(payload: seq<byte>, timestamp: Float64)

  /** `struct.pack` accepts the length only when it fits the unsigned 64-bit field. */
  predicate Packable(f: Frame)
  {
    |f.payload| < TwoTo64
  }

  predicate AllPackable(fs: seq<Frame>)
  {
    forall i :: 0 <= i < |fs| ==> Packable(fs[i])
  }

  function PackHeader(length: nat, timestamp: Float64): (h: seq<byte>)
    requires length < TwoTo64
    ensures |h| == HeaderSize
  {
    Pow256Of8();
    ToBigEndian(length, 8) + timestamp
  }

  function UnpackHeader(h: seq<byte>): (r: (nat, Float64))
    requires |h| == HeaderSize
    ensures r.0 < TwoTo64
  {
    Pow256Of8();
    (FromBigEndian(h[..8]), h[8..])
  }

  lemma UnpackPackHeader(length: nat, timestamp: Float64)
    requires length < TwoTo64
    ensures UnpackHeader(PackHeader(length, timestamp)) == (length, timestamp)
  {
    Pow256Of8();
    var h := PackHeader(length, timestamp);
    assert h[..8] == ToBigEndian(length, 8);
    assert h[8..] == timestamp;
    FromToBigEndian(length, 8);
  }

  lemma PackUnpackHeader(h: seq<byte>)
    requires |h| == HeaderSize
    ensures PackHeader(UnpackHeader(h).0, UnpackHeader(h).1) == h
  {
    Pow256Of8();
    ToFromBigEndian(h[..8]);
    assert h == h[..8] + h[8..];
  }

  /** The bytes `handle_client` hands to `sendall` for one captured frame. */
  function EncodeFrame(f: Frame): (bytes: seq<byte>)
    requires Packable(f)
    ensures |bytes| == HeaderSize + |f.payload|
    ensures UnpackHeader(bytes[..HeaderSize]) == (|f.payload|, f.timestamp)
    ensures bytes[HeaderSize..] == f.payload
  {
    UnpackPackHeader(|f.payload|, f.timestamp);
    var bytes := PackHeader(|f.payload|, f.timestamp) + f.payload;
    assert bytes[..HeaderSize] == PackHeader(|f.payload|, f.timestamp);
    bytes
  }

  /** The bytes of several frames sent one after another on one connection. */
  function EncodeFrames(fs: seq<Frame>): (bytes: seq<byte>)
    requires AllPackable(fs)
  {
    if fs == [] then [] else EncodeFrame(fs[0]) + EncodeFrames(fs[1..])
  }

  lemma {:induction false} EncodeFramesSnoc(fs: seq<Frame>, f: Frame)
    requires AllPackable(fs) && Packable(f)
    ensures AllPackable(fs + [f])
    ensures EncodeFrames(fs + [f]) == EncodeFrames(fs) + EncodeFrame(f)
  {
    if fs != [] {
      assert (fs + [f])[1..] == fs[1..] + [f];
      EncodeFramesSnoc(fs[1..], f);
    }
  }

  /**
    The header and payload `recv_frame` reads from the front of `s`, with the
    bytes after them; `None` when `s` ends before the frame does.
  */
  function DecodeFrame(s: seq<byte>): (r: Option<(Frame, seq<byte>)>)
    ensures r.Some? ==> Packable(r.value.0) && s == EncodeFrame(r.value.0) + r.value.1
    ensures r.None? <==> |s| < HeaderSize || |s| < HeaderSize + UnpackHeader(s[..HeaderSize]).0
  {
    if |s| < HeaderSize then None
    else
      var (length, timestamp) := UnpackHeader(s[..HeaderSize]);
      if |s| < HeaderSize + length then None
      else
        var f := Frame(s[HeaderSize..HeaderSize + length], timestamp);
        PackUnpackHeader(s[..HeaderSize]);
        assert s == s[..HeaderSize] + f.payload + s[HeaderSize + length..];
        Some((f, s[HeaderSize + length..]))
  }

  lemma DecodeEncodeFrame(f: Frame, rest: seq<byte>)
    requires Packable(f)
    ensures DecodeFrame(EncodeFrame(f) + rest) == Some((f, rest))
  {
    var s := EncodeFrame(f) + rest;
    assert s[..HeaderSize] == EncodeFrame(f)[..HeaderSize];
    assert s[HeaderSize..HeaderSize + |f.payload|] == f.payload;
    assert s[HeaderSize + |f.payload|..] == rest;
  }

  /** Every whole frame at the front of `s`, in order, and the bytes left over. */
  function DecodeFrames(s: seq<byte>): (r: (seq<Frame>, seq<byte>))
    decreases |s|
  {
    match DecodeFrame(s)
    case None => ([], s)
    case Some((f, rest)) =>
      var (fs, tail) := DecodeFrames(rest);
      ([f] + fs, tail)
  }

  /** One step of `DecodeFrames`: the frame at the front, then the frames after it. */
  lemma DecodeFramesUnfold(s: seq<byte>)
    ensures DecodeFrame(s).None? ==> DecodeFrames(s) == ([], s)
    ensures DecodeFrame(s).Some? ==>
      DecodeFrames(s) == ([DecodeFrame(s).value.0] + DecodeFrames(DecodeFrame(s).value.1).0,
                          DecodeFrames(DecodeFrame(s).value.1).1)
  {
  }

  /** The bytes of a frame followed by more frames. */
  lemma EncodeFramesCons(f: Frame, fs: seq<Frame>)
    requires Packable(f) && AllPackable(fs)
    ensures AllPackable([f] + fs)
    ensures EncodeFrames([f] + fs) == EncodeFrame(f) + EncodeFrames(fs)
  {
    var all := [f] + fs;
    assert all[1..] == fs;
    forall i | 0 <= i < |all| ensures Packable(all[i]) {
      if i > 0 { assert all[i] == fs[i - 1]; }
    }
  }

  /**
    Decoding loses and invents nothing: the frames found, encoded again and
    followed by the leftover bytes, give back the stream, and the leftover
    bytes do not start with a whole frame.
  */
  lemma {:induction false} EncodeDecodeFrames(s: seq<byte>)
    ensures AllPackable(DecodeFrames(s).0)
    ensures EncodeFrames(DecodeFrames(s).0) + DecodeFrames(s).1 == s
    ensures DecodeFrame(DecodeFrames(s).1).None?
    decreases |s|
  {
    DecodeFramesUnfold(s);
    var d := DecodeFrame(s);
    if d.Some? {
      var (f, rest) := d.value;
      EncodeDecodeFrames(rest);
      var (fs, tail) := DecodeFrames(rest);
      EncodeFramesCons(f, fs);
      assert EncodeFrames([f] + fs) + tail == EncodeFrame(f) + (EncodeFrames(fs) + tail);
    }
  }

  /** The viewer recovers, in order and with nothing left over, exactly the frames the server wrote. */
  lemma {:induction false} DecodeEncodeFrames(fs: seq<Frame>)
    requires AllPackable(fs)
    ensures DecodeFrames(EncodeFrames(fs)) == (fs, [])
  {
    if fs != [] {
      DecodeEncodeFrame(fs[0], EncodeFrames(fs[1..]));
      DecodeEncodeFrames(fs[1..]);
      assert fs == [fs[0]] + fs[1..];
    }
  }
}
