/**
  The controller's own logic, apart from the browser automation it drives:
  the `--crop` parser, the `t=` resume parameter of a video URL, the
  request bodies it posts to the control API, and the state that the
  monitoring loop carries from one poll to the next (the playing/complete
  latch, the last URL and the last region sent).
*/
module RemoteController {
  import opened Wrappers
  import opened Bytes
  import opened TextParsing
  import opened StreamingServer
  import opened ControlApi

  const DefaultWidth: int := 1280
  const DefaultHeight: int := 720

  // ---------------------------------------------------------------- crop

  /** Both are a `ValueError`: a field that is not an integer, or a count other than four. */
  datatype CropError = InvalidLiteral(field: string) | WrongCount(count: nat)

  /**
    A list comprehension over fields that may raise: `parse` applied to
    each field in order, failing with the first field it rejects.
  */
  function ParseEach(fields: seq<string>, parse: string -> Option<int>): (r: Result<seq<int>, string>)
    ensures r.Success? <==> forall i :: 0 <= i < |fields| ==> parse(fields[i]).Some?
    ensures r.Success? ==> (|r.value| == |fields| &&
      forall i :: 0 <= i < |fields| ==> parse(fields[i]) == Some(r.value[i]))
    ensures r.Failure? ==> exists i :: (0 <= i < |fields| && parse(fields[i]).None? && r.error == fields[i] &&
      forall j :: 0 <= j < i ==> parse(fields[j]).Some?)
  {
    if fields == [] then Success([])
    else if parse(fields[0]).None? then Failure(fields[0])
    else
      var rest := ParseEach(fields[1..], parse);
      assert forall i :: 1 <= i < |fields| ==> fields[i] == fields[1..][i - 1];
      if rest.Failure? then Failure(rest.error)
      else Success([parse(fields[0]).value] + rest.value)
  }

  /**
    `_parse_crop`: `X,Y,W,H` with whitespace allowed around each number.
    The first number is the left edge and the second the top edge; no sign
    or size check is made. Every field is parsed before the count is
    checked, so a bad field is reported even when the count is also wrong.
    `int` ignores surrounding whitespace itself, so the explicit strip of
    each field changes nothing (`ParseIntIgnoresStrip`).
  */
  function ParseCrop(crop: string): (r: Result<RegionUpdate, CropError>)
    ensures var fields := Split(crop, ',');
      r.Success? <==> |fields| == 4 && forall i :: 0 <= i < |fields| ==> ParseInt(fields[i]).Some?
    ensures var fields := Split(crop, ',');
      r.Success? ==> r.value == RegionUpdate(
        top := ParseInt(fields[1]).value,
        left := ParseInt(fields[0]).value,
        width := ParseInt(fields[2]).value,
        height := ParseInt(fields[3]).value)
    ensures r.Failure? && r.error.WrongCount? ==> r.error.count == |Split(crop, ',')| != 4
    ensures r.Failure? && r.error.InvalidLiteral? ==> r.error.field in Split(crop, ',')
  {
    var fields := Split(crop, ',');
    match ParseEach(fields, ParseInt)
    case Failure(field) => Failure(InvalidLiteral(field))
    case Success(parts) =>
      if |parts| != 4 then Failure(WrongCount(|parts|))
      else Success(RegionUpdate(top := parts[1], left := parts[0], width := parts[2], height := parts[3]))
  }

  /** The `X,Y,W,H` text of a region, left edge first. */
  function FormatCrop(u: RegionUpdate): string
  {
    ShowInt(u.left) + "," + ShowInt(u.top) + "," + ShowInt(u.width) + "," + ShowInt(u.height)
  }

  lemma SplitFormatCrop(u: RegionUpdate)
    ensures Split(FormatCrop(u), ',') == [ShowInt(u.left), ShowInt(u.top), ShowInt(u.width), ShowInt(u.height)]
  {
    var fields := [ShowInt(u.left), ShowInt(u.top), ShowInt(u.width), ShowInt(u.height)];
    ShowIntHasNo(u.left, ',');
    ShowIntHasNo(u.top, ',');
    ShowIntHasNo(u.width, ',');
    ShowIntHasNo(u.height, ',');
    assert JoinWith(fields[3..], ',') == ShowInt(u.height);
    assert JoinWith(fields[2..], ',') == ShowInt(u.width) + "," + ShowInt(u.height);
    assert JoinWith(fields[1..], ',') == ShowInt(u.top) + "," + ShowInt(u.width) + "," + ShowInt(u.height);
    assert JoinWith(fields, ',') == FormatCrop(u);
    SplitJoinWith(fields, ',');
  }

  lemma ParseShowIntField(n: int)
    ensures ParseInt(ShowInt(n)) == Some(n)
  {
    var s := ShowInt(n);
    assert [] + s + [] == s;
    ParseShowInt([], n, []);
  }

  /** Four fields that each parse give their four values, in order. */
  lemma ParseEachFour(fields: seq<string>, parse: string -> Option<int>, a: int, b: int, c: int, d: int)
    requires |fields| == 4
    requires parse(fields[0]) == Some(a) && parse(fields[1]) == Some(b)
    requires parse(fields[2]) == Some(c) && parse(fields[3]) == Some(d)
    ensures ParseEach(fields, parse) == Success([a, b, c, d])
  {
    var tail := fields[1..];
    assert tail[0] == fields[1] && tail[1] == fields[2] && tail[2] == fields[3];
    var rest := ParseEach(tail, parse);
    assert rest.Success? && |rest.value| == 3;
    assert parse(tail[0]) == Some(rest.value[0]) && parse(tail[1]) == Some(rest.value[1]);
    assert parse(tail[2]) == Some(rest.value[2]);
    assert rest.value == [b, c, d];
    assert [a] + rest.value == [a, b, c, d];
    assert ParseEach(fields, parse) == Success([a] + rest.value);
  }

  /** Parsing the text of a region gives the region back. */
  lemma ParseFormatCrop(u: RegionUpdate)
    ensures ParseCrop(FormatCrop(u)) == Success(u)
  {
    var fields := [ShowInt(u.left), ShowInt(u.top), ShowInt(u.width), ShowInt(u.height)];
    SplitFormatCrop(u);
    ParseShowIntField(u.left);
    ParseShowIntField(u.top);
    ParseShowIntField(u.width);
    ParseShowIntField(u.height);
    ParseEachFour(fields, ParseInt, u.left, u.top, u.width, u.height);
  }

  // ---------------------------------------------------------------- video URL

  /** `"t=" in url`. */
  predicate ContainsT(url: string)
  {
    exists i :: 0 <= i < |url| - 1 && url[i] == 't' && url[i + 1] == '='
  }

  /**
    The resume normalisation in `load_video`: a URL with no `t=` anywhere
    gets `t=0` appended, after `&` when it already has a query (`?`) and
    after `?` when it has none; any other URL is kept as it is.
  */
  function NormaliseUrl(url: string): (r: string)
    ensures ContainsT(r)
    ensures ContainsT(url) ==> r == url
    ensures !ContainsT(url) ==> (|r| == |url| + 4 && r[..|url|] == url && r[|url| + 1..] == "t=0" &&
      (r[|url|] == '&' <==> '?' in url) && (r[|url|] == '?' <==> '?' !in url))
  {
    if ContainsT(url) then url
    else
      var r := url + [if '?' in url then '&' else '?'] + "t=0";
      assert r[|url| + 1] == 't' && r[|url| + 2] == '=';
      r
  }

  /** Normalising a second time changes nothing. */
  lemma NormaliseIdempotent(url: string)
    ensures NormaliseUrl(NormaliseUrl(url)) == NormaliseUrl(url)
  {
  }

  /** The number of ASCII digits at the front of `s`. */
  function DigitRun(s: string): (n: nat)
    ensures n <= |s| && forall i :: 0 <= i < n ==> IsDigit(s[i])
    ensures n < |s| ==> !IsDigit(s[n])
  {
    if s != [] && IsDigit(s[0]) then 1 + DigitRun(s[1..]) else 0
  }

  /** A run of digits followed by a non-digit or the end is read whole. */
  lemma {:induction false} DigitRunStops(d: string, post: string)
    requires forall i :: 0 <= i < |d| ==> IsDigit(d[i])
    requires post == [] || !IsDigit(post[0])
    ensures DigitRun(d + post) == |d|
  {
    if d == [] {
      assert d + post == post;
    } else {
      assert (d + post)[1..] == d[1..] + post;
      DigitRunStops(d[1..], post);
    }
  }

  /** The digit group of `[?&]t=(\d+)` when the pattern matches at position `i`. */
  function MatchAt(url: string, i: nat): Option<nat>
  {
    if i + 3 < |url| && (url[i] == '?' || url[i] == '&') && url[i + 1] == 't' && url[i + 2] == '=' && IsDigit(url[i + 3]) then
      var rest := url[i + 3..];
      var digits := rest[..DigitRun(rest)];
      assert DigitsOrUnderscores(digits);
      Some(DigitsValue(digits))
    else None
  }

  /** `re.search` from position `i`: the leftmost match's value. */
  function SearchFrom(url: string, i: nat): Option<nat>
    decreases |url| - i
  {
    if i >= |url| then None
    else
      match MatchAt(url, i)
      case Some(v) => Some(v)
      case None => SearchFrom(url, i + 1)
  }

  /**
    The start time `load_video` logs: the number after the first `?t=` or
    `&t=` that is followed by a digit, or 0 when there is none.
  */
  function StartTime(url: string): (t: nat)
    ensures t > 0 ==> ContainsT(url)
  {
    if ContainsT(url) then
      match SearchFrom(url, 0)
      case Some(v) => v
      case None => 0
    else 0
  }

  lemma {:induction false} SearchSkips(url: string, i: nat, j: nat)
    requires i <= j
    requires forall k :: i <= k < j ==> MatchAt(url, k).None?
    ensures SearchFrom(url, i) == SearchFrom(url, j)
    decreases j - i
  {
    if i < j {
      SearchSkips(url, i + 1, j);
    }
  }

  /** In `pre`, `sep`, `t=`, `d`, `post`, the parameter stands at position `|pre|` and `d + post` follows it. */
  lemma ParameterAt(u: string, pre: string, sep: char, d: string, post: string)
    requires u == pre + [sep] + "t=" + d + post
    ensures |pre| + 3 <= |u| && u[|pre|] == sep && u[|pre| + 1] == 't' && u[|pre| + 2] == '='
    ensures u[|pre| + 3..] == d + post
  {
    assert u == pre + ([sep] + "t=" + d + post);
  }

  /** Where `sep` `t=` and a digit run `d` stand at position `i`, the match there reads `d` whole. */
  lemma MatchHere(u: string, i: nat, sep: char, d: string, post: string)
    requires sep == '?' || sep == '&'
    requires |d| > 0 && forall k :: 0 <= k < |d| ==> IsDigit(d[k])
    requires post == [] || !IsDigit(post[0])
    requires i + 3 <= |u| && u[i] == sep && u[i + 1] == 't' && u[i + 2] == '='
    requires u[i + 3..] == d + post
    ensures MatchAt(u, i) == Some(DigitsValue(d))
  {
    var rest := u[i + 3..];
    assert rest[0] == d[0];
    DigitRunStops(d, post);
    assert rest[..|d|] == d;
  }

  /** A URL whose first match is at position `i` starts from that match's value. */
  lemma FirstMatchFound(url: string, i: nat, v: nat)
    requires forall k :: 0 <= k < i ==> MatchAt(url, k).None?
    requires MatchAt(url, i) == Some(v)
    ensures StartTime(url) == v
  {
    assert url[i + 1] == 't' && url[i + 2] == '=';
    SearchSkips(url, 0, i);
  }

  /**
    The start time is the value of the digit run after the first `?t=` or
    `&t=` followed by a digit: when no earlier position matches, and the run
    `d` is not followed by another digit, it is `d` read as a decimal number,
    leading zeros included, whatever comes after.
  */
  lemma StartTimeFirstMatch(u: string, pre: string, sep: char, d: string, post: string)
    requires u == pre + [sep] + "t=" + d + post
    requires sep == '?' || sep == '&'
    requires |d| > 0 && forall k :: 0 <= k < |d| ==> IsDigit(d[k])
    requires forall k :: 0 <= k < |pre| ==> MatchAt(u, k).None?
    requires post == [] || !IsDigit(post[0])
    ensures StartTime(u) == DigitsValue(d)
  {
    ParameterAt(u, pre, sep, d, post);
    MatchHere(u, |pre|, sep, d, post);
    FirstMatchFound(u, |pre|, DigitsValue(d));
  }

  /** The canonical case: after the first match, the digits of `n` give `n`. */
  lemma StartTimeFirstMatchShown(pre: string, sep: char, n: nat, post: string)
    requires sep == '?' || sep == '&'
    requires forall k :: 0 <= k < |pre| ==> MatchAt(pre + [sep] + "t=" + ShowNat(n) + post, k).None?
    requires post == [] || !IsDigit(post[0])
    ensures StartTime(pre + [sep] + "t=" + ShowNat(n) + post) == n
  {
    StartTimeFirstMatch(pre + [sep] + "t=" + ShowNat(n) + post, pre, sep, ShowNat(n), post);
    DigitsValueShowNat(n);
  }

  /** A URL in which `[?&]t=` followed by a digit occurs nowhere starts from 0. */
  lemma StartTimeNoMatch(url: string)
    requires forall k :: 0 <= k < |url| ==> MatchAt(url, k).None?
    ensures StartTime(url) == 0
  {
    SearchSkips(url, 0, |url|);
  }

  /**
    A URL without `t=` that is given `?t=n` or `&t=n` resumes from `n`:
    the appended parameter is the first match.
  */
  lemma ResumeFrom(url: string, sep: char, n: nat)
    requires !ContainsT(url)
    requires sep == '?' || sep == '&'
    ensures StartTime(url + [sep] + "t=" + ShowNat(n)) == n
  {
    var u := url + [sep] + "t=" + ShowNat(n);
    var digits := ShowNat(n);
    assert u[|url| + 1] == 't' && u[|url| + 2] == '=';
    forall k | 0 <= k < |url|
      ensures MatchAt(u, k).None?
    {
      if k + 2 < |url| {
        assert !(url[k + 1] == 't' && url[k + 2] == '=');
      }
    }
    SearchSkips(u, 0, |url|);
    var rest := u[|url| + 3..];
    assert rest == digits;
    assert DigitRun(rest) == |digits|;
    assert rest[..DigitRun(rest)] == digits;
    DigitsValueShowNat(n);
  }

  /** Normalisation never changes where the video starts. */
  lemma StartTimeNormalised(url: string)
    ensures StartTime(NormaliseUrl(url)) == StartTime(url)
  {
    if !ContainsT(url) {
      var sep := if '?' in url then '&' else '?';
      assert NormaliseUrl(url) == url + [sep] + "t=" + ShowNat(0);
      ResumeFrom(url, sep, 0);
    }
  }

  /**
    A `list=` parameter already holds `t=`, so a playlist URL is not given
    `t=0`; with no real `t` parameter it still starts from 0.
  */
  lemma ListParameterSuppressesResume(base: string)
    requires !ContainsT(base)
    ensures var url := base + "&list=PL";
      NormaliseUrl(url) == url && StartTime(url) == 0
  {
    var url := base + "&list=PL";
    assert url[|base| + 4] == 't' && url[|base| + 5] == '=';
    forall k | 0 <= k < |url|
      ensures MatchAt(url, k).None?
    {
      if k + 2 < |base| {
        assert !(base[k + 1] == 't' && base[k + 2] == '=');
      }
    }
    SearchSkips(url, 0, |url|);
  }

  // ---------------------------------------------------------------- request bodies

  /** `update_telemetry`'s body: `video_status` is included only when it is a non-empty string. */
  function TelemetryPayload(currentTime: real, isEnded: bool, videoStatus: Option<string>): (p: TelemetryUpdate<real>)
    ensures p.currentTime == currentTime && p.isEnded == isEnded && p.duration.None?
    ensures p.videoStatus.Some? <==> Truthy(videoStatus)
    ensures p.videoStatus.Some? ==> p.videoStatus == videoStatus
  {
    TelemetryUpdate(currentTime, isEnded, if Truthy(videoStatus) then videoStatus else None, None)
  }

  /** `set_duration`'s body: it also rewinds the playhead and clears the ended flag. */
  function DurationPayload(duration: real): TelemetryUpdate<real>
  {
    TelemetryUpdate(0.0, false, None, Some(duration))
  }

  /** `reset_roi`'s body: the full 1280x720 display. */
  function ResetRoiPayload(): RegionUpdate
  {
    RegionUpdate(0, 0, DefaultWidth, DefaultHeight)
  }

  /** The JSON trip to the server: each number arrives as the binary64 `toDouble` gives it. */
  function Transmit(p: TelemetryUpdate<real>, toDouble: real -> Float64): TelemetryUpdate<Float64>
  {
    TelemetryUpdate(
      toDouble(p.currentTime),
      p.isEnded,
      p.videoStatus,
      if p.duration.Some? then Some(toDouble(p.duration.value)) else None)
  }

  /**
    The server applies a telemetry body as sent: the playhead and ended flag
    are taken, the status only when one was sent, and the duration kept.
  */
  lemma TelemetryPayloadApplied(r: Region, time: real, ended: bool, status: Option<string>, toDouble: real -> Float64)
    ensures var r' := ApplyTelemetryUpdate(r, Transmit(TelemetryPayload(time, ended, status), toDouble));
      r'.currentTime == toDouble(time) && r'.isEnded == ended && r'.duration == r.duration &&
      r'.videoStatus == (if Truthy(status) then status.value else r.videoStatus) &&
      MonitorOf(r') == MonitorOf(r)
  {
  }

  /**
    Pushing a duration rewinds the server's playhead to 0.0 and clears
    `is_ended`, whatever they were, and keeps the status and rectangle.
  */
  lemma DurationResetsPlayhead(r: Region, duration: real, toDouble: real -> Float64)
    requires toDouble(0.0) == PositiveZero
    ensures var r' := ApplyTelemetryUpdate(r, Transmit(DurationPayload(duration), toDouble));
      r'.currentTime == PositiveZero && !r'.isEnded && r'.duration == toDouble(duration) &&
      r'.videoStatus == r.videoStatus && MonitorOf(r') == MonitorOf(r)
  {
  }

  /** The server accepts the reset and its rectangle becomes the default one again. */
  lemma ResetRestoresDefault(r: Region)
    ensures ApplyRegionUpdate(r, ResetRoiPayload()).1 == Ok
    ensures MonitorOf(ApplyRegionUpdate(r, ResetRoiPayload()).0) == MonitorOf(DefaultRegion)
    ensures SameTelemetry(ApplyRegionUpdate(r, ResetRoiPayload()).0, r)
  {
  }

  // ---------------------------------------------------------------- monitoring

  /** One reading of the page's `<video>` element. */
  datatype Sample = Sample(time: real, duration: real, ended: bool)

  /**
    What one iteration of `monitor_playback` observes: the telemetry
    reading (`None` when the script or a conversion raised), the page URL
    and the detected video region.
  */
  datatype Poll = Poll(telemetry: Option<Sample>, url: string, region: Option<RegionUpdate>)

  /** A body the loop posts to the control API. */
  datatype Request = SendTelemetry(update: TelemetryUpdate<real>) | SendRegion(region: RegionUpdate)

  /** The loop's variables and what it has posted so far. */
  datatype Monitoring = Monitoring(status: string, lastUrl: string, lastRegion: Option<RegionUpdate>, sent: seq<Request>)

  const Playing: string := "playing"
  const Complete: string := "complete"

  /** The reading that ends playback: the video ended, or is within a second of a known duration. */
  predicate NearEnd(s: Sample)
  {
    s.ended || (s.duration > 0.0 && s.time >= s.duration - 1.0)
  }

  /** The status latch: once complete, always complete. */
  function NextStatus(status: string, s: Sample): (next: string)
    ensures next == Complete <==> status == Complete || NearEnd(s)
    ensures next != Complete ==> next == status
  {
    if status == Complete || NearEnd(s) then Complete else status
  }

  /** The status after a poll: a poll without a reading leaves it. */
  function PolledStatus(m: Monitoring, p: Poll): string
  {
    if p.telemetry.Some? then NextStatus(m.status, p.telemetry.value) else m.status
  }

  /** The telemetry body a poll posts: one per reading, carrying the new status. */
  function TelemetryPosted(m: Monitoring, p: Poll): seq<Request>
  {
    if p.telemetry.Some? then
      [SendTelemetry(TelemetryPayload(p.telemetry.value.time, p.telemetry.value.ended, Some(PolledStatus(m, p))))]
    else []
  }

  /** A region detected that differs from the last one posted. */
  predicate RegionChanged(m: Monitoring, p: Poll)
  {
    p.region.Some? && p.region != m.lastRegion
  }

  function RegionPosted(m: Monitoring, p: Poll): seq<Request>
  {
    if RegionChanged(m, p) then [SendRegion(p.region.value)] else []
  }

  /** One iteration of the loop, as a function of its state. */
  function PollStep(m: Monitoring, p: Poll): Monitoring
  {
    Monitoring(
      PolledStatus(m, p),
      p.url,
      if RegionChanged(m, p) then p.region else m.lastRegion,
      m.sent + TelemetryPosted(m, p) + RegionPosted(m, p))
  }

  /** The state after the polls, in order. */
  function MonitorSpec(m: Monitoring, polls: seq<Poll>): Monitoring
  {
    if polls == [] then m else PollStep(MonitorSpec(m, polls[..|polls| - 1]), polls[|polls| - 1])
  }

  /** The loop's state before the first poll. */
  function InitialMonitoring(pageUrl: string, lastRegion: Option<RegionUpdate>): Monitoring
  {
    Monitoring(Playing, pageUrl, lastRegion, [])
  }

  /**
    One iteration of `monitor_playback`: the end-of-playback checks, the
    telemetry post, following the URL and posting a changed region.
  */
  method MonitorTick(status: string, lastUrl: string, lastRegion: Option<RegionUpdate>, sent: seq<Request>, p: Poll)
    returns (status': string, lastUrl': string, lastRegion': Option<RegionUpdate>, sent': seq<Request>)
    ensures Monitoring(status', lastUrl', lastRegion', sent') == PollStep(Monitoring(status, lastUrl, lastRegion, sent), p)
  {
    status', lastUrl', lastRegion', sent' := status, lastUrl, lastRegion, sent;
    if p.telemetry.Some? {
      var s := p.telemetry.value;
      if s.duration > 0.0 && s.time >= s.duration - 1.0 && status' != Complete {
        status' := Complete;
      }
      if s.ended && status' != Complete {
        status' := Complete;
      }
      sent' := sent' + [SendTelemetry(TelemetryPayload(s.time, s.ended, Some(status')))];
    }
    if p.url != lastUrl' {
      lastUrl' := p.url;
    }
    if p.region.Some? && p.region != lastRegion' {
      sent' := sent' + [SendRegion(p.region.value)];
      lastRegion' := p.region;
    }
  }

  /**
    `monitor_playback` over a finite run of polls (the source loops until
    interrupted). Each poll posts telemetry when it has a reading, follows
    the page URL, and posts the region only when one was detected and it
    differs from the last one posted.
  */
  method MonitorPlayback(pageUrl: string, initialRegion: Option<RegionUpdate>, polls: seq<Poll>)
    returns (status: string, lastUrl: string, lastRegion: Option<RegionUpdate>, sent: seq<Request>)
    ensures Monitoring(status, lastUrl, lastRegion, sent) == MonitorSpec(InitialMonitoring(pageUrl, initialRegion), polls)
  {
    lastUrl := pageUrl;
    status := Playing;
    lastRegion := initialRegion;
    sent := [];
    for i := 0 to |polls|
      invariant Monitoring(status, lastUrl, lastRegion, sent) == MonitorSpec(InitialMonitoring(pageUrl, initialRegion), polls[..i])
    {
      assert polls[..i + 1][..i] == polls[..i];
      status, lastUrl, lastRegion, sent := MonitorTick(status, lastUrl, lastRegion, sent, polls[i]);
    }
    assert polls[..|polls|] == polls;
  }

  /** Some reading so far has signalled the end of playback. */
  predicate SawEnd(polls: seq<Poll>)
  {
    exists i :: 0 <= i < |polls| && polls[i].telemetry.Some? && NearEnd(polls[i].telemetry.value)
  }

  /**
    The status is complete exactly when some reading so far signalled the
    end; otherwise it is still playing. In particular it never goes back.
  */
  lemma {:induction false} StatusCompleteIffSawEnd(pageUrl: string, region: Option<RegionUpdate>, polls: seq<Poll>)
    ensures var status := MonitorSpec(InitialMonitoring(pageUrl, region), polls).status;
      (status == Complete <==> SawEnd(polls)) && (status == Complete || status == Playing)
  {
    if polls != [] {
      var init := polls[..|polls| - 1];
      StatusCompleteIffSawEnd(pageUrl, region, init);
      assert forall i :: 0 <= i < |init| ==> init[i] == polls[i];
      if SawEnd(init) {
        var i :| 0 <= i < |init| && init[i].telemetry.Some? && NearEnd(init[i].telemetry.value);
        assert polls[i] == init[i];
      }
    }
  }

  /** The telemetry bodies among the posted bodies, in order. */
  function TelemetrySent(sent: seq<Request>): seq<TelemetryUpdate<real>>
  {
    if sent == [] then []
    else TelemetrySent(sent[..|sent| - 1]) + (if sent[|sent| - 1].SendTelemetry? then [sent[|sent| - 1].update] else [])
  }

  lemma {:induction false} TelemetrySentAppend(a: seq<Request>, b: seq<Request>)
    ensures TelemetrySent(a + b) == TelemetrySent(a) + TelemetrySent(b)
    decreases |b|
  {
    if b != [] {
      var last := b[|b| - 1];
      var tail := if last.SendTelemetry? then [last.update] else [];
      assert (a + b)[..|a + b| - 1] == a + b[..|b| - 1];
      assert (a + b)[|a + b| - 1] == last;
      TelemetrySentAppend(a, b[..|b| - 1]);
      assert TelemetrySent(a + b) == TelemetrySent(a) + TelemetrySent(b[..|b| - 1]) + tail;
      assert TelemetrySent(b) == TelemetrySent(b[..|b| - 1]) + tail;
    } else {
      assert a + b == a;
    }
  }

  /**
    The telemetry the loop should post, stated without its state: one body
    per reading, in order, with that reading's time and ended flag, and the
    status "complete" exactly when that reading or an earlier one signalled
    the end of playback, "playing" otherwise.
  */
  function ExpectedTelemetry(polls: seq<Poll>): seq<TelemetryUpdate<real>>
  {
    if polls == [] then []
    else
      var p := polls[|polls| - 1];
      ExpectedTelemetry(polls[..|polls| - 1]) +
      (if p.telemetry.Some? then
         [TelemetryPayload(p.telemetry.value.time, p.telemetry.value.ended, Some(if SawEnd(polls) then Complete else Playing))]
       else [])
  }

  /** A poll posts at most one telemetry body, and it carries the status after that poll's latch. */
  lemma PollStepTelemetry(m: Monitoring, p: Poll)
    ensures TelemetrySent(PollStep(m, p).sent) ==
      TelemetrySent(m.sent) +
      (if p.telemetry.Some? then
         [TelemetryPayload(p.telemetry.value.time, p.telemetry.value.ended, Some(PollStep(m, p).status))]
       else [])
  {
    var telemetry := TelemetryPosted(m, p);
    var region := RegionPosted(m, p);
    TelemetrySentAppend(m.sent + telemetry, region);
    TelemetrySentAppend(m.sent, telemetry);
    assert telemetry == [] || telemetry[..0] == [];
    assert region == [] || region[..0] == [];
  }

  /**
    Every telemetry body the loop posts carries the status current after
    its own reading: the bodies posted are exactly `ExpectedTelemetry`.
  */
  lemma {:induction false} TelemetryCarriesStatus(pageUrl: string, region: Option<RegionUpdate>, polls: seq<Poll>)
    ensures TelemetrySent(MonitorSpec(InitialMonitoring(pageUrl, region), polls).sent) == ExpectedTelemetry(polls)
  {
    if polls != [] {
      var p := polls[|polls| - 1];
      var m := MonitorSpec(InitialMonitoring(pageUrl, region), polls[..|polls| - 1]);
      TelemetryCarriesStatus(pageUrl, region, polls[..|polls| - 1]);
      StatusCompleteIffSawEnd(pageUrl, region, polls);
      assert PollStep(m, p).status == if SawEnd(polls) then Complete else Playing;
      PollStepTelemetry(m, p);
    }
  }

  /** Every telemetry body posted names a status, playing or complete, so the server always records one. */
  lemma {:induction false} TelemetryStatusKnown(pageUrl: string, region: Option<RegionUpdate>, polls: seq<Poll>)
    ensures var m := MonitorSpec(InitialMonitoring(pageUrl, region), polls);
      forall j :: 0 <= j < |m.sent| && m.sent[j].SendTelemetry? ==>
        m.sent[j].update.videoStatus == Some(Playing) || m.sent[j].update.videoStatus == Some(Complete)
  {
    if polls != [] {
      TelemetryStatusKnown(pageUrl, region, polls[..|polls| - 1]);
      StatusCompleteIffSawEnd(pageUrl, region, polls[..|polls| - 1]);
    }
  }

  /** The regions among the posted bodies, in order. */
  function RegionsSent(sent: seq<Request>): seq<RegionUpdate>
  {
    if sent == [] then []
    else RegionsSent(sent[..|sent| - 1]) + (if sent[|sent| - 1].SendRegion? then [sent[|sent| - 1].region] else [])
  }

  lemma {:induction false} RegionsSentAppend(a: seq<Request>, b: seq<Request>)
    ensures RegionsSent(a + b) == RegionsSent(a) + RegionsSent(b)
    decreases |b|
  {
    if b != [] {
      var last := b[|b| - 1];
      var tail := if last.SendRegion? then [last.region] else [];
      assert (a + b)[..|a + b| - 1] == a + b[..|b| - 1];
      assert (a + b)[|a + b| - 1] == last;
      RegionsSentAppend(a, b[..|b| - 1]);
      assert RegionsSent(a + b) == RegionsSent(a) + RegionsSent(b[..|b| - 1]) + tail;
      assert RegionsSent(b) == RegionsSent(b[..|b| - 1]) + tail;
    } else {
      assert a + b == a;
    }
  }

  /**
    The de-duplication invariant: no region is posted twice in a row, the
    first differs from the region the loop started with, and the last
    region remembered is the last one posted (or the starting one).
  */
  ghost predicate Deduplicated(initial: Option<RegionUpdate>, m: Monitoring)
  {
    var rs := RegionsSent(m.sent);
    (rs == [] ==> m.lastRegion == initial) &&
    (rs != [] ==> m.lastRegion == Some(rs[|rs| - 1]) && (initial.Some? ==> rs[0] != initial.value)) &&
    forall i :: 0 < i < |rs| ==> rs[i] != rs[i - 1]
  }

  /** One poll posts its region exactly when one was detected and it differs from the last one posted. */
  lemma PollStepRegions(m: Monitoring, p: Poll)
    ensures RegionsSent(PollStep(m, p).sent) ==
      RegionsSent(m.sent) + (if RegionChanged(m, p) then [p.region.value] else [])
    ensures PollStep(m, p).lastRegion == (if RegionChanged(m, p) then p.region else m.lastRegion)
  {
    var telemetry := TelemetryPosted(m, p);
    var region := RegionPosted(m, p);
    RegionsSentAppend(m.sent + telemetry, region);
    RegionsSentAppend(m.sent, telemetry);
    assert telemetry == [] || telemetry[..0] == [];
    assert region == [] || region[..0] == [];
  }

  /** The loop never posts the same region twice in a row. */
  lemma {:induction false} RegionsDeduplicated(pageUrl: string, region: Option<RegionUpdate>, polls: seq<Poll>)
    ensures Deduplicated(region, MonitorSpec(InitialMonitoring(pageUrl, region), polls))
  {
    if polls != [] {
      var m := MonitorSpec(InitialMonitoring(pageUrl, region), polls[..|polls| - 1]);
      RegionsDeduplicated(pageUrl, region, polls[..|polls| - 1]);
      PollStepRegions(m, polls[|polls| - 1]);
    }
  }
}
