/** The row formatting of src/ui/Dashboard.js: the header's up and down
    counts, the host shown when a URL does not parse, the truncated URL
    column, the status label and the downtime cell. The WHATWG URL parser is
    not modelled: its hostname, when the URL parses, is a parameter. */
module Dashboard {
  import opened Wrappers
  import opened Text
  import opened Schema
  import opened Stats

  // ---------------------------------------------------------------------
  // Header counts

  predicate ShowsUp(s: Snapshot) {
    s.status == Reported(Up)
  }

  predicate ShowsDown(s: Snapshot) {
    !ShowsUp(s)
  }

  /** `monitors.filter(m => m.status === 'up').length` */
  function UpTotal(stats: seq<Snapshot>): nat {
    |Filter(stats, ShowsUp)|
  }

  /** `monitors.filter(m => m.status !== 'up').length`: down and unknown. */
  function DownTotal(stats: seq<Snapshot>): nat {
    |Filter(stats, ShowsDown)|
  }

  /** Every monitor is counted once, as up or as down. */
  lemma {:induction false} CountsCoverAll(stats: seq<Snapshot>)
    ensures UpTotal(stats) + DownTotal(stats) == |stats|
  {
    if stats != [] {
      CountsCoverAll(stats[1..]);
    }
  }

  /** A monitor with no heartbeats yet is counted as down. */
  lemma UnknownCountsAsDown(s: Snapshot)
    requires s.status == Unknown
    ensures UpTotal([s]) == 0 && DownTotal([s]) == 1
  {
    assert [s][1..] == [];
  }

  // ---------------------------------------------------------------------
  // Host fallback

  predicate IsLineBreak(c: char) {
    c in {'\n', '\r', '\U{2028}', '\U{2029}'}
  }

  predicate NoLineBreak(s: string) {
    forall i :: 0 <= i < |s| ==> !IsLineBreak(s[i])
  }

  /** `s.replace(/^https?:\/\//, '')` */
  function StripScheme(s: string): (r: string)
    ensures StartsWith(s, "https://") ==> r == s[8..]
    ensures !StartsWith(s, "https://") && StartsWith(s, "http://") ==> r == s[7..]
    ensures !StartsWith(s, "https://") && !StartsWith(s, "http://") ==> r == s
  {
    if StartsWith(s, "https://") then s[8..]
    else if StartsWith(s, "http://") then s[7..]
    else s
  }

  /** Where `/\/.*$/` can match: a '/' with no line break after it (`.`
      does not match line breaks and `$` is the end of the input). */
  predicate CutsAt(s: string, i: int) {
    0 <= i < |s| && s[i] == '/' && NoLineBreak(s[i + 1..])
  }

  function CutFrom(s: string, i: nat): (r: Option<nat>)
    requires i <= |s|
    ensures r.Some? ==> i <= r.value && CutsAt(s, r.value) && forall j :: i <= j < r.value ==> !CutsAt(s, j)
    ensures r.None? ==> forall j :: i <= j < |s| ==> !CutsAt(s, j)
    decreases |s| - i
  {
    if i == |s| then None
    else if CutsAt(s, i) then Some(i)
    else CutFrom(s, i + 1)
  }

  /** `s.replace(/\/.*$/, '')`: everything from the leftmost match dropped. */
  function DropPath(s: string): (r: string)
    ensures |r| <= |s| && r == s[..|r|]
    ensures forall j :: 0 <= j < |r| ==> !CutsAt(s, j)
    ensures r == s <==> forall j :: 0 <= j < |s| ==> !CutsAt(s, j)
    ensures r != s ==> CutsAt(s, |r|)
  {
    match CutFrom(s, 0)
    case None => s
    case Some(i) => s[..i]
  }

  /** The host the dashboard falls back to when the URL does not parse. */
  function HostFallback(url: string): string {
    DropPath(StripScheme(url))
  }

  lemma NoLineBreakSuffix(s: string, i: nat)
    requires NoLineBreak(s) && i <= |s|
    ensures NoLineBreak(s[i..])
  {
    var t := s[i..];
    forall k | 0 <= k < |t| ensures !IsLineBreak(t[k]) {
      assert t[k] == s[i + k];
    }
  }

  /** On a URL without line breaks the fallback host has no '/' left. */
  lemma FallbackHasNoSlash(url: string)
    requires NoLineBreak(url)
    ensures '/' !in HostFallback(url)
  {
    var s := StripScheme(url);
    var r := HostFallback(url);
    assert s == url[|url| - |s|..];
    NoLineBreakSuffix(url, |url| - |s|);
    forall j | 0 <= j < |r| ensures r[j] != '/' {
      NoLineBreakSuffix(s, j + 1);
      assert !CutsAt(s, j);
    }
  }

  /** The usual shape: scheme, a host without '/', then a path. */
  lemma FallbackOfSchemeHostPath(scheme: string, host: string, path: string)
    requires scheme == "http://" || scheme == "https://"
    requires '/' !in host && |path| > 0 && path[0] == '/' && NoLineBreak(path)
    ensures HostFallback(scheme + host + path) == host
  {
    var url := scheme + host + path;
    var s := host + path;
    if scheme == "https://" {
      assert url[..8] == "https://";
      assert url[8..] == s;
    } else {
      assert url[..7] == "http://";
      assert url[4] == ':' && "https://"[4] == 's';
      assert url[7..] == s;
    }
    assert StripScheme(url) == s;
    assert s[|host| + 1..] == path[1..];
    NoLineBreakSuffix(path, 1);
    assert CutsAt(s, |host|);
    forall j | 0 <= j < |host| ensures !CutsAt(s, j) {
      assert s[j] == host[j] && host[j] in host;
    }
    var r := DropPath(s);
    assert |r| == |host|;
    assert r == s[..|host|] == host;
  }

  /** A host taken without line breaks is a fixed point of the fallback. */
  lemma FallbackIdempotent(url: string)
    requires NoLineBreak(url)
    ensures HostFallback(HostFallback(url)) == HostFallback(url)
  {
    var h := HostFallback(url);
    FallbackHasNoSlash(url);
    if |h| >= 7 {
      assert h[5] in h;
      assert h[..7][5] == h[5];
    }
    if |h| >= 8 {
      assert h[6] in h;
      assert h[..8][6] == h[6];
    }
    assert StripScheme(h) == h;
    forall j | 0 <= j < |h| ensures !CutsAt(h, j) {
      assert h[j] in h;
    }
  }

  // ---------------------------------------------------------------------
  // Row cells

  const UrlColumnMax: nat := 20

  /** `u.slice(0, 10) + '...' + u.slice(-7)` for URLs longer than 20. */
  function Truncate(u: string): (r: string)
    ensures |r| <= UrlColumnMax
    ensures |u| <= UrlColumnMax ==> r == u
    ensures |u| > UrlColumnMax ==>
      (|r| == UrlColumnMax && r[..10] == u[..10] && r[10..13] == "..." && r[13..] == u[|u| - 7..])
  {
    if |u| > UrlColumnMax then u[..10] + "..." + u[|u| - 7..] else u
  }

  lemma TruncateIdempotent(u: string)
    ensures Truncate(Truncate(u)) == Truncate(u)
  {
  }

  /** The downtime cell: 'None' alone when there was no downtime, otherwise
      the downtime text followed by the last-check time. */
  datatype DowntimeCell = NoneShown | WithLastCheck(downtime: Downtime, lastCheck: Option<int>)

  datatype Row = Row(
    id: int,
    name: string,
    url: string,
    kind: MonitorType,
    statusLabel: string,
    latency: int,
    slow: bool,
    uptime: real,
    downtime: DowntimeCell)

  const UpLabel: string := "\U{2714} UP"
  const DownLabel: string := "\U{2716} DOWN"

  /** One table row for snapshot `s`; `parsedHost` is the hostname when the
      URL parses. */
  function RowOf(s: Snapshot, parsedHost: Option<string>): (r: Row)
    ensures var host := if parsedHost.Some? then parsedHost.value else HostFallback(s.monitor.url);
      r.name == (if Truthy(s.monitor.name) then s.monitor.name.value else host) &&
      r.url == Truncate(host)
    ensures r.id == s.monitor.id && r.kind == s.monitor.kind && r.latency == s.latency && r.uptime == s.uptime
    ensures r.statusLabel == UpLabel <==> ShowsUp(s)
    ensures r.statusLabel == DownLabel <==> !ShowsUp(s)
    ensures r.slow <==> s.latency > 500
    ensures r.downtime == NoneShown <==> s.downtime == NoDowntime
    ensures r.downtime != NoneShown ==> r.downtime == WithLastCheck(s.downtime, s.lastCheck)
  {
    var host := if parsedHost.Some? then parsedHost.value else HostFallback(s.monitor.url);
    var name := if Truthy(s.monitor.name) then s.monitor.name.value else host;
    Row(s.monitor.id, name, Truncate(host), s.monitor.kind,
        if ShowsUp(s) then UpLabel else DownLabel,
        s.latency, s.latency > 500, s.uptime,
        if s.downtime == NoDowntime then NoneShown else WithLastCheck(s.downtime, s.lastCheck))
  }

  /** A monitor whose newest heartbeat is down shows the down label and a
      downtime cell with the start of its down run. */
  lemma DownMonitorRow(m: Monitor, hs: seq<Heartbeat>, parsedHost: Option<string>)
    requires hs != [] && hs[0].status == Down
    ensures var r := RowOf(SnapshotOf(m, hs), parsedHost);
      r.statusLabel == DownLabel && r.downtime.WithLastCheck? && r.downtime.downtime.DownSince?
  {
  }
}
