/** The read queries of src/core/db.js over the `monitors` and `heartbeats`
    tables, and the lookup copy kept in tests/core/group.test.js. */
module Queries {
  import opened Wrappers
  import opened Text
  import opened Schema

  /** Default row cap of `getHeartbeatsForMonitor`. */
  const DefaultHeartbeatLimit: int := 60

  /** One monitor's heartbeats, newest first. The table is append-only, so
      newest first is reverse insertion order (see `HistoryIsNewestFirst`). */
  function History(hbs: seq<Heartbeat>, id: int): (r: seq<Heartbeat>)
    ensures |r| <= |hbs|
    ensures forall h :: h in r <==> h in hbs && h.monitorId == id
  {
    if hbs == [] then []
    else
      var last := hbs[|hbs| - 1];
      (if last.monitorId == id then [last] else []) + History(hbs[..|hbs| - 1], id)
  }

  predicate NondecreasingTimestamps(hbs: seq<Heartbeat>) {
    forall i, j :: 0 <= i < j < |hbs| ==> hbs[i].timestamp <= hbs[j].timestamp
  }

  predicate NonincreasingTimestamps(hbs: seq<Heartbeat>) {
    forall i, j :: 0 <= i < j < |hbs| ==> hbs[i].timestamp >= hbs[j].timestamp
  }

  /** While the clock never goes backwards, reverse insertion order is the
      `ORDER BY timestamp DESC` of the queries. */
  lemma {:induction false} HistoryIsNewestFirst(hbs: seq<Heartbeat>, id: int)
    requires NondecreasingTimestamps(hbs)
    ensures NonincreasingTimestamps(History(hbs, id))
  {
    if hbs != [] {
      var front := hbs[..|hbs| - 1];
      var last := hbs[|hbs| - 1];
      assert NondecreasingTimestamps(front);
      HistoryIsNewestFirst(front, id);
      var rest := History(front, id);
      forall h | h in rest ensures h.timestamp <= last.timestamp {
        var k :| 0 <= k < |front| && front[k] == h;
        assert hbs[k] == h;
      }
      var r := History(hbs, id);
      if last.monitorId == id {
        assert r == [last] + rest;
        forall i, j | 0 <= i < j < |r| ensures r[i].timestamp >= r[j].timestamp {
          assert r[j] == rest[j - 1] && rest[j - 1] in rest;
          if i > 0 {
            assert r[i] == rest[i - 1];
            assert rest[i - 1].timestamp >= rest[j - 1].timestamp;
          }
        }
      } else {
        assert r == rest;
      }
    }
  }

  /** Logging one heartbeat puts it at the head of its monitor's history and
      leaves every other monitor's history as it was. */
  lemma LoggedHeartbeatIsNewest(hbs: seq<Heartbeat>, h: Heartbeat, id: int)
    ensures History(hbs + [h], id) == if h.monitorId == id then [h] + History(hbs, id) else History(hbs, id)
  {
    assert (hbs + [h])[..|hbs|] == hbs;
  }

  /** `getHeartbeatsForMonitor(monitorId, limit)`: SQLite treats a negative
      LIMIT as no limit. */
  function HeartbeatsFor(hbs: seq<Heartbeat>, id: int, limit: int): (r: seq<Heartbeat>)
    ensures var all := History(hbs, id);
      |r| <= |all| && r == all[..|r|]
    ensures limit >= 0 ==> |r| == if limit < |History(hbs, id)| then limit else |History(hbs, id)|
    ensures limit < 0 ==> r == History(hbs, id)
    ensures forall h :: h in r ==> h in hbs && h.monitorId == id
  {
    var all := History(hbs, id);
    if limit < 0 || limit >= |all| then all else all[..limit]
  }

  /** `WHERE id = ?` with the number of an all-digit input. */
  predicate IdMatches(m: Monitor, s: string) {
    IsDigits(s) && m.id == DecimalValue(s)
  }

  /** `lower(url) = lower(?)`. */
  predicate UrlMatches(m: Monitor, s: string) {
    SameIgnoringCase(m.url, s)
  }

  /** `lower(url) LIKE lower('%s%')`. */
  predicate UrlContains(m: Monitor, s: string) {
    Contains(Lower(m.url), Lower(s))
  }

  /** `lower(name) LIKE lower('%s%') OR lower(url) LIKE lower('%s%')`. */
  predicate Fuzzy(m: Monitor, s: string) {
    (m.name.Some? && Contains(Lower(m.name.value), Lower(s))) || UrlContains(m, s)
  }

  function FirstMatch(ms: seq<Monitor>, p: Monitor -> bool): (r: Option<Monitor>)
    ensures r.Some? ==> r.value in ms && p(r.value)
    ensures r.None? <==> forall m :: m in ms ==> !p(m)
  {
    match FirstIndex(ms, p)
    case Some(k) => Some(ms[k])
    case None => None
  }

  /** `getMonitorByIdOrName` of src/core/db.js: trim; a blank input finds
      nothing; then id (all-digit inputs only), exact name, exact url, name or
      url substring, url substring, each case-insensitive and each taking the
      first row in table order. */
  function Lookup(ms: seq<Monitor>, input: string): (r: Option<Monitor>)
    ensures AllWhitespace(input) ==> r.None?
    ensures r.Some? ==> r.value in ms
  {
    LookupTrimmed(ms, Trim(input))
  }

  /** The cascade on the trimmed input `s`. */
  function LookupTrimmed(ms: seq<Monitor>, s: string): (r: Option<Monitor>)
    ensures s == "" ==> r.None?
    ensures r.Some? ==> r.value in ms
    ensures r.Some? ==> IdMatches(r.value, s) || NameMatches(r.value, s) || UrlMatches(r.value, s) || Fuzzy(r.value, s)
    ensures s != "" && (exists m :: m in ms && IdMatches(m, s)) ==> r.Some? && IdMatches(r.value, s)
    ensures s != "" && (forall m :: m in ms ==> !IdMatches(m, s)) && (exists m :: m in ms && NameMatches(m, s)) ==>
      r.Some? && NameMatches(r.value, s)
    ensures s != "" && (forall m :: m in ms ==> !IdMatches(m, s) && !NameMatches(m, s)) && (exists m :: m in ms && UrlMatches(m, s)) ==>
      r.Some? && UrlMatches(r.value, s)
  {
    if s == "" then None
    else
      var byId := FirstMatch(ms, m => IdMatches(m, s));
      if byId.Some? then byId
      else
        var byName := FirstMatch(ms, m => NameMatches(m, s));
        if byName.Some? then byName
        else
          var byUrl := FirstMatch(ms, m => UrlMatches(m, s));
          if byUrl.Some? then byUrl
          else
            var fuzzy := FirstMatch(ms, m => Fuzzy(m, s));
            if fuzzy.Some? then fuzzy
            else FirstMatch(ms, m => UrlContains(m, s))
  }

  /** An exact (case-insensitive) name or url match is also a substring match. */
  lemma ExactMatchIsFuzzy(m: Monitor, s: string)
    requires NameMatches(m, s) || UrlMatches(m, s)
    ensures Fuzzy(m, s)
  {
    if NameMatches(m, s) {
      ContainsSelf(Lower(s));
    } else {
      ContainsSelf(Lower(s));
      assert Lower(m.url) == Lower(s);
    }
  }

  /** The lookup finds nothing exactly when the input is blank or no monitor
      matches by id or by substring. */
  lemma LookupFindsNothingIff(ms: seq<Monitor>, s: string)
    ensures LookupTrimmed(ms, s).None? <==> s == "" || forall m :: m in ms ==> !IdMatches(m, s) && !Fuzzy(m, s)
  {
    if s != "" && forall m :: m in ms ==> !IdMatches(m, s) && !Fuzzy(m, s) {
      forall m | m in ms ensures !NameMatches(m, s) && !UrlMatches(m, s) && !UrlContains(m, s) {
        if NameMatches(m, s) || UrlMatches(m, s) {
          ExactMatchIsFuzzy(m, s);
        }
      }
    }
  }

  /** The last query of the cascade (url substring) can only succeed where the
      one before it (name or url substring) already did. */
  lemma HostQueryIsSubsumed(ms: seq<Monitor>, s: string)
    ensures FirstMatch(ms, m => UrlContains(m, s)).Some? ==> FirstMatch(ms, m => Fuzzy(m, s)).Some?
  {
    if FirstMatch(ms, m => UrlContains(m, s)).Some? {
      var m := FirstMatch(ms, m => UrlContains(m, s)).value;
      assert Fuzzy(m, s);
    }
  }

  /** The shorter `getMonitorByIdOrName` in tests/core/group.test.js: id, then
      exact name, then nothing. */
  function LookupByIdOrName(ms: seq<Monitor>, input: string): (r: Option<Monitor>)
    ensures r.Some? ==> r.value in ms && (IdMatches(r.value, Trim(input)) || NameMatches(r.value, Trim(input)))
    ensures r.None? <==>
      (AllWhitespace(input) || forall m :: m in ms ==> !IdMatches(m, Trim(input)) && !NameMatches(m, Trim(input)))
  {
    var s := Trim(input);
    if s == "" then None
    else
      var byId := FirstMatch(ms, m => IdMatches(m, s));
      if byId.Some? then byId else FirstMatch(ms, m => NameMatches(m, s))
  }

  /** Whatever the test copy finds, the full cascade finds too. */
  lemma LookupByIdOrNameAgrees(ms: seq<Monitor>, input: string)
    requires LookupByIdOrName(ms, input).Some?
    ensures Lookup(ms, input) == LookupByIdOrName(ms, input)
  {
  }

  /** `SELECT id FROM monitors WHERE lower(name) = lower(?) [AND id != ?]`. */
  predicate NameTaken(ms: seq<Monitor>, name: string, except: Option<int>) {
    exists m :: m in ms && NameMatches(m, name) && (except.None? || m.id != except.value)
  }
}
