/** The `delete [index]` command of src/commands/delete.js: choosing the
    monitor from a list number, a name or a URL, then removing its history
    and its row. */
module DeleteCommand {
  import opened Wrappers
  import opened Text
  import opened Schema
  import opened Queries
  import opened Store

  // ---------------------------------------------------------------------
  // parseInt(s, 10)

  /** The longest run of decimal digits at the start of `s`. */
  function DigitPrefix(s: string): (r: string)
    ensures |r| <= |s| && r == s[..|r|]
    ensures forall i :: 0 <= i < |r| ==> IsDigit(r[i])
    ensures |r| == |s| || !IsDigit(s[|r|])
  {
    if s == [] || !IsDigit(s[0]) then []
    else [s[0]] + DigitPrefix(s[1..])
  }

  /** What remains after an optional leading sign, and the sign's value. */
  function SignOf(t: string): (r: (int, string))
    ensures r.0 == 1 || r.0 == -1
    ensures r.0 == -1 <==> |t| > 0 && t[0] == '-'
    ensures r.1 == (if |t| > 0 && t[0] in {'-', '+'} then t[1..] else t)
  {
    if |t| > 0 && t[0] == '-' then (-1, t[1..])
    else if |t| > 0 && t[0] == '+' then (1, t[1..])
    else (1, t)
  }

  /** `parseInt(s, 10)`: leading white space skipped, an optional sign, then
      as many digits as there are; `NaN` (here `None`) when there is none.
      Whatever follows the digits is ignored. */
  function ParseInt(s: string): (r: Option<int>)
    ensures r.None? <==> DigitPrefix(SignOf(TrimStart(s)).1) == []
    ensures r.Some? ==> r.value == SignOf(TrimStart(s)).0 * DecimalValue(DigitPrefix(SignOf(TrimStart(s)).1))
  {
    var (sign, rest) := SignOf(TrimStart(s));
    var digits := DigitPrefix(rest);
    if digits == [] then None else Some(sign * DecimalValue(digits))
  }

  lemma AllDigitsArePrefix(s: string)
    requires forall i :: 0 <= i < |s| ==> IsDigit(s[i])
    ensures DigitPrefix(s) == s
  {
  }

  lemma DigitsAreNotBlank(s: string)
    requires |s| > 0 && IsDigit(s[0])
    ensures TrimStart(s) == s
  {
    DigitIsNotWhitespace(s[0]);
  }

  /** The number shown beside a monitor in the list parses back to itself. */
  lemma ParseNumeral(n: nat)
    ensures ParseInt(Numeral(n)) == Some(n)
  {
    var s := Numeral(n);
    DigitsAreNotBlank(s);
    AllDigitsArePrefix(s);
    NumeralValue(n);
  }

  /** Any integer, printed and parsed again, comes back unchanged. */
  lemma ParseIntText(n: int)
    ensures ParseInt(IntText(n)) == Some(n)
  {
    if n >= 0 {
      ParseNumeral(n);
    } else {
      var s := IntText(n);
      assert !IsWhitespace('-');
      assert TrimStart(s) == s;
      assert SignOf(s).1 == Numeral(-n);
      AllDigitsArePrefix(Numeral(-n));
      NumeralValue(-n);
    }
  }

  // ---------------------------------------------------------------------
  // Choosing the target

  datatype Selection = Usage | NotFound | Found(target: Monitor)

  /** The row at the 1-based position `index` names, if any. */
  function AtPosition(ms: seq<Monitor>, index: string): (r: Option<Monitor>)
    ensures r.Some? <==> ParseInt(index).Some? && 1 <= ParseInt(index).value <= |ms|
    ensures r.Some? ==> r.value == ms[ParseInt(index).value - 1]
  {
    match ParseInt(index)
    case None => None
    case Some(k) => if 1 <= k <= |ms| then Some(ms[k - 1]) else None
  }

  predicate HasName(m: Monitor, name: string) {
    m.name == Some(name)
  }

  predicate HasUrl(m: Monitor, url: string) {
    m.url == url
  }

  function Find(ms: seq<Monitor>, p: Monitor -> bool): (r: Option<Monitor>)
    ensures r.Some? <==> exists m :: m in ms && p(m)
    ensures r.Some? ==> (p(r.value) &&
      exists i :: 0 <= i < |ms| && ms[i] == r.value && (forall j :: 0 <= j < i ==> !p(ms[j])))
  {
    match FirstIndex(ms, p)
    case None => None
    case Some(i) => Some(ms[i])
  }

  /** The target of `delete [index] [--name n] [--url u]`: the name wins over
      the URL and the URL over the list number; name and URL must match
      exactly (case included) and the first matching row is taken. */
  function SelectTarget(ms: seq<Monitor>, index: Option<string>, name: Option<string>, url: Option<string>): (r: Selection)
    ensures r == Usage <==> !Truthy(index) && !Truthy(name) && !Truthy(url)
    ensures r.Found? ==> r.target in ms
    ensures Truthy(name) ==> (r.Found? <==> exists m :: m in ms && m.name == name)
    ensures Truthy(name) && r.Found? ==> (r.target.name == name &&
      exists i :: 0 <= i < |ms| && ms[i] == r.target && forall j :: 0 <= j < i ==> ms[j].name != name)
    ensures !Truthy(name) && Truthy(url) ==> (r.Found? <==> exists m :: m in ms && m.url == url.value)
    ensures !Truthy(name) && Truthy(url) && r.Found? ==> (r.target.url == url.value &&
      exists i :: 0 <= i < |ms| && ms[i] == r.target && forall j :: 0 <= j < i ==> ms[j].url != url.value)
    ensures !Truthy(name) && !Truthy(url) && Truthy(index) ==>
      (r.Found? <==> AtPosition(ms, index.value).Some?) &&
      (r.Found? ==> r.target == AtPosition(ms, index.value).value)
  {
    if !Truthy(index) && !Truthy(name) && !Truthy(url) then Usage
    else
      var found :=
        if Truthy(name) then Find(ms, m => HasName(m, name.value))
        else if Truthy(url) then Find(ms, m => HasUrl(m, url.value))
        else AtPosition(ms, index.value);
      match found
      case None => NotFound
      case Some(m) => Found(m)
  }

  /** Selecting by a row's own unique name finds that row. */
  lemma SelectByOwnName(ms: seq<Monitor>, i: nat)
    requires i < |ms| && Truthy(ms[i].name) && UniqueNames(ms)
    ensures SelectTarget(ms, None, ms[i].name, None) == Found(ms[i])
  {
    var r := SelectTarget(ms, None, ms[i].name, None);
    assert ms[i] in ms;
    var j :| 0 <= j < |ms| && ms[j] == r.target && HasName(r.target, ms[i].name.value);
    if j != i {
      assert SameIgnoringCase(ms[j].name.value, ms[i].name.value);
    }
  }

  /** Selecting by the number shown beside a row finds that row. */
  lemma SelectByListNumber(ms: seq<Monitor>, n: nat)
    requires 1 <= n <= |ms|
    ensures SelectTarget(ms, Some(Numeral(n)), None, None) == Found(ms[n - 1])
  {
    ParseNumeral(n);
  }

  // ---------------------------------------------------------------------
  // Running the command

  /** Which of the two statements throws, if one does. */
  datatype Failure = HeartbeatsFail | MonitorFails

  datatype DeleteOutcome = ShowedUsage | ReportedNotFound | Failed | Deleted(shown: string)

  /** The command's action: select, then delete the heartbeats and then the
      row, outside a transaction; a throw ends the command with the error
      reported and what already ran kept. */
  method RunDelete(db: Database, index: Option<string>, name: Option<string>, url: Option<string>,
                   failure: Option<Failure>) returns (r: DeleteOutcome)
    requires db.Valid()
    modifies db
    ensures db.Valid()
    ensures var sel := SelectTarget(old(db.monitors), index, name, url);
      (sel == Usage <==> r == ShowedUsage) &&
      (sel == NotFound <==> r == ReportedNotFound) &&
      (sel.Found? && failure.None? <==> r.Deleted?) &&
      (r.Deleted? ==> r.shown == Label(sel.target))
    ensures var sel := SelectTarget(old(db.monitors), index, name, url);
      if sel.Found? && failure != Some(HeartbeatsFail) then
        db.heartbeats == DropHeartbeats(old(db.heartbeats), {sel.target.id}) &&
        History(db.heartbeats, sel.target.id) == []
      else db.heartbeats == old(db.heartbeats)
    ensures var sel := SelectTarget(old(db.monitors), index, name, url);
      if sel.Found? && failure.None? then
        db.monitors == DropMonitor(old(db.monitors), sel.target.id) &&
        Ids(db.monitors) == Ids(old(db.monitors)) - {sel.target.id}
      else db.monitors == old(db.monitors)
    ensures db.certificates == old(db.certificates) && db.nextId == old(db.nextId)
  {
    var sel := SelectTarget(db.monitors, index, name, url);
    match sel {
      case Usage => return ShowedUsage;
      case NotFound => return ReportedNotFound;
      case Found(target) =>
        if failure == Some(HeartbeatsFail) {
          return Failed;
        }
        db.DeleteHeartbeatsOf(target.id);
        if failure.Some? {
          assert failure.value.MonitorFails?;
          return Failed;
        }
        var _ := db.DeleteMonitorRow(target.id);
        r := Deleted(Label(target));
    }
  }
}
