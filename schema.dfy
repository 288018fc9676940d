/** The rows of the three tables (`monitors`, `heartbeats`,
    `ssl_certificates`) and the predicates on single rows that the queries use. */
module Schema {
  import opened Wrappers
  import opened Text

  /** The `type` column. Any text other than the three probe kinds (the test
      suite stores 'ssl') is kept as `OtherType`. */
  datatype MonitorType = Http | Icmp | Dns | OtherType(text: string)

  /** A row of `monitors`. `port` and `created_at` are not read by any
      modelled operation and are left out. */
  datatype Monitor = Monitor(
    id: int,
    name: Option<string>,
    kind: MonitorType,
    url: string,
    interval: int,
    webhook: Option<string>,
    group: Option<string>)

  /** The values the worker writes into the `status` column. */
  datatype Status = Up | Down

  /** A row of `heartbeats`; `timestamp` is the insertion time in seconds. */
  datatype Heartbeat = Heartbeat(monitorId: int, status: Status, latency: int, timestamp: int)

  /** A row of `ssl_certificates`, reduced to the column the model needs. */
  datatype Certificate = Certificate(monitorId: int, daysRemaining: int)

  /** JavaScript truthiness of a nullable string: present and non-empty. */
  predicate Truthy(s: Option<string>) {
    s.Some? && s.value != ""
  }

  /** `lower(name) = lower(?)`: a NULL name never matches. */
  predicate NameMatches(m: Monitor, s: string) {
    m.name.Some? && SameIgnoringCase(m.name.value, s)
  }

  /** `lower(group_name) = lower(?)`: a NULL group never matches. */
  predicate InGroup(m: Monitor, g: string) {
    m.group.Some? && SameIgnoringCase(m.group.value, g)
  }

  /** `group_name IS NULL OR group_name = ''`. */
  predicate Ungrouped(m: Monitor) {
    m.group.None? || m.group.value == ""
  }

  /** `m.name || m.url`: the label shown for a monitor. */
  function Label(m: Monitor): (s: string)
    ensures Truthy(m.name) ==> s == m.name.value
    ensures !Truthy(m.name) ==> s == m.url
  {
    if Truthy(m.name) then m.name.value else m.url
  }

  predicate UniqueIds(ms: seq<Monitor>) {
    forall i, j :: 0 <= i < j < |ms| ==> ms[i].id != ms[j].id
  }

  /** No two monitors carry non-empty names equal up to case. */
  predicate UniqueNames(ms: seq<Monitor>) {
    forall i, j :: 0 <= i < j < |ms| && Truthy(ms[i].name) && Truthy(ms[j].name) ==>
      !SameIgnoringCase(ms[i].name.value, ms[j].name.value)
  }

  function Ids(ms: seq<Monitor>): (r: set<int>)
    ensures forall m :: m in ms ==> m.id in r
    ensures forall id :: id in r ==> exists m :: m in ms && m.id == id
  {
    set m | m in ms :: m.id
  }

  /** The rows of `ms` satisfying `p`, in table order. */
  function Filter<T(!new)>(s: seq<T>, p: T -> bool): (r: seq<T>)
    ensures |r| <= |s|
    ensures forall x :: x in r <==> x in s && p(x)
  {
    if s == [] then []
    else (if p(s[0]) then [s[0]] else []) + Filter(s[1..], p)
  }

  /** The position of the first row satisfying `p`, as SQLite's `.get()` and
      JavaScript's `find` return it. */
  function FirstIndex<T>(s: seq<T>, p: T -> bool): (r: Option<nat>)
    ensures r.Some? ==> r.value < |s| && p(s[r.value])
    ensures r.Some? ==> forall j :: 0 <= j < r.value ==> !p(s[j])
    ensures r.None? ==> forall j :: 0 <= j < |s| ==> !p(s[j])
  {
    if s == [] then None
    else if p(s[0]) then Some(0)
    else match FirstIndex(s[1..], p)
      case None => None
      case Some(k) => Some(k + 1)
  }
}
