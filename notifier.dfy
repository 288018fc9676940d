/** The decisions of src/core/notifier.js: which desktop notification an
    alert raises, whether a webhook goes out and what its payload holds.
    The desktop notifier and the HTTP client are not modelled; the effects
    are returned as values, and the ISO time stamp is a parameter. */
module Notifier {
  import opened Wrappers
  import opened Text
  import opened Schema

  /** The five alerts the module raises. */
  datatype Alert = MonitorDown | MonitorUp | SslExpiring(days: int) | SslExpired | SslValid

  function EventName(a: Alert): string {
    match a
    case MonitorDown => "monitor_down"
    case MonitorUp => "monitor_up"
    case SslExpiring(_) => "ssl_expiring"
    case SslExpired => "ssl_expired"
    case SslValid => "ssl_valid"
  }

  datatype Notification = Notification(title: string, message: string, sound: bool)

  /** The `monitor` object of a webhook payload. */
  datatype PayloadMonitor = PayloadMonitor(name: Option<string>, url: string, status: string, time: string)
  datatype Payload = Payload(event: string, monitor: PayloadMonitor)
  datatype Delivery = Delivery(to: string, payload: Payload)

  /** What `sendWebhook` is handed as its monitor: the monitor's own fields,
      plus `daysRemaining` for the expiry alert. */
  datatype Subject = Subject(name: Option<string>, url: string, daysRemaining: Option<int>)

  /** Everything an alert causes. */
  datatype Effects = Effects(notification: Option<Notification>, webhook: Option<Delivery>)

  const CriticalDays: int := 7
  const WarningDays: int := 14

  /** `sendWebhook(webhookUrl, event, monitor)` at time `now`: nothing
      without a URL; otherwise one POST whose payload carries only the
      subject's name and URL, a status that is 'down' exactly for the
      'monitor_down' event, and the time. */
  function SendWebhook(webhookUrl: Option<string>, event: string, subject: Subject, now: string): (r: Option<Delivery>)
    ensures r.None? <==> !Truthy(webhookUrl)
    ensures r.Some? ==> r.value.to == webhookUrl.value && r.value.payload.event == event
    ensures r.Some? ==> r.value.payload.monitor.name == subject.name && r.value.payload.monitor.url == subject.url
    ensures r.Some? ==> (r.value.payload.monitor.status == "down" <==> event == "monitor_down")
    ensures r.Some? ==> (r.value.payload.monitor.status == "up" <==> event != "monitor_down")
    ensures r.Some? ==> r.value.payload.monitor.time == now
  {
    if !Truthy(webhookUrl) then None
    else
      var status := if event == "monitor_down" then "down" else "up";
      Some(Delivery(webhookUrl.value, Payload(event, PayloadMonitor(subject.name, subject.url, status, now))))
  }

  /** The payload does not depend on anything but name and URL: the
      `daysRemaining` the expiry alert adds is dropped. */
  lemma PayloadDropsExtraFields(webhookUrl: Option<string>, event: string, a: Subject, b: Subject, now: string)
    requires a.name == b.name && a.url == b.url
    ensures SendWebhook(webhookUrl, event, a, now) == SendWebhook(webhookUrl, event, b, now)
  {
  }

  function SubjectOf(m: Monitor, a: Alert): Subject {
    Subject(m.name, m.url, if a.SslExpiring? then Some(a.days) else None)
  }

  /** The notification an alert shows, or none for a certificate more than
      two weeks from expiry. */
  function NotificationFor(m: Monitor, a: Alert): Option<Notification> {
    var who := Label(m);
    match a
    case MonitorDown => Some(Notification("\U{274C} Monitor Down", who + " is not responding", true))
    case MonitorUp => Some(Notification("\U{2705} Monitor Back Up", who + " is now responding", true))
    case SslExpiring(days) =>
      if days <= CriticalDays then
        Some(Notification("\U{1F6A8} SSL Certificate Critical", who + " certificate expires in " + IntText(days) + " days!", true))
      else if days <= WarningDays then
        Some(Notification("\U{26A0}\U{FE0F} SSL Certificate Warning", who + " certificate expires in " + IntText(days) + " days", true))
      else None
    case SslExpired => Some(Notification("\U{274C} SSL Certificate Expired", who + " certificate has expired!", true))
    case SslValid => Some(Notification("\U{2705} SSL Certificate Valid", who + " certificate is now valid", true))
  }

  /** `notifyMonitorDown`, `notifyMonitorUp`, `notifySSLExpiring`,
      `notifySSLExpired` and `notifySSLValid` for monitor `m` at time `now`. */
  function Notify(m: Monitor, a: Alert, now: string): (r: Effects)
    ensures r.notification.None? <==> a.SslExpiring? && a.days > WarningDays
    ensures r.notification.Some? ==> StartsWith(r.notification.value.message, Label(m)) && r.notification.value.sound
    ensures r.webhook.Some? <==> r.notification.Some? && Truthy(m.webhook)
    ensures r.webhook.Some? ==>
      (r.webhook.value.to == m.webhook.value &&
       r.webhook.value.payload.event == EventName(a) &&
       r.webhook.value.payload.monitor == PayloadMonitor(m.name, m.url, if a == MonitorDown then "down" else "up", now))
  {
    var n := NotificationFor(m, a);
    if n.None? then Effects(None, None)
    else
      var hook := if Truthy(m.webhook) then SendWebhook(m.webhook, EventName(a), SubjectOf(m, a), now) else None;
      assert StartsWith(n.value.message, Label(m)) by {
        assert n.value.message[..|Label(m)|] == Label(m);
      }
      Effects(n, hook)
  }

  predicate Critical(r: Effects) {
    r.notification.Some? && r.notification.value.title == "\U{1F6A8} SSL Certificate Critical"
  }

  predicate Warning(r: Effects) {
    r.notification.Some? && r.notification.value.title == "\U{26A0}\U{FE0F} SSL Certificate Warning"
  }

  /** The expiry alert has three tiers: critical up to seven days (and past
      expiry), a warning from eight to fourteen, and silence beyond. */
  lemma SslTiers(m: Monitor, days: int, now: string)
    ensures Critical(Notify(m, SslExpiring(days), now)) <==> days <= CriticalDays
    ensures Warning(Notify(m, SslExpiring(days), now)) <==> CriticalDays < days <= WarningDays
    ensures Notify(m, SslExpiring(days), now) == Effects(None, None) <==> days > WarningDays
  {
  }

  /** A certificate closer to expiry never raises a milder alert. */
  lemma SslTiersMonotone(m: Monitor, d1: int, d2: int, now: string)
    requires d1 <= d2
    ensures Critical(Notify(m, SslExpiring(d2), now)) ==> Critical(Notify(m, SslExpiring(d1), now))
    ensures Notify(m, SslExpiring(d1), now).notification.None? ==> Notify(m, SslExpiring(d2), now).notification.None?
  {
    SslTiers(m, d1, now);
    SslTiers(m, d2, now);
  }

  /** Only the 'monitor_down' event reports the status 'down'; the other four
      alerts, the certificate ones included, report 'up'. */
  lemma OnlyDownReportsDown(m: Monitor, a: Alert, now: string)
    requires Truthy(m.webhook) && Notify(m, a, now).notification.Some?
    ensures Notify(m, a, now).webhook.value.payload.monitor.status == "down" <==> a == MonitorDown
  {
  }
}
