/**
 * The plugin's settings: built-in defaults, the caller's options, and the
 * per-option override that resolves one from the other at initialisation.
 */
module Config {
  import opened Wrappers
  import opened Ticks

  /** Resolved settings, fixed for the page's lifetime. `statsdUrl` is None when no collector is configured. */
  datatype Settings = Settings(
    displayReport: bool,
    reportEvents: seq<ReportEvent>,
    appendParams: seq<string> -> seq<string>,
    reportingPercent: int,
    statsdUrl: Option<string>)

  /** The options object passed to the initialiser; None is an option left out (or left undefined). */
  datatype Options = Options(
    displayReport: Option<bool>,
    reportEvents: Option<seq<ReportEvent>>,
    appendParams: Option<seq<string> -> seq<string>>,
    reportingPercent: Option<int>,
    statsdUrl: Option<string>)

  const NoOptions := Options(None, None, None, None, None)

  /** The four standard milestones; only "Load end" is reported by default. */
  const DefaultReportEvents: seq<ReportEvent> := [
    ReportEvent("responseEnd", "Response end", false),
    ReportEvent("domContentLoadedEventEnd", "DOM content loaded", false),
    ReportEvent("domComplete", "DOM complete", false),
    ReportEvent("loadEventEnd", "Load end", true)
  ]

  /** The default post-processing of the serialised parameters: none. */
  function KeepParams(params: seq<string>): seq<string>
  {
    params
  }

  const DefaultPercent := 10

  /** The built-in defaults: no report, the four milestones, 10 percent, no collector. */
  const Defaults := Settings(false, DefaultReportEvents, KeepParams, DefaultPercent, None)

  /** Shallow merge: each option the caller gives replaces the default of that name, whole. */
  function Resolve(o: Options): (s: Settings)
    ensures o.displayReport.Some? ==> s.displayReport == o.displayReport.value
    ensures o.displayReport.None? ==> !s.displayReport
    ensures o.reportEvents.Some? ==> s.reportEvents == o.reportEvents.value
    ensures o.reportEvents.None? ==> s.reportEvents == DefaultReportEvents
    ensures o.appendParams.Some? ==> s.appendParams == o.appendParams.value
    ensures o.appendParams.None? ==> forall ps :: s.appendParams(ps) == ps
    ensures o.reportingPercent.Some? ==> s.reportingPercent == o.reportingPercent.value
    ensures o.reportingPercent.None? ==> s.reportingPercent == 10
    ensures s.statsdUrl == o.statsdUrl
  {
    Settings(
      o.displayReport.GetOr(Defaults.displayReport),
      o.reportEvents.GetOr(Defaults.reportEvents),
      o.appendParams.GetOr(Defaults.appendParams),
      o.reportingPercent.GetOr(Defaults.reportingPercent),
      if o.statsdUrl.Some? then o.statsdUrl else Defaults.statsdUrl)
  }
}
