/**
 * The plugin's live state after initialisation: the tick store, the rows of the
 * on-page report, whether the report has been rendered and whether the one-shot
 * load handler has run; and the operations that change them.
 */
module Plugin {
  import opened Wrappers
  import opened Ticks
  import opened Config
  import opened Beacon

  class Statsd {
    const settings: Settings
    /** The page's navigation-timing attributes (read-only to the plugin). */
    const timing: Timing
    var ticks: seq<Tick>
    var rows: seq<Row>
    var rendered: bool
    var loaded: bool

    /** The report, once rendered, shows exactly one row per tick of the store, in store order. */
    ghost predicate Valid()
      reads this
    {
      && CoversEvents(timing, settings.reportEvents)
      && (rendered ==> loaded)
      && rows == if rendered then RowsOf(ticks, timing["navigationStart"], timing["responseEnd"]) else []
    }

    /** The row `appendTick` would add for `t`. */
    function RowFor(t: Tick): Row
      reads this
      requires CoversEvents(timing, settings.reportEvents)
    {
      RowOf(t, timing["navigationStart"], timing["responseEnd"])
    }

    /** Initialisation: resolve the options and adopt the ticks the page recorded beforehand. */
    constructor (options: Options, statsdTicks: seq<Tick>, timing: Timing)
      requires CoversEvents(timing, Resolve(options).reportEvents)
      ensures Valid()
      ensures settings == Resolve(options) && this.timing == timing
      ensures ticks == statsdTicks && rows == [] && !rendered && !loaded
    {
      settings := Resolve(options);
      this.timing := timing;
      ticks := statsdTicks;
      rows := [];
      rendered := false;
      loaded := false;
    }

    /** Records a tick at the end of the store and, once the report is shown, adds its row too. */
    method NewTick(t: Tick)
      requires Valid()
      modifies this
      ensures Valid()
      ensures ticks == old(ticks) + [t]
      ensures rows == if rendered then old(rows) + [RowFor(t)] else old(rows)
      ensures rendered == old(rendered) && loaded == old(loaded)
    {
      ticks := ticks + [t];
      if rendered {
        rows := rows + [RowFor(t)];
      }
    }

    /** Shows the report: one row per tick, in store order, then marks it rendered. */
    method RenderReport()
      requires Valid() && loaded && !rendered
      modifies this
      ensures Valid() && rendered && loaded
      ensures ticks == old(ticks)
      ensures |rows| == |ticks|
      ensures forall i :: 0 <= i < |ticks| ==> rows[i] == RowFor(ticks[i])
    {
      var i := 0;
      while i < |ticks|
        invariant 0 <= i <= |ticks|
        invariant ticks == old(ticks) && loaded && !rendered
        invariant rows == RowsOf(ticks[..i], timing["navigationStart"], timing["responseEnd"])
      {
        rows := rows + [RowFor(ticks[i])];
        i := i + 1;
      }
      assert ticks[..i] == ticks;
      rendered := true;
    }

    /** Records one tick per configured milestone, in configuration order. */
    method InjectMilestones()
      requires Valid()
      modifies this
      ensures Valid()
      ensures rendered == old(rendered) && loaded == old(loaded)
      ensures |ticks| == |old(ticks)| + |settings.reportEvents|
      ensures ticks[..|old(ticks)|] == old(ticks)
      ensures forall i :: 0 <= i < |settings.reportEvents| ==>
        var e := settings.reportEvents[i];
        ticks[|old(ticks)| + i] == Tick(timing[e.event], e.message, e.reporting)
      ensures ticks == old(ticks) + Milestones(settings.reportEvents, timing)
    {
      var events := settings.reportEvents;
      var i := 0;
      while i < |events|
        invariant 0 <= i <= |events|
        invariant Valid() && rendered == old(rendered) && loaded == old(loaded)
        invariant ticks == old(ticks) + Milestones(events, timing)[..i]
      {
        NewTick(Tick(timing[events[i].event], events[i].message, events[i].reporting));
        i := i + 1;
      }
      assert Milestones(events, timing)[..i] == Milestones(events, timing);
    }

    /** The beacon URL for the current store (what the transport would be given). */
    method ReportTicks() returns (url: string)
      requires Valid() && settings.statsdUrl.Some?
      ensures url == BeaconUrl(settings, timing, ticks)
    {
      var toReport := FilterReporting(ticks);
      var params := PrepareParams(toReport, timing["responseEnd"]);
      ParamsOfPrepared(toReport, timing["responseEnd"], params);
      params := settings.appendParams(params);
      url := settings.statsdUrl.value + "?" + Join(params, '&');
    }

    /** The load handler: record the milestones, sort the store by time, render if asked,
        and send the beacon when the draw `r` (0 <= r < 100) passes the gate. */
    method OnLoad(r: int) returns (sent: Option<string>)
      requires Valid() && !loaded
      requires 0 <= r < 100
      modifies this
      ensures Valid() && loaded
      ensures SortedByMs(ticks)
      ensures multiset(ticks) == multiset(old(ticks)) + multiset(Milestones(settings.reportEvents, timing))
      ensures ticks == SortByMs(old(ticks) + Milestones(settings.reportEvents, timing))
      ensures rendered == settings.displayReport
      ensures sent.Some? <==> ShouldReport(settings.statsdUrl, r, settings.reportingPercent)
      ensures sent.Some? ==> sent.value == BeaconUrl(settings, timing, ticks)
    {
      loaded := true;
      InjectMilestones();
      ticks := SortByMs(ticks);
      if settings.displayReport {
        RenderReport();
      }
      sent := None;
      if settings.statsdUrl.Some? {
        if r < settings.reportingPercent {
          var url := ReportTicks();
          sent := Some(url);
        }
      }
    }

    /** The public call after initialisation: a tick stamped `now`, reportable only if asked. */
    method Record(message: string, reporting: Option<bool>, now: int)
      requires Valid()
      modifies this
      ensures Valid()
      ensures ticks == old(ticks) + [Tick(now, message, reporting == Some(true))]
      ensures rows == if rendered then old(rows) + [RowFor(ticks[|ticks| - 1])] else old(rows)
      ensures rendered == old(rendered) && loaded == old(loaded)
    {
      NewTick(Tick(now, message, reporting.GetOr(false)));
    }
  }
}
