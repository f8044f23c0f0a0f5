/** The page-load scenario with the default milestones and a configured collector. */
module Scenario {
  import opened Plugin
  import opened Wrappers
  import opened Decimal
  import opened Ticks
  import opened Config
  import opened Beacon

  const PageTiming: Timing := map[
    "navigationStart" := 0, "responseEnd" := 100, "domContentLoadedEventEnd" := 150,
    "domComplete" := 180, "loadEventEnd" := 200]

  /** Default settings except the collector URL. */
  function WithCollector(url: string): Settings
  {
    Resolve(Options(None, None, None, None, Some(url)))
  }

  const DefaultTicks := [
    Tick(100, "Response end", false), Tick(150, "DOM content loaded", false),
    Tick(180, "DOM complete", false), Tick(200, "Load end", true)]

  lemma DefaultMilestoneTicks()
    ensures CoversEvents(PageTiming, DefaultReportEvents)
    ensures Milestones(DefaultReportEvents, PageTiming) == DefaultTicks
  {
  }

  /** The default label "DOM complete" becomes the key "dom_complete". */
  lemma DomCompleteKey()
    ensures Key("DOM complete") == "dom_complete"
  {
    var m := "DOM complete";
    forall i | 0 <= i < |m| ensures Key(m)[i] == "dom_complete"[i] {
      KeyAt(m, i);
      if i == 3 {
        assert IsSpace(m[i]);
      } else if i < 3 {
        assert IsUpper(m[i]) && !IsSpace(m[i]) && "dom_complete"[i] == Lower(m[i]);
      } else {
        assert !IsUpper(m[i]) && !IsSpace(m[i]) && "dom_complete"[i] == m[i];
      }
    }
  }

  lemma LoadEndKey()
    ensures Key("Load end") == "load_end"
  {
    var m := "Load end";
    forall i | 0 <= i < |m| ensures Key(m)[i] == "load_end"[i] {
      KeyAt(m, i);
      if i == 4 {
        assert IsSpace(m[i]);
      } else if i < 1 {
        assert IsUpper(m[i]) && !IsSpace(m[i]) && "load_end"[i] == Lower(m[i]);
      } else {
        assert !IsUpper(m[i]) && !IsSpace(m[i]) && "load_end"[i] == m[i];
      }
    }
  }

  lemma HundredText()
    ensures IntToText(100) == "100"
  {
    assert NatToText(1) == "1";
    assert NatToText(10) == "10";
  }

  lemma LoadEndParam()
    ensures Param(Tick(200, "Load end", true), 100) == "load_end=100"
  {
    LoadEndKey();
    HundredText();
  }

  lemma DefaultTicksReportable()
    ensures Reportable(DefaultTicks) == [DefaultTicks[3]]
  {
    var d := DefaultTicks;
    assert d[..3][..2] == d[..2];
    assert d[..2][..1] == d[..1];
    assert d[..1][..0] == [];
  }

  lemma CollectorSettings(url: string, ps: seq<string>)
    ensures WithCollector(url).reportEvents == DefaultReportEvents
    ensures WithCollector(url).statsdUrl == Some(url)
    ensures WithCollector(url).appendParams(ps) == ps
  {
  }

  lemma DefaultTicksSorted()
    ensures SortByMs([] + DefaultTicks) == DefaultTicks
  {
    assert [] + DefaultTicks == DefaultTicks;
    SortKeepsAscending(DefaultTicks);
  }

  lemma LoadEndParams()
    ensures Params([DefaultTicks[3]], 100) == ["load_end=100"]
  {
    LoadEndParam();
  }

  /** On a page whose store was empty, the default milestones sort into configuration order and
      only "Load end" is reported, 100 ms after response end: the beacon is `url?load_end=100`. */
  lemma DefaultBeacon(url: string)
    ensures var s := WithCollector(url);
      && CoversEvents(PageTiming, s.reportEvents)
      && BeaconUrl(s, PageTiming, SortByMs([] + Milestones(s.reportEvents, PageTiming))) == url + "?" + "load_end=100"
  {
    var s := WithCollector(url);
    var ps := ["load_end=100"];
    CollectorSettings(url, ps);
    DefaultMilestoneTicks();
    var m := Milestones(s.reportEvents, PageTiming);
    assert m == DefaultTicks;
    DefaultTicksSorted();
    var sorted := SortByMs([] + m);
    assert sorted == DefaultTicks;
    DefaultTicksReportable();
    var r := Reportable(sorted);
    assert r == [DefaultTicks[3]];
    LoadEndParams();
    assert Params(r, PageTiming["responseEnd"]) == ps;
    assert s.appendParams(ps) == ps;
    assert Join(ps, '&') == "load_end=100";
    assert BeaconUrl(s, PageTiming, sorted) == url + "?" + Join(s.appendParams(ps), '&');
  }

  /** Initialising with only a collector URL, then firing the load handler on an empty store:
      the beacon `url?load_end=100` goes out exactly when the draw is below the default 10. */
  method DefaultPageLoad(url: string, r: int) returns (sent: Option<string>)
    requires 0 <= r < 100
    ensures r < 10 ==> sent == Some(url + "?" + "load_end=100")
    ensures r >= 10 ==> sent == None
  {
    DefaultBeacon(url);
    var plugin := new Statsd(Options(None, None, None, None, Some(url)), [], PageTiming);
    sent := plugin.OnLoad(r);
  }
}
