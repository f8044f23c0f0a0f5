/**
 * The tick store's values: a recorded tick, a report-table row, a configured
 * navigation milestone, the comparator the store is sorted with, and the
 * per-tick arithmetic of the on-page report.
 */
module Ticks {

  /** One recorded event: absolute time in ms, its label, and whether it goes into the beacon. */
  datatype Tick = Tick(ms: int, message: string, reporting: bool)

  /** One line of the on-page report table: Clock, Relative, Name, Reporting. */
  datatype Row = Row(clock: int, relative: int, name: string, mark: string)

  /** A navigation-timing milestone that becomes a tick on page load. */
  datatype ReportEvent = ReportEvent(event: string, message: string, reporting: bool)

  /** The navigation-timing attributes of the page, by name, in absolute ms. */
  type Timing = map<string, int>

  /** The attributes the report and the beacon read, plus every configured milestone. */
  predicate CoversEvents(timing: Timing, events: seq<ReportEvent>)
  {
    && "navigationStart" in timing
    && "responseEnd" in timing
    && forall i :: 0 <= i < |events| ==> events[i].event in timing
  }

  // ---------------------------------------------------------------------------
  // Sorting the store by time
  // ---------------------------------------------------------------------------

  /** The comparator handed to the store's sort: -1 when `a` is earlier, otherwise 1 (ties included). */
  function Compare(a: Tick, b: Tick): int
  {
    if a.ms < b.ms then -1 else 1
  }

  ghost predicate SortedByMs(ts: seq<Tick>)
  {
    forall i, j :: 0 <= i < j < |ts| ==> ts[i].ms <= ts[j].ms
  }

  /** Places `t` into an ascending store ahead of the first tick the comparator puts after it,
      so `t` goes before the ticks of equal time. */
  function Insert(t: Tick, s: seq<Tick>): (r: seq<Tick>)
    requires SortedByMs(s)
    ensures SortedByMs(r)
    ensures multiset(r) == multiset(s) + multiset{t}
  {
    if s == [] || Compare(s[0], t) > 0 then [t] + s
    else
      var rest := Insert(t, s[1..]);
      HeadBelowRest(t, s, rest);
      [s[0]] + rest
  }

  /** The head of a sorted store is no later than any tick of its tail with a later tick added. */
  lemma HeadBelowRest(t: Tick, s: seq<Tick>, rest: seq<Tick>)
    requires SortedByMs(s) && s != [] && s[0].ms <= t.ms
    requires multiset(rest) == multiset(s[1..]) + multiset{t}
    ensures SortedByMs(rest) ==> SortedByMs([s[0]] + rest)
    ensures multiset([s[0]] + rest) == multiset(s) + multiset{t}
  {
    assert s == [s[0]] + s[1..];
    forall x | x in rest ensures s[0].ms <= x.ms {
      assert x in multiset(rest);
      if x != t {
        assert x in multiset(s[1..]);
      }
    }
  }

  /** The store in ascending `ms` order: an insertion sort driven by `Compare`. */
  function SortByMs(s: seq<Tick>): (r: seq<Tick>)
    ensures SortedByMs(r)
    ensures multiset(r) == multiset(s)
  {
    if s == [] then []
    else
      assert s == [s[0]] + s[1..];
      Insert(s[0], SortByMs(s[1..]))
  }

  /** A store already in non-decreasing order is left as it is: ticks of equal time keep their order. */
  lemma {:induction false} SortKeepsAscending(s: seq<Tick>)
    requires forall i :: 0 <= i < |s| - 1 ==> s[i].ms <= s[i + 1].ms
    ensures SortByMs(s) == s
  {
    if s != [] {
      SortKeepsAscending(s[1..]);
    }
  }

  // ---------------------------------------------------------------------------
  // Report rows
  // ---------------------------------------------------------------------------

  /** The row shown for `t`: time since navigation start, time since response end, label, "X" if reportable. */
  function RowOf(t: Tick, navigationStart: int, responseEnd: int): Row
  {
    Row(t.ms - navigationStart, t.ms - responseEnd, t.message, if t.reporting then "X" else "")
  }

  /** One row per tick, in store order. */
  function RowsOf(ts: seq<Tick>, navigationStart: int, responseEnd: int): (rows: seq<Row>)
    ensures |rows| == |ts|
    ensures forall i :: 0 <= i < |ts| ==> rows[i] == RowOf(ts[i], navigationStart, responseEnd)
  {
    seq(|ts|, i requires 0 <= i < |ts| => RowOf(ts[i], navigationStart, responseEnd))
  }

  // ---------------------------------------------------------------------------
  // Navigation milestones
  // ---------------------------------------------------------------------------

  /** The tick recorded for a configured milestone. */
  function MilestoneTick(e: ReportEvent, timing: Timing): Tick
    requires e.event in timing
  {
    Tick(timing[e.event], e.message, e.reporting)
  }

  /** One tick per configured milestone, in configuration order. */
  function Milestones(events: seq<ReportEvent>, timing: Timing): (ts: seq<Tick>)
    requires forall i :: 0 <= i < |events| ==> events[i].event in timing
    ensures |ts| == |events|
    ensures forall i :: 0 <= i < |events| ==> ts[i] == MilestoneTick(events[i], timing)
  {
    seq(|events|, i requires 0 <= i < |events| => MilestoneTick(events[i], timing))
  }
}
