/**
 * The sampler and beacon reporter: which ticks are reportable, how each becomes
 * a `key=value` query parameter, how the parameters are joined into the URL
 * handed to the transport, and the random gate that decides whether it is sent.
 */
module Beacon {
  import opened Wrappers
  import opened Decimal
  import opened Ticks
  import opened Config

  // ---------------------------------------------------------------------------
  // Parameter keys: the label lowercased, each whitespace character made '_'
  // ---------------------------------------------------------------------------

  /** ASCII whitespace, the characters `\s` matches below U+0080: tab, LF, VT, FF, CR, space. */
  predicate IsSpace(c: char)
  {
    c == ' ' || c == '\t' || c == '\n' || c == '\r' || c as int == 11 || c as int == 12
  }

  predicate IsUpper(c: char)
  {
    'A' <= c <= 'Z'
  }

  /** ASCII lower-casing; every other character is left as it is. */
  function Lower(c: char): char
  {
    if IsUpper(c) then (c as int + 32) as char else c
  }

  /** `toLowerCase`: every character of the label lower-cased. */
  function LowerAll(s: string): string
  {
    seq(|s|, i requires 0 <= i < |s| => Lower(s[i]))
  }

  /** `replace(/\s/g, '_')`: every whitespace character replaced by '_', one for one. */
  function SpacesToUnderscores(s: string): string
  {
    seq(|s|, i requires 0 <= i < |s| => if IsSpace(s[i]) then '_' else s[i])
  }

  /** The parameter key of a label: lowercased, then every whitespace character replaced by '_'. */
  function Key(message: string): string
  {
    SpacesToUnderscores(LowerAll(message))
  }

  /** The key has the label's length, and each position holds '_' where the label has whitespace
      and the lowercased label character otherwise: no run of spaces is collapsed. */
  lemma KeyAt(message: string, i: int)
    requires 0 <= i < |message|
    ensures |Key(message)| == |message|
    ensures Key(message)[i] == if IsSpace(message[i]) then '_' else Lower(message[i])
  {
  }

  /** A key holds no whitespace and no upper-case ASCII letter. */
  lemma KeyIsNormal(message: string)
    ensures forall i :: 0 <= i < |Key(message)| ==> !IsSpace(Key(message)[i]) && !IsUpper(Key(message)[i])
  {
  }

  /** Computing the key of a key changes nothing. */
  lemma KeyIdempotent(message: string)
    ensures Key(Key(message)) == Key(message)
  {
  }

  /** Number of underscores in a string. */
  function Underscores(s: string): nat
  {
    if s == [] then 0 else (if s[0] == '_' then 1 else 0) + Underscores(s[1..])
  }

  /** Number of whitespace characters in a string. */
  function Spaces(s: string): nat
  {
    if s == [] then 0 else (if IsSpace(s[0]) then 1 else 0) + Spaces(s[1..])
  }

  /** Whitespace is replaced one for one: the key has one '_' per underscore or whitespace character of the label. */
  lemma {:induction false} KeyUnderscores(message: string)
    ensures Underscores(Key(message)) == Underscores(message) + Spaces(message)
  {
    if message != [] {
      KeyUnderscores(message[1..]);
      assert Key(message)[1..] == Key(message[1..]);
    }
  }

  // ---------------------------------------------------------------------------
  // Parameters
  // ---------------------------------------------------------------------------

  /** The `key=value` text for one tick; the value is its time relative to response end. */
  function Param(t: Tick, responseEnd: int): string
  {
    Key(t.message) + "=" + IntToText(t.ms - responseEnd)
  }

  /** A parameter splits back into its parts: the key for the label's positions, then '=',
      then integer text that reads back as `ms - responseEnd`, the same number as the tick's
      "Relative" report column. */
  lemma ParamDecodes(t: Tick, navigationStart: int, responseEnd: int)
    ensures var p, n := Param(t, responseEnd), |t.message|;
      && |p| > n + 1
      && p[..n] == Key(t.message)
      && p[n] == '='
      && IsIntText(p[n + 1..])
      && ParseInt(p[n + 1..]) == t.ms - responseEnd
      && ParseInt(p[n + 1..]) == RowOf(t, navigationStart, responseEnd).relative
  {
    var p, n := Param(t, responseEnd), |t.message|;
    assert p[n + 1..] == IntToText(t.ms - responseEnd);
    assert p[..n] == Key(t.message);
    IntTextRoundTrip(t.ms - responseEnd);
  }

  /** One parameter per tick, in the ticks' order. */
  function Params(ts: seq<Tick>, responseEnd: int): (ps: seq<string>)
    ensures |ps| == |ts|
    ensures forall i :: 0 <= i < |ts| ==> ps[i] == Param(ts[i], responseEnd)
  {
    seq(|ts|, i requires 0 <= i < |ts| => Param(ts[i], responseEnd))
  }

  /** Builds the parameter list with an index loop, one `key=value` per tick, in order. */
  method PrepareParams(ts: seq<Tick>, responseEnd: int) returns (ps: seq<string>)
    ensures |ps| == |ts|
    ensures forall i :: 0 <= i < |ts| ==> ps[i] == Key(ts[i].message) + "=" + IntToText(ts[i].ms - responseEnd)
  {
    ps := [];
    var i := 0;
    while i < |ts|
      invariant 0 <= i <= |ts|
      invariant |ps| == i
      invariant forall k :: 0 <= k < i ==> ps[k] == Param(ts[k], responseEnd)
    {
      ps := ps + [Param(ts[i], responseEnd)];
      i := i + 1;
    }
  }

  lemma ParamsOfPrepared(ts: seq<Tick>, responseEnd: int, ps: seq<string>)
    requires |ps| == |ts|
    requires forall i :: 0 <= i < |ts| ==> ps[i] == Key(ts[i].message) + "=" + IntToText(ts[i].ms - responseEnd)
    ensures ps == Params(ts, responseEnd)
  {
  }

  // ---------------------------------------------------------------------------
  // The reportable filter
  // ---------------------------------------------------------------------------

  /** The ticks whose reporting flag is true, in store order. */
  function Reportable(ts: seq<Tick>): (r: seq<Tick>)
    ensures |r| <= |ts|
    ensures forall i :: 0 <= i < |r| ==> r[i].reporting
    ensures multiset(r) <= multiset(ts)
  {
    if ts == [] then []
    else
      var last := ts[|ts| - 1];
      assert ts == ts[..|ts| - 1] + [last];
      Reportable(ts[..|ts| - 1]) + (if last.reporting then [last] else [])
  }

  /** Filtering distributes over concatenation, so the kept ticks keep their relative order. */
  lemma {:induction false} ReportableAppend(a: seq<Tick>, b: seq<Tick>)
    ensures Reportable(a + b) == Reportable(a) + Reportable(b)
    decreases |b|
  {
    if b != [] {
      var last := b[|b| - 1];
      var b' := b[..|b| - 1];
      assert (a + b)[..|a + b| - 1] == a + b';
      assert (a + b)[|a + b| - 1] == last;
      ReportableAppend(a, b');
    } else {
      assert a + b == a;
    }
  }

  /** Every tick with the flag set is kept as often as it occurs, every other tick is dropped. */
  lemma {:induction false} ReportableCounts(ts: seq<Tick>, t: Tick)
    ensures multiset(Reportable(ts))[t] == if t.reporting then multiset(ts)[t] else 0
  {
    if ts != [] {
      var init := ts[..|ts| - 1];
      ReportableCounts(init, t);
      assert ts == init + [ts[|ts| - 1]];
    }
  }

  /** A store in which every tick reports is kept whole. */
  lemma {:induction false} ReportableAll(ts: seq<Tick>)
    requires forall i :: 0 <= i < |ts| ==> ts[i].reporting
    ensures Reportable(ts) == ts
  {
    if ts != [] {
      ReportableAll(ts[..|ts| - 1]);
      assert ts == ts[..|ts| - 1] + [ts[|ts| - 1]];
    }
  }

  /** The filter's index loop, collecting reportable ticks into a fresh list. */
  method FilterReporting(ts: seq<Tick>) returns (filtered: seq<Tick>)
    ensures filtered == Reportable(ts)
  {
    filtered := [];
    var i := 0;
    while i < |ts|
      invariant 0 <= i <= |ts|
      invariant filtered == Reportable(ts[..i])
    {
      assert ts[..i + 1][..i] == ts[..i];
      if ts[i].reporting {
        filtered := filtered + [ts[i]];
      }
      i := i + 1;
    }
    assert ts[..i] == ts;
  }

  // ---------------------------------------------------------------------------
  // The query string
  // ---------------------------------------------------------------------------

  /** Array join: the parts with `sep` between neighbours. */
  function Join(parts: seq<string>, sep: char): string
  {
    if parts == [] then ""
    else if |parts| == 1 then parts[0]
    else parts[0] + [sep] + Join(parts[1..], sep)
  }

  /** Index of the first `c` in `s`, or |s| when there is none. */
  function FirstIndex(s: string, c: char): (i: nat)
    ensures i <= |s|
    ensures i < |s| ==> s[i] == c
    ensures forall k :: 0 <= k < i ==> s[k] != c
  {
    if s == [] then 0
    else if s[0] == c then 0
    else 1 + FirstIndex(s[1..], c)
  }

  /** The inverse of `Join`: the pieces of `s` between occurrences of `sep`. */
  function Split(s: string, sep: char): (parts: seq<string>)
    ensures |parts| >= 1
    decreases |s|
  {
    var i := FirstIndex(s, sep);
    if i == |s| then [s] else [s[..i]] + Split(s[i + 1..], sep)
  }

  /** Splitting a join gives the parts back, when no part contains the separator. */
  lemma {:induction false} SplitJoin(parts: seq<string>, sep: char)
    requires |parts| >= 1
    requires forall i, k :: 0 <= i < |parts| && 0 <= k < |parts[i]| ==> parts[i][k] != sep
    ensures Split(Join(parts, sep), sep) == parts
  {
    var p := parts[0];
    if |parts| == 1 {
      assert FirstIndex(p, sep) == |p|;
    } else {
      var rest := Join(parts[1..], sep);
      var s := p + [sep] + rest;
      assert s[..|p|] == p;
      assert s[|p| + 1..] == rest;
      assert FirstIndex(s, sep) == |p| by {
        FirstIndexAfter(p, sep, rest);
      }
      SplitJoin(parts[1..], sep);
      assert parts == [p] + parts[1..];
    }
  }

  lemma {:induction false} FirstIndexAfter(p: string, sep: char, rest: string)
    requires forall k :: 0 <= k < |p| ==> p[k] != sep
    ensures FirstIndex(p + [sep] + rest, sep) == |p|
  {
    if p != [] {
      assert (p + [sep] + rest)[1..] == p[1..] + [sep] + rest;
      FirstIndexAfter(p[1..], sep, rest);
    }
  }

  /** The URL handed to the transport: the collector, '?', and the parameters joined by '&'. */
  function QueryUrl(statsdUrl: string, params: seq<string>): string
  {
    statsdUrl + "?" + Join(params, '&')
  }

  /** The beacon URL for a store: reportable ticks in store order, serialised, post-processed by
      `appendParams`, joined. */
  function BeaconUrl(s: Settings, timing: Timing, ts: seq<Tick>): string
    requires s.statsdUrl.Some? && "responseEnd" in timing
  {
    QueryUrl(s.statsdUrl.value, s.appendParams(Params(Reportable(ts), timing["responseEnd"])))
  }

  /** With the default post-processing the beacon carries exactly the parameters of the reportable
      ticks: a parameter is present iff some reportable tick of the store serialises to it, one per
      reportable tick and in store order. */
  lemma BeaconParams(ts: seq<Tick>, responseEnd: int, p: string)
    ensures var params := KeepParams(Params(Reportable(ts), responseEnd));
      && |params| == |Reportable(ts)|
      && (p in params <==> exists t :: t in ts && t.reporting && p == Param(t, responseEnd))
  {
    var r := Reportable(ts);
    var params := KeepParams(Params(r, responseEnd));
    if p in params {
      var i :| 0 <= i < |params| && params[i] == p;
      assert r[i] in multiset(r);
      assert r[i] in multiset(ts);
    }
    if exists t :: t in ts && t.reporting && p == Param(t, responseEnd) {
      var t :| t in ts && t.reporting && p == Param(t, responseEnd);
      ReportableCounts(ts, t);
      assert t in multiset(r);
      var i :| 0 <= i < |r| && r[i] == t;
      assert params[i] == p;
    }
  }

  // ---------------------------------------------------------------------------
  // The sampling gate
  // ---------------------------------------------------------------------------

  /** The beacon goes out iff a collector is configured and the draw `r` falls below the percentage. */
  function ShouldReport(statsdUrl: Option<string>, r: int, reportingPercent: int): (send: bool)
    ensures send ==> statsdUrl.Some?
    ensures statsdUrl.Some? && reportingPercent <= 0 && 0 <= r ==> !send
    ensures statsdUrl.Some? && r < 100 <= reportingPercent ==> send
  {
    statsdUrl.Some? && r < reportingPercent
  }

  /** How many of the draws 0 .. n-1 send the beacon. */
  function SendingDraws(statsdUrl: Option<string>, reportingPercent: int, n: nat): nat
  {
    if n == 0 then 0
    else SendingDraws(statsdUrl, reportingPercent, n - 1) + (if ShouldReport(statsdUrl, n - 1, reportingPercent) then 1 else 0)
  }

  /** Of the draws 0 .. n-1, exactly `reportingPercent` clipped to [0, n] send (none without a collector). */
  lemma {:induction false} SendingDrawsCount(statsdUrl: Option<string>, reportingPercent: int, n: nat)
    ensures SendingDraws(statsdUrl, reportingPercent, n) ==
      if statsdUrl.None? || reportingPercent <= 0 then 0
      else if reportingPercent >= n then n
      else reportingPercent
  {
    if n > 0 {
      SendingDrawsCount(statsdUrl, reportingPercent, n - 1);
    }
  }

  /** Each of the 100 equally likely draws, so a configured collector gets the beacon on
      `reportingPercent` of 100 page loads: never at 0 or below, always at 100 or above. */
  lemma SampleRate(statsdUrl: Option<string>, reportingPercent: int)
    requires statsdUrl.Some?
    ensures reportingPercent <= 0 ==> SendingDraws(statsdUrl, reportingPercent, 100) == 0
    ensures 0 <= reportingPercent <= 100 ==> SendingDraws(statsdUrl, reportingPercent, 100) == reportingPercent
    ensures reportingPercent >= 100 ==> SendingDraws(statsdUrl, reportingPercent, 100) == 100
  {
    SendingDrawsCount(statsdUrl, reportingPercent, 100);
  }
}
