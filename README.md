# jquery.statsd, modelled in Dafny

`jquery.statsd.js` is a jQuery plugin that measures page-load timing in the browser.
It keeps an in-memory **tick store**: ticks are timestamped, labelled events, each flagged as
reportable or not. On page load it adds one tick per configured navigation-timing milestone and
sorts the store by time. It can show the store as a table at the top of the page. On a random
sample of page loads it sends the reportable ticks to a statsd collector as a `key=value&...`
query string. After initialisation, `$.statsd(message, reporting)` records custom ticks.

The model is split by component:

- `ticks.dfy` (module `Ticks`): the `Tick`, `Row` and `ReportEvent` records. It also holds the
  comparator given to the sort, an insertion sort driven by that comparator, the report-row
  arithmetic of `appendTick`, and the milestone ticks.
- `config.dfy` (module `Config`): the settings, the built-in defaults, and the option-by-option
  override done at initialisation.
- `decimal.dfy` (module `Decimal`): how an integer of magnitude below 1e21 becomes text when it
  is concatenated to a string, and how that text reads back.
- `beacon.dfy` (module `Beacon`): the reportable filter, the key and `key=value` serialisation,
  `prepareParams`, the `&` join and its inverse, the beacon URL, and the sampling gate.
- `plugin.dfy` (module `Plugin`): class `Statsd`. It holds the state the source changes in
  place: `ticks`, `rows` (the report table's rows as records), `rendered` (the source's
  `reportRendered`), and `loaded` (the one-shot load handler has run). Its object invariant
  `Valid()` says that once the report is rendered, `rows` holds exactly one row per tick, in
  store order; before that there are no rows.
- `scenario.dfy` (module `Scenario`): the default configuration run end to end on a concrete page.

Inputs the browser supplies are parameters:
- `Math.floor(Math.random() * 100)` is the draw `r`, with `0 <= r < 100`.
- `Date.now()` is `now`.
- `window.performance.timing` is a map from attribute name to milliseconds.
- `window.statsdTicks` is the constructor's initial store.

## Model

| member | source | states |
|---|---|---|
| `Ticks.Insert` | jquery.statsd.js:166-174 | inserting one tick into a store sorted by `ms` gives a store that is still sorted and holds the old ticks plus the new one (multiset) |
| `Ticks.SortByMs` | jquery.statsd.js:166-174 | the sorted store is non-decreasing in `ms` and is a permutation of its input |
| `Ticks.SortKeepsAscending` | jquery.statsd.js:166-174 | a store already non-decreasing in `ms` comes out of the sort unchanged, so ticks of equal time keep their recorded order |
| `Config.Resolve` | jquery.statsd.js:29-57 | each option the caller gives replaces the default of the same name; an option left out keeps its default: no report, the four standard milestones, identity `appendParams`, 10 percent, and no collector URL |
| `Decimal.IntTextRoundTrip` | jquery.statsd.js:119 | the text an integer value is printed as (minus sign, then digits) reads back as the same integer, negative values included |
| `Beacon.KeyAt` | jquery.statsd.js:119 | a key has the label's length; at each position it holds `_` where the label has a whitespace character, and the lowercased label character elsewhere |
| `Beacon.KeyIsNormal` | jquery.statsd.js:119 | a key contains no whitespace and no upper-case ASCII letter |
| `Beacon.KeyIdempotent` | jquery.statsd.js:119 | the key of a key is the key itself |
| `Beacon.KeyUnderscores` | jquery.statsd.js:119 | the key has one `_` for each `_` or whitespace character of the label, so runs of whitespace are not collapsed |
| `Scenario.DomCompleteKey` | jquery.statsd.js:119 | the label "DOM complete" gives the key `dom_complete` |
| `Beacon.ParamDecodes` | jquery.statsd.js:113-123 | a parameter is the key, then `=`, then integer text; that text reads back as `ms - responseEnd`, the same number as the tick's "Relative" report column |
| `Beacon.PrepareParams` | jquery.statsd.js:113-123 | the index loop returns one `key=value` string per input tick, in input order; the value is `ms - responseEnd` printed as an integer, which may be negative |
| `Beacon.Reportable` | jquery.statsd.js:130-143 | the filtered list is no longer than the store, every tick in it has `reporting` true, and it is a sub-multiset of the store |
| `Beacon.ReportableAppend` | jquery.statsd.js:130-143 | filtering a concatenation gives the concatenation of the filtered parts, so kept ticks stay in store order |
| `Beacon.ReportableCounts` | jquery.statsd.js:130-143 | a tick with `reporting` true is kept as often as it occurs in the store; any other tick is dropped entirely |
| `Beacon.ReportableAll` | jquery.statsd.js:130-143 | a store whose ticks all report is kept whole |
| `Beacon.FilterReporting` | jquery.statsd.js:130-143 | the filter's index loop returns exactly the reportable ticks, in store order |
| `Beacon.SplitJoin` | jquery.statsd.js:146 | splitting the `&`-joined parameters at `&` gives them back, when no parameter contains `&` |
| `Beacon.BeaconParams` | jquery.statsd.js:144-146 | with the default `appendParams` the beacon carries one parameter per reportable tick; a string is among them iff it is the parameter of some reportable tick of the store |
| `Beacon.ShouldReport` | jquery.statsd.js:180-183 | the beacon is sent only when a collector URL is set; with a URL, a percentage of 0 or below never sends and 100 or above always sends, for every draw in [0,100) |
| `Beacon.SendingDrawsCount` | jquery.statsd.js:180-183 | of the draws 0..n-1, the number that send is 0 without a URL or at a percentage of 0 or below, and otherwise the percentage capped at n |
| `Beacon.SampleRate` | jquery.statsd.js:181 | of the 100 equally likely draws, exactly `reportingPercent` send when the percentage is in [0,100] |
| `Plugin.Statsd.constructor` | jquery.statsd.js:59-63 | initialisation resolves the options, adopts the page's pre-recorded ticks, and starts with no rows, not rendered, not loaded |
| `Plugin.Statsd.NewTick` | jquery.statsd.js:100-106 | the tick is appended at the end and earlier ticks are unchanged; once rendered, exactly one row for it is appended too, so `rows` keeps matching `ticks` |
| `Plugin.Statsd.RenderReport` | jquery.statsd.js:80-94 | afterwards there is one row per tick in store order, with clock `ms - navigationStart`, relative `ms - responseEnd`, name `message` and mark "X" iff reportable; `rendered` is set |
| `Plugin.Statsd.InjectMilestones` | jquery.statsd.js:151-163 | exactly one tick per configured milestone is appended, in configuration order; each has `ms = timing[event]` and copies `message` and `reporting` |
| `Plugin.Statsd.ReportTicks` | jquery.statsd.js:128-147 | the URL given to the transport is `statsdUrl + "?"` followed by the `&`-join of `appendParams` applied to the parameters of the reportable ticks |
| `Plugin.Statsd.OnLoad` | jquery.statsd.js:149-185 | the load handler leaves the store sorted, as a permutation of the old store plus the milestones; the report is rendered iff `displayReport`; a beacon is sent iff the gate passes, and it carries the sorted store's beacon URL |
| `Plugin.Statsd.Record` | jquery.statsd.js:189-195 | the public call appends a tick stamped `now`; it is reportable only when `reporting` is given as true, so it defaults to false |
| `Scenario.DefaultBeacon` | jquery.statsd.js:29-57 | with the default milestones and timings responseEnd 100, domContentLoaded 150, domComplete 180 and loadEnd 200 on an empty store, the beacon URL is `url?load_end=100` |
| `Scenario.DefaultPageLoad` | jquery.statsd.js:149-185 | initialising with only a collector URL and firing the load handler sends `url?load_end=100` iff the draw is below 10 |

## Left out

- The AMD/jQuery factory wrapper and the `window.performance` check (jquery.statsd.js:11-21) are not modelled. Without the timing facility the entry point becomes a no-op; this is environment plumbing.
- The DOM and HTML are not modelled. The table, the `$('body').prepend`, and the header line "navigation start to load end" (`loadEventEnd - navigationStart`, jquery.statsd.js:81-87) are left out. Rows are records.
- `reportTicks` also computes `loadEventEnd - navigationStart` (jquery.statsd.js:129) and never uses it. Nothing in the model corresponds to it.
- `$.getScript` is a fire-and-forget network request. The model returns the URL it would be given, from `OnLoad`.
- Event scheduling is not modelled. `$(window).on('load')` and `setTimeout(..., 0)` become one call of `OnLoad`, which requires `!loaded` because the handler fires once per page.
- `Math.random` and `Date.now` are parameters. The timing values are fixed when the plugin is constructed; the source reads them each time they are used, after they have settled.
- Plugin.Statsd.constructor: requires `navigationStart`, `responseEnd` and every configured `event` to be present in the timing map. In the source a missing attribute yields `undefined`, and the arithmetic then yields NaN.
- Plugin.Statsd.constructor: the store is held as a value the plugin owns. In the source it is the page's own `window.statsdTicks` array (jquery.statsd.js:61), so every push and the in-place sort change the page's array, and page code that pushes into `window.statsdTicks` after initialisation adds ticks without `newTick` and, once the report is rendered, without a row. The model assumes the plugin is the array's only writer; `Valid()`'s row-per-tick agreement holds only under that assumption.
- Plugin.Statsd.constructor: takes the page's pre-recorded tick list as given. The source fails on the first push if `window.statsdTicks` is not defined.
- `$.extend` is modelled only as a per-option override (`Config.Resolve`). Options are typed, and an option left undefined counts as absent.
- `appendParams` is arbitrary caller code. The model applies it as an uninterpreted function. `Beacon.BeaconParams` is stated for the identity default only.
- Beacon.KeyAt: lowercases ASCII letters only and treats only ASCII whitespace (tab, LF, VT, FF, CR, space) as `\s`. JavaScript's Unicode `toLowerCase` and the non-ASCII whitespace `\s` matches are not modelled.
- Ticks.SortByMs: the engine's own sort algorithm is not modelled. The model is an insertion sort that puts each tick ahead of the later ticks of equal `ms`, so ties keep their recorded order, as a binary insertion with this comparator does. The comparator returns 1 for a tie in both directions, so it is not a consistent order, and an engine that sorts another way may order ties differently; beyond that, only sortedness and permutation are proved.
- Decimal.IntToText: tick times and `ms - responseEnd` are JavaScript Numbers (doubles); the model takes them as unbounded integers. Fractional values (a pre-recorded tick with a fractional `ms` prints with a decimal point), the loss of precision above 2^53 and the exponent form printed for magnitudes of 1e21 and more (`1e+21`) are not modelled.
- Beacon.ShouldReport: `reportingPercent` is an integer. A fractional or non-numeric JavaScript value is not modelled.
- Plugin.Statsd.Record: `reporting` is an optional boolean. A truthy non-boolean argument would be stored as is and then fail the `=== true` tests; this is not modelled.
- Keys and values are not URL-encoded in the source. A label containing `&` or `=` changes how the query string splits, so `Beacon.SplitJoin` assumes parts free of `&`.
- A variant of the plugin with a configurable base-of-operations label is not part of this source file. It is not modelled.
