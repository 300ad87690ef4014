# Weather observation poller — verified model

`app.py` is a small service for one weather station. At start-up it backfills
48 hours of observations from the upstream observation collection, following
`next` links page by page. Every few minutes it polls the latest observation
and appends it when it is new. It keeps the rows in an in-memory history
(`HISTORY`, oldest first) and prunes rows older than 48 hours. The history is
served as readings in Fahrenheit, inches of mercury and percent, and as CSV.

This project models the part of that service that holds the logic. Time,
timestamp parsing, the HTTP responses and the floating-point library are
parameters. It is organised in modules that follow the program:

- `Conversions` (conversions.dfy): `c_to_f`, `pa_to_inhg`, `clamp`,
  `rh_from_t_and_td` and `wetbulb_stull_c`.
  - `math.exp`, `math.atan` and `**` form an abstract `MathLib`.
  - `exp` may return None, meaning OverflowError, or 0.0, meaning underflow.
  - The model keeps the exceptions the Magnus formula can raise: division by
    zero at `b + T == 0` or `es == 0`, and overflow.
- `Observations` (observations.dfy): `parse_obs_feature` on a feature whose
  `properties` member is missing, null or an object of nested quantity objects.
- `Ordering` (ordering.dfy):
  - Python's string `<`.
  - The stable `list.sort(key=lambda x: x.get("ts") or "")`, defined by an
    insertion sort and pinned down as *the* stable sort: sorted, a permutation,
    equal keys in input order, and unique with those properties.
- `Retention` (retention.dfy): the 48-hour rule of `prune_history` as a filter
  on values.
  - `datetime.fromisoformat` is an abstract `parse: string -> Stamp`.
  - A `Stamp` is unparseable, naive, or an aware instant in microseconds.
- `Ingestion` (ingestion.dfy): `fetch_observations`.
  - The responses are a given sequence of pages: status, `features`, `links`.
  - The page loop is a method proved against the recursive walk `WalkFrom`.
  - The model records the requests made: the initial query, then each `next` URL.
- `Store` (store.dfy): the `History` class with `Prune` (`prune_history`),
  `Poll` (the history step of `poll_latest`) and `Backfill` (`backfill_48h`).
  - Each method is proved equal to a value-level effect function:
    `PruneEffect`, `PollEffect` or `BackfillEffect`.
  - The properties are proved about those functions.
- `Presentation` (presentation.dfy): the readings of `api_history` before
  rounding, and the CSV text of `api_history_csv`.

The model follows what the code does, also where a reader might expect
otherwise:

- Degrading a malformed observation to absent fields would be expected, but a
  `properties` member that is JSON null makes `parse_obs_feature` raise
  AttributeError, because `.get` is called on None.
- Only a *missing* `properties` member, or a missing or null nested quantity,
  degrades to absent fields.
- A naive timestamp in the history makes `prune_history` raise TypeError.
  - The comparison with the aware cutoff sits outside the `try`, so the
    history is left unchanged.
  - During a poll this happens after the append, so the new row stays in,
    unpruned.

## Model

| member | source | states |
|---|---|---|
| Conversions.CToF | app.py:29-30 | absent exactly when the input is absent; otherwise the inverse Fahrenheit map `(f - 32) * 5/9` gives the Celsius input back |
| Conversions.CToFMonotonic | app.py:29-30 | the Fahrenheit conversion preserves and reflects the order of temperatures |
| Conversions.CToFFreezing | app.py:29-30 | 0 °C is 32 °F |
| Conversions.PaToInHg | app.py:32-33 | absent exactly when the input is absent; otherwise the result times 3386.389 Pa/inHg is the input |
| Conversions.StandardAtmosphereInHg | app.py:32-33 | 101325 Pa reads as 29.92 inHg to two decimals |
| Conversions.Clamp | app.py:35-36 | `max(lo, min(hi, v))`: within `[lo, hi]` when `lo <= hi`; `v` when inside; the nearer bound when outside; `lo` when the bounds are inverted |
| Conversions.ClampIdempotent | app.py:35-36 | clamping an already clamped value changes nothing |
| Conversions.MagnusFactor | app.py:42-44 | `exp(a*x/(b+x))` fails exactly at `b + x == 0`, with ZeroDivisionError, or when `exp` overflows, with OverflowError |
| Conversions.RhFromTAndTd | app.py:38-45 | absent exactly when T or Td is absent; a present result lies in [0, 100]; it raises only when both inputs are present and a Magnus factor fails or `es` is zero, and then only ZeroDivisionError or OverflowError |
| Conversions.RhDefinedAwayFromPole | app.py:38-45 | with an `exp` that neither overflows nor underflows to zero, the humidity is defined for every T, Td other than -243.04 °C |
| Conversions.StullFormula | app.py:56-60 | the Stull (2011) expression: T times `atan(0.151977 * sqrt(RH + 8.313659))`, plus `atan(T + RH)`, plus terms that depend on the humidity alone |
| Conversions.WetbulbStullC | app.py:47-61 | absent exactly when T or RH is absent; for RH inside [5, 99] it is the Stull formula on the inputs as given |
| Conversions.WetbulbClampsHumidity | app.py:54-55 | humidity below 5 or above 99 behaves as that bound, and `wetbulb(T, rh) == wetbulb(T, clamp(rh, 5, 99))`; temperature is not clamped |
| Observations.NestedValue | app.py:67-73 | `(props.get(key) or {}).get("value")`: the `value` entry of the quantity object when both are present, absent otherwise |
| Observations.PropertiesOf | app.py:65 | `feature.get("properties", {})`: a missing member reads as an object with no timestamp and no quantities; a present one as itself |
| Observations.ParseObsFeature | app.py:63-79 | the normaliser; it raises AttributeError only on a null `properties` member and otherwise only the humidity formula's ZeroDivisionError or OverflowError; a row carries the feature's timestamp |
| Observations.ParseObsFeatureSpec | app.py:63-79 | null `properties` raises AttributeError and missing `properties` gives an all-absent row; otherwise the only failure is the humidity derivation raising; ts, temperature and dew point are copied; pressure is the station reading, else the sea-level one; a reported RH is kept; a derived RH is absent unless both T and Td are present and then lies in [0, 100] |
| Ordering.Less | app.py:137 | Python's `a < b` on strings: code point by code point, a proper prefix first; the empty string is below every other string and nothing is below it |
| Ordering.SortKey | app.py:137 | the key `x.get("ts") or ""`: the timestamp, or "" when it is absent |
| Ordering.LessIrreflexive | app.py:137 | no string is less than itself |
| Ordering.LessTransitive | app.py:137 | Python's string order is transitive |
| Ordering.LessTrichotomy | app.py:137 | two strings are equal or one is less than the other |
| Ordering.InsertSorted | app.py:137 | inserting into a sorted list after the equal keys keeps it sorted |
| Ordering.InsertWithKey | app.py:137 | inserting appends the new row to the rows of its key and leaves other keys alone |
| Ordering.SortByTs | app.py:137 | the sorted rows are ordered by `ts or ""` and are a permutation of the input |
| Ordering.SortByTsStable | app.py:137 | for every key, the rows with that key appear in the same order before and after sorting |
| Ordering.SortedUnique | app.py:137 | two sorted lists with the same rows per key, in the same order, are equal |
| Ordering.SortByTsIsTheStableSort | app.py:137 | any sorted list that keeps each key's rows in input order equals `SortByTs` of the input |
| Retention.Cutoff | app.py:82 | the cutoff lies exactly 48 hours, in microseconds, before now |
| Retention.Keeps | app.py:86-90 | a row survives when its timestamp is present and parses to an aware instant at or after the cutoff; such a row is never naive |
| Retention.IsNaive | app.py:86-89 | the timestamp is present and parses to a naive datetime, whose comparison with the aware cutoff raises TypeError |
| Retention.HasNaive | app.py:84-89 | some row of the history is naive, so the prune raises; an empty history has none |
| Retention.Kept | app.py:83-90 | the `keep` list: the rows whose timestamp parses to an aware instant at or after the cutoff, in order; never longer than the history |
| Retention.KeptCounts | app.py:84-90 | each row occurs in the `keep` list as often as in the history when it survives, and not at all otherwise |
| Retention.KeptMembers | app.py:84-90 | a row is kept exactly when it is in the history and its timestamp parses to an aware instant at or after the cutoff; a missing or unparseable timestamp drops the row |
| Retention.KeptPositions | app.py:84-90 | the kept rows sit at strictly increasing positions of the history |
| Retention.KeptIsSubsequence | app.py:84-91 | the pruned history is an order-preserving subsequence of the old one |
| Retention.KeptIdempotent | app.py:81-91 | pruning twice with one cutoff is pruning once |
| Retention.KeptLaterCutoff | app.py:81-91 | pruning at an earlier and then at a later cutoff is pruning at the later one |
| Retention.KeptHasNoNaive | app.py:86-89 | no kept row has a naive timestamp, so a second prune cannot raise |
| Retention.KeptSorted | app.py:84-91 | pruning a history sorted by timestamp keeps it sorted |
| Retention.KeptAppended | app.py:161-162 | a surviving row appended last is the last row after the prune |
| Ingestion.IsSuccess | app.py:121 | the statuses `raise_for_status` lets through: 2xx, so status 200 among them |
| Ingestion.IsNextLink | app.py:130 | `link.get("rel") == "next" and link.get("href")`: the relation is "next" and the href is present and non-empty |
| Ingestion.FirstNext | app.py:128-132 | the `href` of the first link with `rel == "next"` and a non-empty `href`; a found URL is never empty |
| Ingestion.FirstNextSpec | app.py:128-133 | there is no next URL exactly when no link has `rel == "next"` and a non-empty `href`; otherwise the URL is the `href` of the first such link |
| Ingestion.NextUrl | app.py:128-132 | the link scan returns the first usable `next` href, or none |
| Ingestion.ParseAll | app.py:123-125 | normalise a page's features in order, aborting at the first that raises; a result has one row per feature |
| Ingestion.ParseAllSpec | app.py:123-125 | a page's features normalise exactly when each does, one row per feature in order; otherwise the page raises its first failing feature's exception |
| Ingestion.ParseAllConcat | app.py:124-125 | normalising a concatenation gives the rows of its parts, one after the other |
| Ingestion.FirstFaultWins | app.py:124-125 | the first feature that raises decides the page's exception |
| Ingestion.NormalisePage | app.py:123-125 | the feature loop appends one normalised row per feature to the rows so far, or raises the first failing feature's exception |
| Ingestion.WalkFrom | app.py:118-135 | the page loop from page `k`: read the page, stop on a failing status, a raising feature or no usable `next` link, else gather its rows and continue at the next link; it makes at least one request and reads no more pages than there are |
| Ingestion.Walk | app.py:116-135 | the walk from the first page, reached by the initial request, which is the first request made |
| Ingestion.WalkRequests | app.py:118-135 | the first request is the initial one; each later request follows the first usable `next` link of the page before it, which did not end the walk; the last page read ends the walk |
| Ingestion.WalkOutcome | app.py:119-126 | the walk succeeds exactly when its last page has a 2xx status and all its features normalise; otherwise it raises that page's HTTP status error or its first feature exception |
| Ingestion.WalkRows | app.py:116-135 | a successful walk returns the normalised features of all pages it read, page after page |
| Ingestion.FetchObservations | app.py:102-138 | the page loop makes exactly the walk's requests; it raises what the walk raises, and otherwise returns the walk's rows sorted by `ts or ""` |
| Ingestion.FetchSortedStable | app.py:116-137 | a successful fetch is sorted, a permutation of every feature of the pages read, with equal timestamps in arrival order |
| Store.LatestTs | app.py:93-94 | `latest_ts()`: the timestamp of the newest row, absent for an empty history |
| Store.PruneEffect | app.py:81-91 | `prune_history` on values: completes with the kept rows, or raises TypeError on a naive timestamp and leaves the rows as they were; it never lengthens the history |
| Store.PollEffect | app.py:150-162 | the history step of `poll_latest` on values: a status other than 200 returns early with nothing changed; a skipped poll changes nothing; at most one row is added |
| Store.BackfillEffect | app.py:140-148 | `backfill_48h` on values: a fetch that raises leaves the history alone; otherwise the history becomes `PruneEffect` of the fetched rows: the survivors, or all fetched rows unpruned when a naive timestamp makes the prune raise TypeError; never more than were fetched |
| Store.PruneEffectSpec | app.py:81-91 | a prune raises TypeError exactly when a row has a naive timestamp, and then leaves the history unchanged; otherwise it keeps an order-preserving subsequence holding each surviving row as many times as the history did, and no other row |
| Store.PruneTwice | app.py:81-91 | a prune right after a completed prune completes and changes nothing |
| Store.PollChangesOnlyNewRows | app.py:150-162 | a poll returns early, with the history unchanged, exactly when the status is not 200 or the timestamp is empty or equal to `latest_ts()`; a feature that raises leaves the history unchanged; a prune that raises leaves the new row appended |
| Store.PollAppendsNewest | app.py:93-94 | a completed poll whose row survives leaves the earlier survivors followed by the row, and `latest_ts()` is its timestamp |
| Store.PollTwiceAppendsOnce | app.py:155-162 | after a completed poll that kept its row, polling the same observation again, at any later time, returns early and appends nothing |
| Store.DroppedRowIsPolledAgain | app.py:155-162 | a polled row that the prune drops leaves the history as the earlier survivors, so the next poll of the same observation is not skipped unless the newest survivor has the same timestamp |
| Store.DuplicateCheckIsTailOnly | app.py:160-162 | an observation whose timestamp equals an older row's, but not the newest one's, is appended again, so the history can hold a timestamp twice |
| Store.BackfillReplaces | app.py:146-148 | after a completed backfill the history is sorted and holds each fetched row that survives the prune as many times as it was fetched, and no other row, whatever it held before |
| Store.History.constructor | app.py:23 | the history starts empty |
| Store.History.Prune | app.py:81-91 | outcome and new history are `PruneEffect` of the old history at `now - 48h` |
| Store.History.Poll | app.py:150-162 | outcome and new history are `PollEffect` of the status, the observation and the old history |
| Store.History.Backfill | app.py:140-148 | makes the walk's requests; outcome and new history are `BackfillEffect` of the fetch result (the walk's error, or its rows sorted) |
| Presentation.HistoryReading | app.py:198-209 | temperature and dry bulb are `c_to_f` of the row's temperature; pressure is `pa_to_inhg` of its pressure; humidity is its RH; wet bulb is `c_to_f` of the Stull formula applied without the presence check, which is therefore redundant; each reading is present exactly when its inputs are |
| Presentation.HeadersArePlain | app.py:215 | the six column names hold no comma and no line break |
| Presentation.Cell | app.py:218 | a value that is missing or None becomes an empty field; any other value is used as is |
| Presentation.Cells | app.py:218 | the value list of one record: one field per column |
| Presentation.Join | app.py:216-220 | `sep.join(parts)`: empty for no parts, and it starts with the first part |
| Presentation.SplitJoin | app.py:216-220 | joining parts that avoid the separator and then splitting gives the parts back |
| Presentation.Fields | app.py:218 | the value list has one field per column, in column order |
| Presentation.RecordLines | app.py:217-219 | one line per record, in record order, each the comma-joined fields of its record |
| Presentation.Csv | app.py:216-220 | the CSV text: the header line, then one comma-joined line per record, joined with line breaks; the text starts with the header line |
| Presentation.RenderCsv | app.py:213-221 | the CSV text is the header line, then one comma-joined line per record, joined with line breaks |
| Presentation.CsvShape | app.py:215-220 | with plain values the CSV has one line per record plus the header; the header line splits back into the column names and each other line into its record's fields, one per column |

## Left out

- HTTP: the client, its headers and timeouts, `raise_for_status` and `r.json()` are replaced by given responses (status, features, links).
  - Invalid JSON, and non-object `features`, `links` or nested values, are not modelled.
  - The `start`/`end`/`limit` query of the first request is recorded only as the `Initial` request.
- Ingestion.FetchObservations: requires that some page ends the walk. A chain of `next` links that never ends, where the source would loop forever, is not modelled.
- Store.History.Backfill: inherits the same requirement.
- `datetime.now`, `fromisoformat`, `_to_rfc3339_no_us`, time zones and `strftime` are left out.
  - Now is a parameter in microseconds.
  - Timestamp parsing is the abstract `parse`.
  - The local-time formatting of `api_history` is not modelled.
- `round` and `str` of floats between the readings and the CSV cells are left out: this is float formatting. CSV cells are modelled as optional strings.
- The AttributeError `api_history` raises on a row whose `ts` is None is not modelled; neither is its local timestamp column.
- `api_current` is not modelled. It repeats the readings of one history row.
- The numeric bodies of `math.exp`, `math.atan` and `**` are abstract. Float rounding is not modelled; all arithmetic is exact.
- The FastAPI app, the static mount, the route responses and the scheduler are left out: this is framework wiring and concurrency.
- Configuration through `os.getenv` is left out.
- Presentation.CsvShape: stated for any column names without commas or line breaks; Presentation.HeadersArePlain shows that the six actual names qualify. It also needs record values without commas or line breaks. The source meets that by construction: every value it writes is a rounded number, a `%Y-%m-%d %H:%M` time or "". The model states the requirement only because its cells are arbitrary strings.
