/**
 * What the history endpoints present: the per-row readings of `api_history`
 * (before rounding and formatting) and the CSV text of `api_history_csv`, a
 * header line and one comma-joined line per record, with absent values as
 * empty fields.
 */
module Presentation {
  import opened Wrappers
  import opened Conversions
  import opened Observations

  /** The numeric readings of one `api_history` record, before `round`. */
  datatype Reading = Reading(
    temperatureF: Option<real>,
    dryBulbF: Option<real>,
    wetBulbF: Option<real>,
    humidityPercent: Option<real>,
    pressureInHg: Option<real>)

  /**
   * The readings `api_history` derives from one history row. The presence check
   * around the wet-bulb call is redundant: the wet-bulb reading is the Fahrenheit
   * value of the Stull formula applied unconditionally.
   */
  function HistoryReading(m: MathLib, row: Row): (r: Reading)
    ensures r.temperatureF == CToF(row.tempC) && r.dryBulbF == r.temperatureF
    ensures r.pressureInHg == PaToInHg(row.pressurePa)
    ensures r.wetBulbF == CToF(WetbulbStullC(m, row.tempC, row.rh))
    ensures r.temperatureF.Some? <==> row.tempC.Some?
    ensures r.wetBulbF.Some? <==> row.tempC.Some? && row.rh.Some?
    ensures r.humidityPercent == row.rh
    ensures r.pressureInHg.Some? <==> row.pressurePa.Some?
  {
    var wetBulbC := if row.tempC.Some? && row.rh.Some? then WetbulbStullC(m, row.tempC, row.rh) else None;
    Reading(CToF(row.tempC), CToF(row.tempC), CToF(wetBulbC), row.rh, PaToInHg(row.pressurePa))
  }

  /** One formatted `api_history` record: its value for each header, if any. */
  type Record = map<string, Option<string>>

  /** The CSV column names, in column order. */
  const Headers: seq<string> := ["timestamp_local", "temperature_F", "dry_bulb_F", "wet_bulb_F", "humidity_percent", "pressure_inHg"]

  /** The column names hold neither a comma nor a line break. */
  lemma HeadersArePlain()
    ensures |Headers| == 6
    ensures forall i :: 0 <= i < |Headers| ==> ',' !in Headers[i] && '\n' !in Headers[i]
  {
  }

  /** `r.get(h) if r.get(h) is not None else ""`. */
  function Cell(r: Record, h: string): (cell: string)
    ensures h !in r || r[h].None? ==> cell == ""
    ensures h in r && r[h].Some? ==> cell == r[h].value
  {
    if h in r && r[h].Some? then r[h].value else ""
  }

  /** The fields of one CSV line, one per column, in column order. */
  function Cells(headers: seq<string>, r: Record): (cells: seq<string>)
    ensures |cells| == |headers|
  {
    seq(|headers|, i requires 0 <= i < |headers| => Cell(r, headers[i]))
  }

  /** `sep.join(parts)`. */
  function Join(sep: char, parts: seq<string>): (joined: string)
    ensures parts == [] ==> joined == ""
    ensures parts != [] ==> |parts[0]| <= |joined| && joined[..|parts[0]|] == parts[0]
  {
    if parts == [] then ""
    else if |parts| == 1 then parts[0]
    else parts[0] + [sep] + Join(sep, parts[1..])
  }

  /** The index of the first `c` in `s`, or `|s|` when there is none. */
  function IndexOf(c: char, s: string): (i: nat)
    ensures i <= |s|
    ensures i < |s| ==> s[i] == c
    ensures forall j :: 0 <= j < i ==> s[j] != c
  {
    if s == [] then 0
    else if s[0] == c then 0
    else 1 + IndexOf(c, s[1..])
  }

  /** `s.split(sep)`: the pieces between separators, empty pieces included. */
  function Split(sep: char, s: string): (parts: seq<string>)
    ensures |parts| >= 1
    decreases |s|
  {
    var i := IndexOf(sep, s);
    if i == |s| then [s] else [s[..i]] + Split(sep, s[i + 1..])
  }

  /** Joining with a separator that occurs in no part, then splitting on it, gives the parts back. */
  lemma {:induction false} SplitJoin(sep: char, parts: seq<string>)
    requires |parts| >= 1
    requires forall i :: 0 <= i < |parts| ==> sep !in parts[i]
    ensures Split(sep, Join(sep, parts)) == parts
  {
    var p := parts[0];
    if |parts| == 1 {
      assert IndexOf(sep, p) == |p|;
    } else {
      var rest := Join(sep, parts[1..]);
      SplitFirst(sep, p, rest);
      SplitJoin(sep, parts[1..]);
    }
  }

  /** Splitting at the first separator, when the piece before it holds none. */
  lemma SplitFirst(sep: char, p: string, rest: string)
    requires sep !in p
    ensures Split(sep, p + [sep] + rest) == [p] + Split(sep, rest)
  {
    var s := p + [sep] + rest;
    assert s[|p|] == sep;
    assert forall j :: 0 <= j < |p| ==> s[j] == p[j];
    assert IndexOf(sep, s) == |p|;
    assert s[..|p|] == p && s[|p| + 1..] == rest;
  }

  /** A character other than the separator occurs in a join only if it occurs in a part. */
  lemma {:induction false} JoinAvoids(sep: char, parts: seq<string>, c: char)
    requires c != sep
    requires forall i :: 0 <= i < |parts| ==> c !in parts[i]
    ensures c !in Join(sep, parts)
  {
    if |parts| > 1 {
      JoinAvoids(sep, parts[1..], c);
    }
  }

  /** The data lines of the CSV, one per record, in record order. */
  function RecordLines(headers: seq<string>, records: seq<Record>): (lines: seq<string>)
    ensures |lines| == |records|
    ensures forall i :: 0 <= i < |records| ==> lines[i] == Join(',', Cells(headers, records[i]))
  {
    if records == [] then []
    else RecordLines(headers, records[..|records| - 1]) + [Join(',', Cells(headers, records[|records| - 1]))]
  }

  /** The CSV text: the header line, then the record lines, joined with line breaks. */
  function Csv(headers: seq<string>, records: seq<Record>): (csv: string)
    ensures |Join(',', headers)| <= |csv| && csv[..|Join(',', headers)|] == Join(',', headers)
  {
    Join('\n', [Join(',', headers)] + RecordLines(headers, records))
  }

  /** No value of a record holds a comma or a line break, so no quoting is needed. */
  predicate Plain(r: Record)
  {
    forall h :: h in r && r[h].Some? ==> ',' !in r[h].value && '\n' !in r[h].value
  }

  /** The value list of one record: `[r.get(h) if r.get(h) is not None else "" for h in headers]`. */
  method Fields(r: Record) returns (vals: seq<string>)
    ensures vals == Cells(Headers, r)
  {
    vals := [];
    for j := 0 to |Headers|
      invariant vals == Cells(Headers, r)[..j]
    {
      var h := Headers[j];
      vals := vals + [if h in r && r[h].Some? then r[h].value else ""];
    }
  }

  /**
   * `api_history_csv`: the header line, then one line per record with its
   * values comma-separated in column order, absent values as empty fields,
   * all joined with line breaks.
   */
  method RenderCsv(records: seq<Record>) returns (csv: string)
    ensures csv == Csv(Headers, records)
  {
    var lines := [Join(',', Headers)];
    for i := 0 to |records|
      invariant lines == [Join(',', Headers)] + RecordLines(Headers, records[..i])
    {
      var vals := Fields(records[i]);
      assert records[..i + 1][..i] == records[..i];
      lines := lines + [Join(',', vals)];
    }
    assert records[..|records|] == records;
    csv := Join('\n', lines);
  }

  /**
   * When neither a column name nor a value holds a comma or a line break, the
   * CSV has one line more than there are records; the first line reads back as
   * the column names and every other line as the fields of its record, one per
   * column, absent values empty.
   */
  lemma CsvShape(headers: seq<string>, records: seq<Record>)
    requires headers != []
    requires forall i :: 0 <= i < |headers| ==> ',' !in headers[i] && '\n' !in headers[i]
    requires forall i :: 0 <= i < |records| ==> Plain(records[i])
    ensures var lines := Split('\n', Csv(headers, records));
      && |lines| == |records| + 1
      && Split(',', lines[0]) == headers
      && forall i :: 0 <= i < |records| ==> Split(',', lines[i + 1]) == Cells(headers, records[i])
  {
    var all := [Join(',', headers)] + RecordLines(headers, records);
    JoinAvoids(',', headers, '\n');
    SplitJoin(',', headers);
    forall i | 0 <= i < |records|
      ensures '\n' !in all[i + 1] && Split(',', all[i + 1]) == Cells(headers, records[i])
    {
      LineFields(headers, records[i]);
    }
    SplitJoin('\n', all);
  }

  /** The line of a plain record holds no line break and reads back as its fields. */
  lemma LineFields(headers: seq<string>, r: Record)
    requires headers != []
    requires Plain(r)
    ensures '\n' !in Join(',', Cells(headers, r)) && Split(',', Join(',', Cells(headers, r))) == Cells(headers, r)
  {
    var cells := Cells(headers, r);
    forall j | 0 <= j < |cells|
      ensures ',' !in cells[j] && '\n' !in cells[j]
    {
    }
    JoinAvoids(',', cells, '\n');
    SplitJoin(',', cells);
  }
}
