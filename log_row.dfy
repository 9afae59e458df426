/** Adding a set to the Training Log: the submitted form becomes one 12-field row, which is
    laid out along the log's header before it is appended. */
module LogRow {
  import opened Sheet
  import opened Seqs
  import opened Numbers
  import opened LogIds

  datatype Date = Date(year: int, month: int, day: int)

  predicate IsLeapYear(y: int)
  {
    y % 4 == 0 && (y % 100 != 0 || y % 400 == 0)
  }

  function DaysInMonth(y: int, m: int): int
    requires 1 <= m <= 12
  {
    if m == 2 then (if IsLeapYear(y) then 29 else 28)
    else if m == 4 || m == 6 || m == 9 || m == 11 then 30
    else 31
  }

  predicate ValidDate(d: Date)
  {
    1 <= d.year <= 9999 && 1 <= d.month <= 12 && 1 <= d.day <= DaysInMonth(d.year, d.month)
  }

  /** A Python `datetime.date`, as the date picker returns it. */
  type CalendarDate = d: Date | ValidDate(d) witness Date(2000, 1, 1)

  /** strftime("%Y-%m-%d"): the year in decimal as the C library writes it, then the month
      and the day in two digits each. */
  function FormatDate(d: CalendarDate): (s: string)
    ensures |s| >= 7 && s[|s| - 6] == '-' && s[|s| - 3] == '-'
    ensures AllDigits(s[..|s| - 6]) && DigitsValue(s[..|s| - 6]) == d.year
    ensures AllDigits(s[|s| - 5..|s| - 3]) && DigitsValue(s[|s| - 5..|s| - 3]) == d.month
    ensures AllDigits(s[|s| - 2..]) && DigitsValue(s[|s| - 2..]) == d.day
    ensures s[0] != '0'
    ensures 1000 <= d.year ==> |s| == 10
  {
    var y, mm, dd := NatText(d.year), Pad2(d.month), Pad2(d.day);
    NatTextOfFourDigits(d.year);
    var s := y + "-" + mm + "-" + dd;
    assert s[..|s| - 6] == y;
    assert s[|s| - 5..|s| - 3] == mm;
    assert s[|s| - 2..] == dd;
    s
  }

  /** Reads a "%Y-%m-%d" text back into a date; None when the text is not a valid date. */
  function ParseDate(s: string): Option<CalendarDate>
  {
    if |s| < 7 then None
    else
      var n := |s|;
      var y, mm, dd := s[..n - 6], s[n - 5..n - 3], s[n - 2..];
      if s[n - 6] == '-' && s[n - 3] == '-' && |y| > 0 && AllDigits(y) && AllDigits(mm) && AllDigits(dd) then
        var d := Date(DigitsValue(y), DigitsValue(mm), DigitsValue(dd));
        if ValidDate(d) then var date: CalendarDate := d; Some(date) else None
      else
        None
  }

  /** The date written into a row reads back as the date that was picked. */
  lemma FormatDateRoundTrip(d: CalendarDate)
    ensures ParseDate(FormatDate(d)) == Some(d)
  {
  }

  /** A value of the row the script builds: a Python int, float or str. */
  datatype Value = IntVal(i: int) | RealVal(r: real) | TextVal(s: string)

  /** What the sidebar form submits. */
  datatype LogForm = LogForm(
    date: CalendarDate,
    exercise: string,
    weight: real,
    unit: string,
    reps: int,
    setNumber: int,
    rpe: real,
    setType: string,
    memo: string)

  /** exercise_map: an exercise name to the rest of its Exercise Master row. */
  type ExerciseMap = map<string, Record>

  /** `exercise_map.get(name, {}).get(field, '')`. */
  function MasterField(emap: ExerciseMap, name: string, field: string): (v: string)
    ensures name in emap && field in emap[name] ==> v == emap[name][field]
    ensures !(name in emap && field in emap[name]) ==> v == ""
  {
    if name in emap && field in emap[name] then emap[name][field] else ""
  }

  /** The header used when the loaded log is empty. */
  const LOG_HEADER: seq<string> :=
    ["ID", "Date", "ExerciseID", "Target", "Exercise", "Set #", "Weight", "Unit", "Reps", "RPE", "Set Type", "Memo"]

  /** The record for one submitted set, keyed by exactly the fallback header's columns.  The
      exercise's ID and target muscle group are copied from its master row; a name with no
      master row, or a master row without the field, gets "" but keeps its name. */
  function BuildRow(id: int, form: LogForm, emap: ExerciseMap): (row: map<string, Value>)
    ensures row.Keys == {"ID", "Date", "ExerciseID", "Target", "Exercise", "Set #", "Weight", "Unit", "Reps", "RPE", "Set Type", "Memo"}
    ensures row["ID"] == IntVal(id) && row["Exercise"] == TextVal(form.exercise)
    ensures form.exercise !in emap ==> row["ExerciseID"] == TextVal("") && row["Target"] == TextVal("")
    ensures form.exercise in emap && "exercise_id" in emap[form.exercise] ==>
      row["ExerciseID"] == TextVal(emap[form.exercise]["exercise_id"])
    ensures form.exercise in emap && "exercise_id" !in emap[form.exercise] ==> row["ExerciseID"] == TextVal("")
    ensures form.exercise in emap && "target_muscle_group" in emap[form.exercise] ==>
      row["Target"] == TextVal(emap[form.exercise]["target_muscle_group"])
    ensures form.exercise in emap && "target_muscle_group" !in emap[form.exercise] ==> row["Target"] == TextVal("")
    ensures row["Date"] == TextVal(FormatDate(form.date))
    ensures row["Set #"] == IntVal(form.setNumber) && row["Reps"] == IntVal(form.reps)
    ensures row["Weight"] == RealVal(form.weight) && row["RPE"] == RealVal(form.rpe)
    ensures row["Unit"] == TextVal(form.unit) && row["Set Type"] == TextVal(form.setType)
    ensures row["Memo"] == TextVal(form.memo)
    ensures row.Keys == set h | h in LOG_HEADER
  {
    map[
      "ID" := IntVal(id),
      "Date" := TextVal(FormatDate(form.date)),
      "ExerciseID" := TextVal(MasterField(emap, form.exercise, "exercise_id")),
      "Target" := TextVal(MasterField(emap, form.exercise, "target_muscle_group")),
      "Exercise" := TextVal(form.exercise),
      "Set #" := IntVal(form.setNumber),
      "Weight" := RealVal(form.weight),
      "Unit" := TextVal(form.unit),
      "Reps" := IntVal(form.reps),
      "RPE" := RealVal(form.rpe),
      "Set Type" := TextVal(form.setType),
      "Memo" := TextVal(form.memo)
    ]
  }

  /** The header the row is laid out along: the loaded log's columns, or LOG_HEADER when the
      loaded log is empty.  The log is not read again before appending. */
  function Headers(log: Frame): (h: seq<string>)
    ensures IsEmpty(log) ==> h == LOG_HEADER
    ensures !IsEmpty(log) ==> h == log.columns
  {
    if IsEmpty(log) then LOG_HEADER else log.columns
  }

  /** `[row.get(h, "") for h in headers]`: one value per header, in header order; keys of the
      row that are not in the header are dropped. */
  function Project(row: map<string, Value>, headers: seq<string>): (vals: seq<Value>)
    ensures |vals| == |headers|
    ensures forall i :: 0 <= i < |headers| ==>
      vals[i] == (if headers[i] in row then row[headers[i]] else TextVal(""))
  {
    if headers == [] then []
    else [if headers[0] in row then row[headers[0]] else TextVal("")] + Project(row, headers[1..])
  }

  /** What reading an appended row back under its header gives: `dict(zip(headers, vals))`,
      a later column winning over an earlier one of the same name. */
  function RecordOf(headers: seq<string>, vals: seq<Value>): map<string, Value>
    requires |headers| == |vals|
  {
    if headers == [] then map[]
    else
      var n := |headers| - 1;
      RecordOf(headers[..n], vals[..n])[headers[n] := vals[n]]
  }

  lemma {:induction false} RecordOfDistinct(headers: seq<string>, vals: seq<Value>)
    requires |headers| == |vals| && NoDup(headers)
    ensures forall h :: h in RecordOf(headers, vals) <==> h in headers
    ensures forall i :: 0 <= i < |headers| ==> RecordOf(headers, vals)[headers[i]] == vals[i]
  {
    if headers != [] {
      var n := |headers| - 1;
      assert headers == headers[..n] + [headers[n]];
      RecordOfDistinct(headers[..n], vals[..n]);
    }
  }

  /** Round trip: under a header without repeats, the appended row reads back as the record
      restricted to the header, with "" for each header the record lacks. */
  lemma ProjectReadsBack(row: map<string, Value>, headers: seq<string>)
    requires NoDup(headers)
    ensures forall h :: h in RecordOf(headers, Project(row, headers)) <==> h in headers
    ensures forall h :: h in headers ==>
      RecordOf(headers, Project(row, headers))[h] == if h in row then row[h] else TextVal("")
  {
    var vals := Project(row, headers);
    RecordOfDistinct(headers, vals);
    forall h | h in headers
      ensures RecordOf(headers, vals)[h] == if h in row then row[h] else TextVal("")
    {
      var i :| 0 <= i < |headers| && headers[i] == h;
    }
  }

  /** `for row_dict in new_rows: rows_to_append.append([...])`. */
  method RowsToAppend(newRows: seq<map<string, Value>>, headers: seq<string>) returns (rows: seq<seq<Value>>)
    ensures |rows| == |newRows|
    ensures forall k :: 0 <= k < |rows| ==> rows[k] == Project(newRows[k], headers)
  {
    rows := [];
    for k := 0 to |newRows|
      invariant |rows| == k
      invariant forall j :: 0 <= j < k ==> rows[j] == Project(newRows[j], headers)
    {
      rows := rows + [Project(newRows[k], headers)];
    }
  }

  /** Submitting the form: allocate the ID from the loaded log, build the one row, and lay it
      out along the header; the result is what is passed to append_rows.  A non-empty log
      without an "ID" column stops the script. */
  method SubmitLog(log: Frame, emap: ExerciseMap, form: LogForm) returns (res: Result<seq<seq<Value>>>)
    ensures res.Err? <==> !IsEmpty(log) && "ID" !in log.columns
    ensures res.Ok? ==>
      NextId(log).Ok? && res.value == [Project(BuildRow(NextId(log).value, form, emap), Headers(log))]
    ensures res.Ok? ==> forall p :: 0 <= p < |Headers(log)| && Headers(log)[p] == "ID" ==>
      res.value[0][p].IntVal? &&
      forall k :: 0 <= k < |CoercedIds(log)| ==> CoercedIds(log)[k] < res.value[0][p].i
  {
    var id := NextId(log);
    if id.Err? {
      return Err(id.error);
    }
    var row := BuildRow(id.value, form, emap);
    var rows := RowsToAppend([row], Headers(log));
    return Ok(rows);
  }

  /** A header without repeats that names exactly the row's keys loses nothing: the laid-out
      row reads back as the row itself. */
  lemma ProjectReadsBackWhole(row: map<string, Value>, headers: seq<string>)
    requires NoDup(headers) && row.Keys == set h | h in headers
    ensures RecordOf(headers, Project(row, headers)) == row
  {
    var vals := Project(row, headers);
    var back := RecordOf(headers, vals);
    RecordOfDistinct(headers, vals);
    forall h ensures h in back <==> h in row {
      assert h in row <==> h in set g | g in headers;
    }
    forall h | h in row ensures back[h] == row[h] {
      assert h in set g | g in headers;
      var i :| 0 <= i < |headers| && headers[i] == h;
      assert back[headers[i]] == vals[i];
    }
  }

  /** The fallback header has no repeats. */
  lemma LogHeaderHasNoRepeats()
    ensures NoDup(LOG_HEADER)
  {
  }

  /** Every column of the fallback header is a key of the built row. */
  lemma LogHeaderCoversRow(id: int, form: LogForm, emap: ExerciseMap)
    ensures forall i :: 0 <= i < |LOG_HEADER| ==> LOG_HEADER[i] in BuildRow(id, form, emap)
  {
    var row := BuildRow(id, form, emap);
    forall i | 0 <= i < |LOG_HEADER| ensures LOG_HEADER[i] in row {
      assert LOG_HEADER[i] in set h | h in LOG_HEADER;
    }
  }

  /** Appending to an empty log: the ID is 1, the fallback header names exactly the keys of
      the built row, so no position falls back to "", the first position holds the ID, and
      the row reads back whole. */
  lemma EmptyLogAppendsWholeRow(log: Frame, emap: ExerciseMap, form: LogForm)
    requires IsEmpty(log)
    ensures NextId(log) == Ok(1) && Headers(log) == LOG_HEADER
    ensures forall i :: 0 <= i < |LOG_HEADER| ==> LOG_HEADER[i] in BuildRow(1, form, emap)
    ensures Project(BuildRow(1, form, emap), LOG_HEADER)[0] == IntVal(1)
    ensures RecordOf(LOG_HEADER, Project(BuildRow(1, form, emap), LOG_HEADER)) == BuildRow(1, form, emap)
  {
    LogHeaderCoversRow(1, form, emap);
    LogHeaderHasNoRepeats();
    assert LOG_HEADER[0] == "ID";
    ProjectReadsBackWhole(BuildRow(1, form, emap), LOG_HEADER);
  }
}
