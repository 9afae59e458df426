/** Log IDs: each ID cell of the Training Log is coerced to an integer when the sheet is
    loaded, and the next ID is allocated from that same loaded snapshot. */
module LogIds {
  import opened Sheet
  import opened Numbers

  /** One ID cell after to_numeric(errors='coerce'), fillna(0) and astype(int): a missing cell
      or one that is not a number becomes 0, so no cell can block allocation. */
  function CoerceId(cell: Option<string>): (id: int)
    ensures cell.None? ==> id == 0
    ensures cell.Some? && !IsDecimal(cell.value) ==> id == 0
    ensures cell.Some? && IsDecimal(cell.value) ==> id == IntegerPartValue(cell.value)
  {
    match cell
    case None => 0
    case Some(text) =>
      match ParseNumber(text)
      case None => 0
      case Some(v) => v
  }

  /** An ID the script itself wrote reads back as that ID. */
  lemma CoerceIdOfWrittenId(n: int)
    ensures CoerceId(Some(IntText(n))) == n
  {
    ParseIntText(n);
  }

  /** A cell Python reads as infinite is not a plain decimal, so it is coerced to 0. */
  lemma CoerceIdOfInfinity(text: string)
    requires IsInfinity(text)
    ensures CoerceId(Some(text)) == 0
  {
    InfinityIsNotDecimal(text);
  }

  /** A leading '+' and leading zeros are read as numbers. */
  lemma CoerceIdReadsSignAndZeros()
    ensures CoerceId(Some("+5")) == 5 && CoerceId(Some("007")) == 7
  {
    var plus, zeros := "+5", "007";
    assert Unsigned(plus) == "5" && IsDigit(plus[1]);
    assert LeadingDigits("5") == "5" && DigitsValue("5") == 5;
    assert IsDigit(zeros[0]) && LeadingDigits(zeros) == zeros;
    assert zeros[..2] == "00" && zeros[..2][..1] == "0";
    assert DigitsValue(zeros) == 7;
  }

  /** A bare fraction, a trailing '.' and a negative fraction are read as numbers and
      truncated toward zero. */
  lemma CoerceIdReadsFractions()
    ensures CoerceId(Some(".5")) == 0 && CoerceId(Some("5.")) == 5 && CoerceId(Some("-2.9")) == -2
  {
    var frac, dot, neg := ".5", "5.", "-2.9";
    assert Unsigned(frac) == frac && IsDigit(frac[1]) && LeadingDigits(frac) == "";
    assert Unsigned(dot) == dot && IsDigit(dot[0]) && LeadingDigits(dot) == "5";
    assert Unsigned(neg) == "2.9" && IsDigit(neg[1]) && LeadingDigits("2.9") == "2";
    assert DigitsValue("2") == 2 && DigitsValue("5") == 5;
  }

  /** A second '.', a lone sign, a '.' without digits, a sign inside the number and an empty
      cell are not numbers, so they become 0. */
  lemma CoerceIdZeroesMalformedSpellings()
    ensures CoerceId(Some("1.2.3")) == 0 && CoerceId(Some("-")) == 0 && CoerceId(Some(".")) == 0
    ensures CoerceId(Some("1-2")) == 0 && CoerceId(Some("")) == 0
  {
    var twoDots, inner := "1.2.3", "1-2";
    assert twoDots[1] == '.' && twoDots[3] == '.';
    assert !IsSign(inner[0]) && inner[1] == '-';
  }

  /** The ID column after coercion; there is no such column when the header lacks "ID". */
  function CoercedIds(log: Frame): (ids: seq<int>)
    ensures |ids| == (if "ID" in log.columns then |log.records| else 0)
    ensures forall k :: 0 <= k < |ids| ==> ids[k] == CoerceId(CellOf(log.records[k], "ID"))
  {
    if "ID" in log.columns then
      seq(|log.records|, k requires 0 <= k < |log.records| => CoerceId(CellOf(log.records[k], "ID")))
    else
      []
  }

  function Max(s: seq<int>): (m: int)
    requires |s| > 0
    ensures m in s
    ensures forall k :: 0 <= k < |s| ==> s[k] <= m
  {
    if |s| == 1 then s[0]
    else
      var rest := Max(s[1..]);
      if s[0] >= rest then s[0] else rest
  }

  /** The ID the next appended row gets: 1 for an empty log, otherwise the largest coerced
      ID plus one.  A non-empty log without an "ID" column fails with a KeyError. */
  function NextId(log: Frame): (r: Result<int>)
    ensures IsEmpty(log) ==> r == Ok(1)
    ensures r.Err? <==> !IsEmpty(log) && "ID" !in log.columns
    ensures r.Ok? ==> forall k :: 0 <= k < |CoercedIds(log)| ==> CoercedIds(log)[k] < r.value
    ensures r.Ok? && !IsEmpty(log) ==> r.value - 1 in CoercedIds(log)
  {
    if IsEmpty(log) then Ok(1)
    else if "ID" !in log.columns then Err(MissingColumn("ID"))
    else Ok(Max(CoercedIds(log)) + 1)
  }

  lemma CoercedIdsAppend(log: Frame, rec: Record)
    requires "ID" in log.columns
    ensures CoercedIds(Frame(log.columns, log.records + [rec]))
         == CoercedIds(log) + [CoerceId(CellOf(rec, "ID"))]
  {
    var log' := Frame(log.columns, log.records + [rec]);
    var ids := CoercedIds(log');
    forall k | 0 <= k < |log.records| ensures ids[k] == CoercedIds(log)[k] {
      assert log'.records[k] == log.records[k];
    }
  }

  lemma MaxOfAppendedAbove(s: seq<int>, x: int)
    requires forall k :: 0 <= k < |s| ==> s[k] < x
    ensures Max(s + [x]) == x
  {
    assert (s + [x])[|s|] == x;
  }

  /** Once the row holding the allocated ID is in the sheet, the next allocation is one
      higher: within one session whose next load sees its own appended row, IDs follow in
      sequence and none repeats. */
  lemma NextIdAfterAppend(log: Frame, rec: Record, id: int)
    requires "ID" in log.columns
    requires NextId(log) == Ok(id)
    requires CellOf(rec, "ID") == Some(IntText(id))
    ensures NextId(Frame(log.columns, log.records + [rec])) == Ok(id + 1)
  {
    CoerceIdOfWrittenId(id);
    CoercedIdsAppend(log, rec);
    MaxOfAppendedAbove(CoercedIds(log), id);
  }
}
