/** Loading the worksheets as the script does it, including the one failure its ID coercion
    can raise. */
module Loading {
  import opened Sheet
  import opened Numbers
  import opened LogIds
  import opened Reference

  /** The three worksheets as read: Training Log, Exercise Master and Constants. */
  datatype Sheets = Sheets(log: Frame, master: Frame, constants: Frame)

  /** The log has an "ID" column and some row holds an ID that Python reads as infinite. */
  predicate HasInfiniteId(log: Frame)
  {
    "ID" in log.columns
    && exists k :: 0 <= k < |log.records| && "ID" in log.records[k] && IsInfinity(log.records[k]["ID"])
  }

  /** `load_data` as written: to_numeric keeps an infinite ID and fillna(0) leaves it, so
      astype(int) raises; the except clause then hands back three empty frames in place of
      all three sheets. */
  function LoadAsWritten(read: Sheets): (loaded: Sheets)
    ensures HasInfiniteId(read.log) ==> IsEmpty(loaded.log) && IsEmpty(loaded.master) && IsEmpty(loaded.constants)
    ensures !HasInfiniteId(read.log) ==> loaded == read
  {
    if HasInfiniteId(read.log) then Sheets(Frame([], []), Frame([], []), Frame([], [])) else read
  }

  /** A one-row log whose ID reads "inf".  As written, the reference sheets load empty and the
      script stops before the form, whatever they hold; as intended (the coercion the rest of
      the model uses), the cell counts as 0 and the next ID is 1. */
  lemma InfiniteIdStopsScript(master: Frame, constants: Frame)
    ensures var log := Frame(["ID"], [map["ID" := "inf"]]);
      var loaded := LoadAsWritten(Sheets(log, master, constants));
      && HasInfiniteId(log)
      && Prepare(loaded.master, loaded.constants) == Err(EmptyReferenceSheet)
      && NextId(log) == Ok(1)
  {
    var log := Frame(["ID"], [map["ID" := "inf"]]);
    assert IsInfinity(log.records[0]["ID"]);
    CoerceIdOfInfinity("inf");
    assert CoercedIds(log) == [0];
  }
}
