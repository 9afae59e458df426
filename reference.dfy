/** The reference sheets: the SetType and Unit lists from Constants, and the exercise
    options and name index from Exercise Master. */
module Reference {
  import opened Sheet
  import opened Seqs
  import opened LogRow

  /** `dropna()` on a column: the present values, in row order. */
  function Present(cells: seq<Option<string>>): (vals: seq<string>)
    ensures forall v :: v in vals <==> Some(v) in cells
  {
    if cells == [] then []
    else
      var n := |cells| - 1;
      assert cells == cells[..n] + [cells[n]];
      var rest := Present(cells[..n]);
      if cells[n].Some? then rest + [cells[n].value] else rest
  }

  /** `dropna` keeps the present values in row order, repeats included: it distributes over
      concatenation. */
  lemma {:induction false} PresentKeepsOrder(a: seq<Option<string>>, b: seq<Option<string>>)
    ensures Present(a + b) == Present(a) + Present(b)
  {
    if b == [] {
      assert a + b == a;
    } else {
      var n := |b| - 1;
      PresentKeepsOrder(a, b[..n]);
      assert (a + b)[..|a + b| - 1] == a + b[..n];
      assert (a + b)[|a + b| - 1] == b[n];
    }
  }

  /** `dropna` on one cell keeps a present value and drops a missing one. */
  lemma PresentOfOneCell(c: Option<string>)
    ensures Present([c]) == (if c.Some? then [c.value] else [])
  {
    assert [c][..0] == [];
  }

  /** The Value cell of each row whose Category is exactly `category`, and a missing value for
      every other row. */
  function CategoryCells(records: seq<Record>, category: string): (cells: seq<Option<string>>)
    ensures |cells| == |records|
    ensures forall k :: 0 <= k < |records| ==>
      cells[k] == if CellOf(records[k], "Category") == Some(category) then CellOf(records[k], "Value") else None
  {
    seq(|records|, k requires 0 <= k < |records| =>
      if CellOf(records[k], "Category") == Some(category) then CellOf(records[k], "Value") else None)
  }

  /** `df[df['Category'] == category]['Value'].dropna()`: the Value cells of the rows whose
      Category is exactly `category`, in row order. */
  function CategoryValues(records: seq<Record>, category: string): (vals: seq<string>)
    ensures forall v :: v in vals <==>
      exists k :: 0 <= k < |records|
        && CellOf(records[k], "Category") == Some(category)
        && CellOf(records[k], "Value") == Some(v)
  {
    var cells := CategoryCells(records, category);
    assert forall v :: Some(v) in cells <==>
      exists k :: 0 <= k < |records|
        && CellOf(records[k], "Category") == Some(category)
        && CellOf(records[k], "Value") == Some(v)
    by {
      forall v
        ensures Some(v) in cells <==>
          exists k :: 0 <= k < |records|
            && CellOf(records[k], "Category") == Some(category)
            && CellOf(records[k], "Value") == Some(v)
      {
        if Some(v) in cells {
          var k :| 0 <= k < |cells| && cells[k] == Some(v);
        }
        if exists k :: 0 <= k < |records|
            && CellOf(records[k], "Category") == Some(category)
            && CellOf(records[k], "Value") == Some(v) {
          var k :| 0 <= k < |records|
            && CellOf(records[k], "Category") == Some(category)
            && CellOf(records[k], "Value") == Some(v);
          assert cells[k] == Some(v);
        }
      }
    }
    Present(cells)
  }

  /** The selected Values follow the rows: those of earlier rows come first, repeats kept. */
  lemma CategoryValuesKeepRowOrder(first: seq<Record>, rest: seq<Record>, category: string)
    ensures CategoryValues(first + rest, category) == CategoryValues(first, category) + CategoryValues(rest, category)
  {
    var all := CategoryCells(first + rest, category);
    assert all == CategoryCells(first, category) + CategoryCells(rest, category);
    PresentKeepsOrder(CategoryCells(first, category), CategoryCells(rest, category));
  }

  /** One row contributes its Value exactly when its Category matches and the Value is present. */
  lemma CategoryValuesOfOneRow(rec: Record, category: string)
    ensures CategoryValues([rec], category)
         == if CellOf(rec, "Category") == Some(category) && "Value" in rec then [rec["Value"]] else []
  {
    var cells := CategoryCells([rec], category);
    assert cells == [cells[0]];
    PresentOfOneCell(cells[0]);
  }

  /** `...unique().tolist()` on the above: the allowed values of one category.  A Constants
      sheet without a Category or a Value column stops the script. */
  function ConstantValues(constants: Frame, category: string): (r: Result<seq<string>>)
    ensures r.Err? <==> "Category" !in constants.columns || "Value" !in constants.columns
    ensures r.Ok? ==> r.value == Unique(CategoryValues(constants.records, category))
    ensures r.Ok? ==> NoDup(r.value)
    ensures r.Ok? ==> forall v :: v in r.value <==>
      exists k :: 0 <= k < |constants.records|
        && CellOf(constants.records[k], "Category") == Some(category)
        && CellOf(constants.records[k], "Value") == Some(v)
    ensures r.Ok? ==> forall i, j :: 0 <= i < j < |r.value| ==>
      FirstIndex(CategoryValues(constants.records, category), r.value[i])
        < FirstIndex(CategoryValues(constants.records, category), r.value[j])
  {
    if "Category" !in constants.columns || "Value" !in constants.columns then
      Err(MissingColumn(if "Category" !in constants.columns then "Category" else "Value"))
    else
      var matching := CategoryValues(constants.records, category);
      UniqueKeepsFirstAppearanceOrder(matching);
      assert forall v :: v in Unique(matching) <==> v in matching by {
        forall v { UniqueHasSameMembers(matching, v); }
      }
      Ok(Unique(matching))
  }

  /** The exercise_name cell of each master row. */
  function Names(records: seq<Record>): (names: seq<Option<string>>)
    ensures |names| == |records|
    ensures forall k :: 0 <= k < |records| ==> names[k] == CellOf(records[k], "exercise_name")
  {
    seq(|records|, k requires 0 <= k < |records| => CellOf(records[k], "exercise_name"))
  }

  /** The rest of a master row, keyed by its name in the index. */
  function Info(rec: Record): Record
  {
    rec - {"exercise_name"}
  }

  /** `set_index('exercise_name').to_dict('index')` for names without repeats: each present
      name to the rest of its row. */
  function IndexByName(records: seq<Record>): (emap: ExerciseMap)
    requires NoDup(Names(records))
    ensures forall name :: name in emap <==> Some(name) in Names(records)
    ensures forall k :: 0 <= k < |records| && "exercise_name" in records[k] ==>
      emap[records[k]["exercise_name"]] == Info(records[k])
  {
    if records == [] then map[]
    else
      var n := |records| - 1;
      assert Names(records[..n]) == Names(records)[..n];
      assert Names(records) == Names(records[..n]) + [Names(records)[n]];
      var rest := IndexByName(records[..n]);
      if "exercise_name" in records[n] then rest[records[n]["exercise_name"] := Info(records[n])]
      else rest
  }

  /** exercise_map.  The master needs an exercise_name column, and to_dict refuses an index
      with a repeated name (two missing names count as a repeat). */
  function BuildExerciseMap(master: Frame): (r: Result<ExerciseMap>)
    ensures r.Err? <==> "exercise_name" !in master.columns || !NoDup(Names(master.records))
    ensures r.Ok? ==> forall k :: 0 <= k < |master.records| && "exercise_name" in master.records[k] ==>
      master.records[k]["exercise_name"] in r.value
      && r.value[master.records[k]["exercise_name"]] == Info(master.records[k])
    ensures r.Ok? ==> forall name :: name in r.value ==> Some(name) in Names(master.records)
  {
    if "exercise_name" !in master.columns then Err(MissingColumn("exercise_name"))
    else if !NoDup(Names(master.records)) then Err(DuplicateExerciseName)
    else Ok(IndexByName(master.records))
  }

  /** What the script derives from the reference sheets before showing the form. */
  datatype Lookup = Lookup(
    setTypes: seq<string>,
    units: seq<string>,
    exerciseOptions: seq<string>,
    exercises: ExerciseMap)

  /** The pre-processing stage: an empty master or constants sheet, a missing column, or a
      repeated exercise name stops the script; otherwise the lists and the index. */
  function Prepare(master: Frame, constants: Frame): (r: Result<Lookup>)
    ensures IsEmpty(master) || IsEmpty(constants) ==> r == Err(EmptyReferenceSheet)
    ensures r.Ok? <==>
      !IsEmpty(master) && !IsEmpty(constants)
      && "Category" in constants.columns && "Value" in constants.columns
      && "exercise_name" in master.columns && NoDup(Names(master.records))
    ensures r.Ok? ==>
      && Ok(r.value.setTypes) == ConstantValues(constants, "SetType")
      && Ok(r.value.units) == ConstantValues(constants, "Unit")
      && Ok(r.value.exercises) == BuildExerciseMap(master)
    ensures r.Ok? ==>
      NoDup(r.value.exerciseOptions)
      && forall name :: name in r.value.exerciseOptions <==> Some(name) in Names(master.records)
    ensures r.Ok? ==> r.value.exerciseOptions == Unique(Present(Names(master.records)))
    ensures r.Ok? ==> forall i, j :: 0 <= i < j < |r.value.exerciseOptions| ==>
      FirstIndex(Present(Names(master.records)), r.value.exerciseOptions[i])
        < FirstIndex(Present(Names(master.records)), r.value.exerciseOptions[j])
  {
    if IsEmpty(master) || IsEmpty(constants) then Err(EmptyReferenceSheet)
    else
      match ConstantValues(constants, "SetType")
      case Err(e) => Err(e)
      case Ok(setTypes) =>
        match ConstantValues(constants, "Unit")
        case Err(e) => Err(e)
        case Ok(units) =>
          if "exercise_name" !in master.columns then Err(MissingColumn("exercise_name"))
          else
            var names := Present(Names(master.records));
            var options := Unique(names);
            UniqueKeepsFirstAppearanceOrder(names);
            assert forall v :: v in options <==> v in names by {
              forall v { UniqueHasSameMembers(names, v); }
            }
            match BuildExerciseMap(master)
            case Err(e) => Err(e)
            case Ok(exercises) => Ok(Lookup(setTypes, units, options, exercises))
  }
}
