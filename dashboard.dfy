/** The dashboard's exercise picker: the logged exercise names, sorted and without repeats,
    optionally narrowed to one target muscle group, and the entry selected by default. */
module Dashboard {
  import opened Sheet
  import opened Seqs
  import opened Order
  import opened LogRow
  import opened Reference

  /** `astype(str)` of a log row's Exercise cell; a missing value becomes "nan". */
  function ExerciseText(rec: Record): (t: string)
    ensures "Exercise" in rec ==> t == rec["Exercise"]
    ensures "Exercise" !in rec ==> t == "nan"
  {
    if "Exercise" in rec then rec["Exercise"] else "nan"
  }

  /** `sorted(df_log['Exercise'].astype(str).unique().tolist())`: every logged name exactly
      once, in ascending order. */
  function LoggedExercises(log: Frame): (names: seq<string>)
    ensures Ascending(names)
    ensures forall x :: x in names <==> exists k :: 0 <= k < |log.records| && ExerciseText(log.records[k]) == x
  {
    var texts := seq(|log.records|, k requires 0 <= k < |log.records| => ExerciseText(log.records[k]));
    var distinct := Unique(texts);
    var names := Sort(distinct);
    SortedWithoutRepeatsIsAscending(names);
    assert forall x :: x in names <==> exists k :: 0 <= k < |log.records| && ExerciseText(log.records[k]) == x
    by {
      forall x
        ensures x in names <==> exists k :: 0 <= k < |log.records| && ExerciseText(log.records[k]) == x
      {
        assert x in names <==> x in multiset(distinct);
        UniqueHasSameMembers(texts, x);
        if x in texts {
          var k :| 0 <= k < |texts| && texts[k] == x;
        }
        if exists k :: 0 <= k < |log.records| && ExerciseText(log.records[k]) == x {
          var k :| 0 <= k < |log.records| && ExerciseText(log.records[k]) == x;
          assert texts[k] == x;
        }
      }
    }
    names
  }

  /** The options of the muscle-group picker: "All", then the master's target muscle groups
      without missing values or repeats, in ascending order. */
  function MuscleOptions(master: Frame): (options: seq<string>)
    ensures |options| > 0 && options[0] == "All" && Ascending(options[1..])
    ensures forall m :: m in options[1..] <==>
      exists k :: 0 <= k < |master.records| && CellOf(master.records[k], "target_muscle_group") == Some(m)
  {
    var cells := seq(|master.records|, k requires 0 <= k < |master.records| =>
      CellOf(master.records[k], "target_muscle_group"));
    var groups := Sort(Unique(Present(cells)));
    SortedWithoutRepeatsIsAscending(groups);
    assert forall m :: m in groups <==>
      exists k :: 0 <= k < |master.records| && CellOf(master.records[k], "target_muscle_group") == Some(m)
    by {
      forall m
        ensures m in groups <==>
          exists k :: 0 <= k < |master.records| && CellOf(master.records[k], "target_muscle_group") == Some(m)
      {
        assert m in groups <==> m in multiset(Unique(Present(cells)));
        UniqueHasSameMembers(Present(cells), m);
        if Some(m) in cells {
          var k :| 0 <= k < |cells| && cells[k] == Some(m);
        }
        if exists k :: 0 <= k < |master.records| && CellOf(master.records[k], "target_muscle_group") == Some(m) {
          var k :| 0 <= k < |master.records| && CellOf(master.records[k], "target_muscle_group") == Some(m);
          assert cells[k] == Some(m);
        }
      }
    }
    assert (["All"] + groups)[1..] == groups;
    ["All"] + groups
  }

  /** A logged name passes the muscle filter when it has a master row whose
      target_muscle_group is exactly the selection. */
  predicate TargetsMuscle(emap: ExerciseMap, muscle: string, name: string)
  {
    name in emap && "target_muscle_group" in emap[name] && emap[name]["target_muscle_group"] == muscle
  }

  /** The names that pass the filter, in their original order. */
  function KeepMuscle(names: seq<string>, emap: ExerciseMap, muscle: string): (kept: seq<string>)
    ensures |kept| <= |names|
    ensures forall i :: 0 <= i < |kept| ==> TargetsMuscle(emap, muscle, kept[i])
  {
    if names == [] then []
    else
      var n := |names| - 1;
      KeepMuscle(names[..n], emap, muscle) + (if TargetsMuscle(emap, muscle, names[n]) then [names[n]] else [])
  }

  /** The filter keeps exactly the names whose master row has the selected muscle group (a
      name absent from the master is dropped), and keeps an ascending list ascending. */
  lemma {:induction false} KeepMuscleKeepsMatches(names: seq<string>, emap: ExerciseMap, muscle: string)
    ensures forall x :: x in KeepMuscle(names, emap, muscle) <==> x in names && TargetsMuscle(emap, muscle, x)
    ensures Ascending(names) ==> Ascending(KeepMuscle(names, emap, muscle))
  {
    if names != [] {
      var n := |names| - 1;
      var prefix := names[..n];
      assert names == prefix + [names[n]];
      KeepMuscleKeepsMatches(prefix, emap, muscle);
      var kept := KeepMuscle(prefix, emap, muscle);
      if Ascending(names) {
        forall i | 0 <= i < |kept| ensures Below(kept[i], names[n]) {
          assert kept[i] in prefix;
          var j :| 0 <= j < n && prefix[j] == kept[i];
        }
      }
    }
  }

  /** The loop that builds filtered_exercises. */
  method FilterByMuscle(names: seq<string>, emap: ExerciseMap, muscle: string) returns (filtered: seq<string>)
    ensures filtered == KeepMuscle(names, emap, muscle)
  {
    filtered := [];
    for i := 0 to |names|
      invariant filtered == KeepMuscle(names[..i], emap, muscle)
    {
      assert names[..i + 1][..i] == names[..i];
      if TargetsMuscle(emap, muscle, names[i]) {
        filtered := filtered + [names[i]];
      }
    }
    assert names[..|names|] == names;
  }

  /** `df_log.iloc[-1]['Exercise']`: the last row's Exercise cell, None when it is missing. */
  function LastExercise(log: Frame): (last: Option<string>)
    ensures last.Some? <==> |log.records| > 0 && "Exercise" in log.records[|log.records| - 1]
    ensures last.Some? ==> last.value == log.records[|log.records| - 1]["Exercise"]
  {
    if log.records == [] then None else CellOf(log.records[|log.records| - 1], "Exercise")
  }

  /** The picker's default position: where the most recently logged exercise is, when it is
      in the list, and 0 otherwise. */
  function DefaultIndex(names: seq<string>, last: Option<string>): (k: nat)
    ensures last.Some? && last.value in names ==>
      k < |names| && names[k] == last.value && forall i :: 0 <= i < k ==> names[i] != last.value
    ensures !(last.Some? && last.value in names) ==> k == 0
    ensures |names| > 0 ==> k < |names|
  {
    if last.Some? && last.value in names then FirstIndex(names, last.value) else 0
  }

  /** The columns the dashboard reads before it lists exercises; a missing one stops the script. */
  const DASHBOARD_COLUMNS: seq<string> := ["Date", "Weight", "Reps", "Exercise"]

  datatype Picker = NoData | Choices(exercises: seq<string>, defaultIndex: nat)

  /** The dashboard's exercise picker for a loaded log, the master's columns, the name index
      and the selected muscle group. */
  method ChooseExercises(log: Frame, masterColumns: seq<string>, emap: ExerciseMap, muscle: string)
    returns (res: Result<Picker>)
    ensures IsEmpty(log) ==> res == Ok(NoData)
    ensures res.Err? <==> !IsEmpty(log) && exists c :: c in DASHBOARD_COLUMNS && c !in log.columns
    ensures res.Ok? && !IsEmpty(log) ==> res.value.Choices?
    ensures res.Ok? && res.value.Choices? ==>
      var names := res.value.exercises;
      && Ascending(names)
      && (forall x :: x in names ==> x in LoggedExercises(log))
      && (if "target_muscle_group" in masterColumns && muscle != "All"
          then forall x :: x in names <==> x in LoggedExercises(log) && TargetsMuscle(emap, muscle, x)
          else names == LoggedExercises(log))
      && (|names| > 0 ==> res.value.defaultIndex < |names|)
      && (LastExercise(log).Some? && LastExercise(log).value in names ==>
          names[res.value.defaultIndex] == LastExercise(log).value)
      && (!(LastExercise(log).Some? && LastExercise(log).value in names) ==> res.value.defaultIndex == 0)
  {
    if IsEmpty(log) {
      return Ok(NoData);
    }
    if "Date" !in log.columns {
      return Err(MissingColumn("Date"));
    }
    if "Weight" !in log.columns {
      return Err(MissingColumn("Weight"));
    }
    if "Reps" !in log.columns {
      return Err(MissingColumn("Reps"));
    }
    if "Exercise" !in log.columns {
      return Err(MissingColumn("Exercise"));
    }
    var names := LoggedExercises(log);
    if "target_muscle_group" in masterColumns && muscle != "All" {
      KeepMuscleKeepsMatches(names, emap, muscle);
      names := FilterByMuscle(names, emap, muscle);
    }
    var idx := DefaultIndex(names, LastExercise(log));
    return Ok(Choices(names, idx));
  }
}
