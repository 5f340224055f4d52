/** The selection and filtering logic of the generator page
    (pages/Generator.tsx): the AND-filter, the OA option list and its reset,
    moving a selected exercise up or down, "select all", and the name of
    the exported file. */
module Generator {
  import opened Wrappers
  import opened Text
  import opened Types
  import opened Seqs
  import opened Store

  // ---------------------------------------------------------------------
  // filter

  /** One exercise passes the filter form: every non-empty field must
      equal the exercise's, and a non-empty keyword must occur, up to case,
      in the content or in the file name. */
  predicate MatchesFilter(f: FilterState, ex: Exercise)
    ensures f.subject == "" && f.grade == "" && f.oa == "" && f.exerciseType == "" && f.keyword == "" ==>
              MatchesFilter(f, ex)
    ensures MatchesFilter(f, ex) && f.subject != "" ==> ex.subject == f.subject
    ensures MatchesFilter(f, ex) && f.grade != "" ==> ex.grade == f.grade
    ensures MatchesFilter(f, ex) && f.oa != "" ==> ex.oa == f.oa
    ensures MatchesFilter(f, ex) && f.exerciseType != "" ==> TypeName(ex.exerciseType) == f.exerciseType
  {
    && (f.subject == "" || ex.subject == f.subject)
    && (f.grade == "" || ex.grade == f.grade)
    && (f.oa == "" || ex.oa == f.oa)
    && (f.exerciseType == "" || TypeName(ex.exerciseType) == f.exerciseType)
    && (f.keyword == ""
        || Contains(Lower(ex.content), Lower(f.keyword))
        || Contains(Lower(ex.filename), Lower(f.keyword)))
  }

  /** `filteredExercises`: the exercises that pass, in store order, each
      as often as it occurs. */
  function FilteredExercises(exs: seq<Exercise>, f: FilterState): (r: seq<Exercise>)
    ensures forall e :: e in r <==> e in exs && MatchesFilter(f, e)
    ensures forall e :: multiset(r)[e] == if MatchesFilter(f, e) then multiset(exs)[e] else 0
    ensures IsSubsequence(r, exs)
  {
    Filter(exs, (e: Exercise) => MatchesFilter(f, e))
  }

  /** The keyword is compared without regard to case. */
  lemma KeywordIgnoresCase(exs: seq<Exercise>, f: FilterState)
    ensures FilteredExercises(exs, f.(keyword := Lower(f.keyword))) == FilteredExercises(exs, f)
    ensures FilteredExercises(exs, f.(keyword := Upper(f.keyword))) == FilteredExercises(exs, f)
  {
    LowerIdempotent(f.keyword);
    LowerOfUpper(f.keyword);
    var lo := f.(keyword := Lower(f.keyword));
    var up := f.(keyword := Upper(f.keyword));
    assert (lo.keyword == "") == (f.keyword == "") && (up.keyword == "") == (f.keyword == "");
    assert Lower(lo.keyword) == Lower(f.keyword) && Lower(up.keyword) == Lower(f.keyword);
    FilterCongruent(exs, (e: Exercise) => MatchesFilter(lo, e), (e: Exercise) => MatchesFilter(f, e));
    FilterCongruent(exs, (e: Exercise) => MatchesFilter(up, e), (e: Exercise) => MatchesFilter(f, e));
  }

  /** The empty form lets every exercise through. */
  lemma EmptyFilterKeepsAll(exs: seq<Exercise>)
    ensures FilteredExercises(exs, FilterState("", "", "", "", "", "")) == exs
  {
    FilterAll(exs, (e: Exercise) => MatchesFilter(FilterState("", "", "", "", "", ""), e));
  }

  // ---------------------------------------------------------------------
  // OA options

  ghost predicate StrictlySorted(s: seq<string>) {
    forall i, j :: 0 <= i < j < |s| ==> StrLt(s[i], s[j])
  }

  /** Insert `x` into a strictly sorted list unless it is already there. */
  function InsertSorted(x: string, s: seq<string>): (r: seq<string>)
    requires StrictlySorted(s)
    ensures StrictlySorted(r)
    ensures forall y :: y in r <==> y == x || y in s
  {
    if |s| == 0 then [x]
    else if x == s[0] then s
    else if StrLt(x, s[0]) then
      assert forall j :: 0 <= j < |s| ==> StrLt(x, s[j]) by {
        forall j | 0 <= j < |s| ensures StrLt(x, s[j]) {
          if j > 0 { StrLtTransitive(x, s[0], s[j]); }
        }
      }
      [x] + s
    else
      StrLtTotal(x, s[0]);
      var rest := InsertSorted(x, s[1..]);
      assert forall y :: y in rest ==> StrLt(s[0], y) by {
        forall y | y in rest ensures StrLt(s[0], y) {
          if y != x {
            var j :| 0 <= j < |s[1..]| && s[1..][j] == y;
            assert s[j + 1] == y;
          }
        }
      }
      [s[0]] + rest
  }

  /** `[...new Set(xs)].sort()` */
  function SortedDistinct(xs: seq<string>): (r: seq<string>)
    ensures StrictlySorted(r)
    ensures forall y :: y in r <==> y in xs
  {
    if |xs| == 0 then [] else InsertSorted(xs[0], SortedDistinct(xs[1..]))
  }

  /** A strictly sorted list is determined by its elements. */
  lemma {:induction false} StrictlySortedUnique(a: seq<string>, b: seq<string>)
    requires StrictlySorted(a) && StrictlySorted(b)
    requires forall y :: y in a <==> y in b
    ensures a == b
  {
    if |a| == 0 {
      HeadIsMember(b);
    } else {
      assert a[0] in b;
      assert a[0] == b[0] by {
        assert a[0] in b && b[0] in a;
        var i :| 0 <= i < |a| && a[i] == b[0];
        var j :| 0 <= j < |b| && b[j] == a[0];
        if i > 0 && j > 0 {
          StrLtAsymmetric(a[0], b[0]);
        } else if i == 0 {
          assert a[0] == b[0];
        } else {
          assert b[0] == a[0];
        }
      }
      forall y ensures y in a[1..] <==> y in b[1..] {
        NotInTail(a, y);
        NotInTail(b, y);
      }
      StrictlySortedUnique(a[1..], b[1..]);
    }
  }

  lemma HeadIsMember(b: seq<string>)
    ensures |b| > 0 ==> b[0] in b
  {
  }

  lemma NotInTail(a: seq<string>, y: string)
    requires StrictlySorted(a) && |a| > 0
    ensures y in a[1..] <==> y in a && y != a[0]
  {
    if y in a[1..] {
      var j :| 0 <= j < |a[1..]| && a[1..][j] == y;
      assert StrLt(a[0], a[j + 1]);
      StrLtIrreflexive(a[0]);
    }
    if y in a && y != a[0] {
      var j :| 0 <= j < |a| && a[j] == y;
      assert a[1..][j - 1] == y;
    }
  }

  /** The OA codes of exercises of one subject and grade, in store order. */
  function OAsOf(exs: seq<Exercise>, subject: string, grade: string): (r: seq<string>)
    ensures forall x :: x in r <==> exists e :: e in exs && e.subject == subject && e.grade == grade && e.oa == x
  {
    if |exs| == 0 then []
    else
      var rest := OAsOf(exs[1..], subject, grade);
      assert forall e :: e in exs <==> e == exs[0] || e in exs[1..];
      if exs[0].subject == subject && exs[0].grade == grade then [exs[0].oa] + rest else rest
  }

  /** `availableOAs`: sorted, without duplicates, and holding exactly the
      OA codes of exercises whose subject and grade are those of the form. */
  function AvailableOAs(exs: seq<Exercise>, f: FilterState): (r: seq<string>)
    ensures StrictlySorted(r) && NoDup(r)
    ensures forall x :: x in r <==> exists e :: e in exs && e.subject == f.subject && e.grade == f.grade && e.oa == x
  {
    var r := SortedDistinct(OAsOf(exs, f.subject, f.grade));
    assert NoDup(r) by {
      forall i, j | 0 <= i < j < |r| ensures r[i] != r[j] {
        StrLtIrreflexive(r[i]);
      }
    }
    r
  }

  /** The OA-reset effect: a chosen OA that is no longer offered is
      cleared; anything else is left alone. */
  function ResetOA(f: FilterState, oas: seq<string>): (r: FilterState)
    ensures r.oa == "" || r.oa in oas
    ensures f.oa == "" || f.oa in oas ==> r == f
    ensures f.oa != "" && f.oa !in oas ==> r == f.(oa := "")
  {
    if f.oa != "" && f.oa !in oas then f.(oa := "") else f
  }

  /** Running the reset effect a second time changes nothing: after one
      reset the OA is empty or offered. */
  lemma ResetOAIdempotent(f: FilterState, oas: seq<string>)
    ensures ResetOA(ResetOA(f, oas), oas) == ResetOA(f, oas)
  {
  }

  // ---------------------------------------------------------------------
  // moving and selecting

  /** Swap positions `i` and `j`. */
  function Swap<T>(s: seq<T>, i: nat, j: nat): (r: seq<T>)
    requires i < |s| && j < |s|
    ensures |r| == |s| && r[i] == s[j] && r[j] == s[i]
    ensures forall k :: 0 <= k < |s| && k != i && k != j ==> r[k] == s[k]
  {
    s[i := s[j]][j := s[i]]
  }

  /** `moveExercise(index, direction)` on the selected ids. `index` is a
      row of the list on screen. */
  function MoveExercise(sel: seq<string>, index: nat, direction: int): (r: seq<string>)
    requires direction == -1 || direction == 1
    requires index < |sel|
    ensures !(0 <= index + direction < |sel|) ==> r == sel
    ensures 0 <= index + direction < |sel| ==>
      && |r| == |sel| && r[index] == sel[index + direction] && r[index + direction] == sel[index]
      && (forall k :: 0 <= k < |sel| && k != index && k != index + direction ==> r[k] == sel[k])
    ensures multiset(r) == multiset(sel)
  {
    if index + direction < 0 || index + direction >= |sel| then sel
    else
      var r := Swap(sel, index, index + direction);
      assert r == sel[index := sel[index + direction]][index + direction := sel[index]];
      r
  }

  /** Moving back undoes a move. */
  lemma MoveBack(sel: seq<string>, index: nat, direction: int)
    requires direction == -1 || direction == 1
    requires 0 <= index + direction < |sel| && index < |sel|
    ensures MoveExercise(MoveExercise(sel, index, direction), index + direction, -direction) == sel
  {
  }

  /** The move buttons as wired: the row comes from the list of
      materialised exercises, but it is used as a position in the id list.
      Once the selection holds an id with no exercise behind it the two
      numberings differ. */
  function MoveVisibleAsWritten(exs: seq<Exercise>, sel: seq<string>, row: nat, direction: int): (r: seq<string>)
    requires direction == -1 || direction == 1
    requires row < |Materialize(exs, sel)|
    ensures multiset(r) == multiset(sel)
    ensures 0 <= row + direction < |sel| ==> r[row] == sel[row + direction] && r[row + direction] == sel[row]
  {
    MoveExercise(sel, row, direction)
  }

  function Blank(id: string): Exercise {
    Exercise(id, "", "", None, None, None, "", "", "", "", MultipleChoice, Basica, [])
  }

  /** Selection ["x", "a", "b"] over a store holding only "a" and "b": the
      list shows a, b; pressing "down" on a swaps "x" and "a", and the list
      still shows a, b. */
  lemma MoveVisibleAsWrittenMisses()
    ensures Materialize([Blank("a"), Blank("b")], ["x", "a", "b"]) == [Blank("a"), Blank("b")]
    ensures MoveVisibleAsWritten([Blank("a"), Blank("b")], ["x", "a", "b"], 0, 1) == ["a", "x", "b"]
    ensures Materialize([Blank("a"), Blank("b")], ["a", "x", "b"]) == [Blank("a"), Blank("b")]
  {
    SampleShowsAB();
    SampleAfterMoveShowsAB();
    SampleMove();
  }

  lemma SampleMove()
    ensures MoveExercise(["x", "a", "b"], 0, 1) == ["a", "x", "b"]
  {
  }

  lemma SampleTail()
    ensures Materialize([Blank("a"), Blank("b")], ["b"]) == [Blank("b")]
    ensures Materialize([Blank("a"), Blank("b")], ["a", "b"]) == [Blank("a"), Blank("b")]
  {
    var exs := [Blank("a"), Blank("b")];
    SampleLookups();
    MaterializeStep(exs, ["b"]);
    assert ["b"][1..] == [];
    MaterializeStep(exs, ["a", "b"]);
    assert ["a", "b"][1..] == ["b"];
  }

  lemma SampleShowsAB()
    ensures Materialize([Blank("a"), Blank("b")], ["x", "a", "b"]) == [Blank("a"), Blank("b")]
  {
    SampleTail();
    SampleLookups();
    MaterializeStep([Blank("a"), Blank("b")], ["x", "a", "b"]);
    assert ["x", "a", "b"][1..] == ["a", "b"];
  }

  lemma SampleAfterMoveShowsAB()
    ensures Materialize([Blank("a"), Blank("b")], ["a", "x", "b"]) == [Blank("a"), Blank("b")]
  {
    var exs := [Blank("a"), Blank("b")];
    SampleTail();
    SampleLookups();
    assert Materialize(exs, ["x", "b"]) == [Blank("b")] by {
      MaterializeStep(exs, ["x", "b"]);
      assert ["x", "b"][1..] == ["b"];
    }
    MaterializeStep(exs, ["a", "x", "b"]);
    assert ["a", "x", "b"][1..] == ["x", "b"];
  }

  lemma SampleLookups()
    ensures FindById([Blank("a"), Blank("b")], "x") == None
    ensures FindById([Blank("a"), Blank("b")], "a") == Some(Blank("a"))
    ensures FindById([Blank("a"), Blank("b")], "b") == Some(Blank("b"))
  {
    assert Ids([Blank("a"), Blank("b")]) == ["a", "b"];
  }

  /** One unfolding of `Materialize`. */
  lemma MaterializeStep(exs: seq<Exercise>, sel: seq<string>)
    requires |sel| > 0
    ensures Materialize(exs, sel) == match FindById(exs, sel[0])
      case Some(e) => [e] + Materialize(exs, sel[1..])
      case None => Materialize(exs, sel[1..])
  {
    var m := Materialize(exs, sel);
    var t := Materialize(exs, sel[1..]);
    FilterStep(sel, InStore(exs));
    match FindById(exs, sel[0]) {
      case Some(e) =>
        IdsAppend([e], t);
        ConsLookups(exs, e, t);
        SameIdsSameRows(exs, m, [e] + t);
      case None =>
        SameIdsSameRows(exs, m, t);
    }
  }

  lemma ConsLookups(exs: seq<Exercise>, e: Exercise, t: seq<Exercise>)
    requires FindById(exs, e.id) == Some(e)
    requires forall k :: 0 <= k < |t| ==> FindById(exs, t[k].id) == Some(t[k])
    ensures forall k :: 0 <= k < |[e] + t| ==> FindById(exs, ([e] + t)[k].id) == Some(([e] + t)[k])
  {
    forall k | 0 <= k < |[e] + t| ensures FindById(exs, ([e] + t)[k].id) == Some(([e] + t)[k]) {
      if k > 0 {
        assert ([e] + t)[k] == t[k - 1];
      }
    }
  }

  /** The move buttons with the row read in the list the user sees: the
      id list is rebuilt from the shown rows and the two rows are swapped
      there. */
  function MoveVisible(exs: seq<Exercise>, sel: seq<string>, row: nat, direction: int): (r: seq<string>)
    requires direction == -1 || direction == 1
    requires row < |Materialize(exs, sel)|
    ensures forall k :: 0 <= k < |r| ==> r[k] in Ids(exs)
  {
    var shown := Ids(Materialize(exs, sel));
    var r := MoveExercise(shown, row, direction);
    assert forall k :: 0 <= k < |r| ==> r[k] in Ids(exs) by {
      forall k | 0 <= k < |r| ensures r[k] in Ids(exs) {
        assert r[k] in multiset(shown);
      }
    }
    r
  }

  /** After the corrected move the list shows the same rows with the
      chosen row and its neighbour exchanged (or unchanged at the ends). */
  lemma MoveVisibleSwapsRows(exs: seq<Exercise>, sel: seq<string>, row: nat, direction: int)
    requires direction == -1 || direction == 1
    requires row < |Materialize(exs, sel)|
    ensures 0 <= row + direction < |Materialize(exs, sel)| ==>
      Materialize(exs, MoveVisible(exs, sel, row, direction)) == Swap(Materialize(exs, sel), row, row + direction)
    ensures !(0 <= row + direction < |Materialize(exs, sel)|) ==>
      Materialize(exs, MoveVisible(exs, sel, row, direction)) == Materialize(exs, sel)
  {
    var shown := Materialize(exs, sel);
    var r := MoveVisible(exs, sel, row, direction);
    assert r == MoveExercise(Ids(shown), row, direction);
    MaterializeComplete(exs, r);
    SwappedRows(exs, shown, Materialize(exs, r), row, direction);
  }

  /** The rows-level content of the corrected move, for any two lists of
      looked-up records. */
  lemma SwappedRows(exs: seq<Exercise>, shown: seq<Exercise>, after: seq<Exercise>, row: nat, direction: int)
    requires direction == -1 || direction == 1
    requires row < |shown|
    requires forall k :: 0 <= k < |shown| ==> FindById(exs, shown[k].id) == Some(shown[k])
    requires forall k :: 0 <= k < |after| ==> FindById(exs, after[k].id) == Some(after[k])
    requires Ids(after) == MoveExercise(Ids(shown), row, direction)
    ensures 0 <= row + direction < |shown| ==> after == Swap(shown, row, row + direction)
    ensures !(0 <= row + direction < |shown|) ==> after == shown
  {
    if 0 <= row + direction < |shown| {
      var target := Swap(shown, row, row + direction);
      assert Ids(target) == Ids(after);
      SwapKeepsLookups(exs, shown, row, row + direction);
      SameIdsSameRows(exs, after, target);
    } else {
      SameIdsSameRows(exs, after, shown);
    }
  }

  lemma SwapKeepsLookups(exs: seq<Exercise>, shown: seq<Exercise>, i: nat, j: nat)
    requires i < |shown| && j < |shown|
    requires forall k :: 0 <= k < |shown| ==> FindById(exs, shown[k].id) == Some(shown[k])
    ensures var t := Swap(shown, i, j);
            forall k :: 0 <= k < |t| ==> FindById(exs, t[k].id) == Some(t[k])
  {
  }

  /** Two lists of looked-up exercises with the same ids are the same list. */
  lemma SameIdsSameRows(exs: seq<Exercise>, u: seq<Exercise>, v: seq<Exercise>)
    requires forall k :: 0 <= k < |u| ==> FindById(exs, u[k].id) == Some(u[k])
    requires forall k :: 0 <= k < |v| ==> FindById(exs, v[k].id) == Some(v[k])
    requires Ids(u) == Ids(v)
    ensures u == v
  {
    forall k | 0 <= k < |u| ensures u[k] == v[k] {
      assert Ids(u)[k] == Ids(v)[k];
    }
  }

  /** Toggle every id of `ids` that is not in `snapshot`, in order: the
      loop of `handleSelectAll`, where the check reads the selection as it
      was before the loop. */
  function ToggleEachUnselected(acc: seq<string>, snapshot: seq<string>, ids: seq<string>): (r: seq<string>)
    ensures forall x :: x in acc && x in snapshot ==> x in r
    ensures forall x :: x in r ==> x in acc || x in ids
    decreases |ids|
  {
    if |ids| == 0 then acc
    else
      var next := if ids[0] in snapshot then acc else Toggle(acc, ids[0]);
      ToggleEachUnselected(next, snapshot, ids[1..])
  }

  /** The ids of `ids` that are not in `snapshot`, in order. */
  function Unselected(ids: seq<string>, snapshot: seq<string>): (r: seq<string>)
    ensures forall x :: x in r <==> x in ids && x !in snapshot
    ensures IsSubsequence(r, ids)
  {
    if |ids| == 0 then []
    else
      var rest := Unselected(ids[1..], snapshot);
      assert ids == [ids[0]] + ids[1..];
      if ids[0] !in snapshot then
        assert ([ids[0]] + rest)[1..] == rest;
        [ids[0]] + rest
      else rest
  }

  /** With distinct ids, each unselected id is appended once, in order,
      and the previous selection stays in front. */
  lemma {:induction false} ToggleEachAppends(acc: seq<string>, snapshot: seq<string>, ids: seq<string>)
    requires NoDup(ids)
    requires forall k :: 0 <= k < |ids| && ids[k] !in snapshot ==> ids[k] !in acc
    ensures ToggleEachUnselected(acc, snapshot, ids) == acc + Unselected(ids, snapshot)
    decreases |ids|
  {
    if |ids| > 0 {
      var x := ids[0];
      var tail := ids[1..];
      var next := if x in snapshot then acc else Toggle(acc, x);
      NoDupTail(ids);
      if x !in snapshot {
        assert next == acc + [x] by {
          assert x !in acc;
        }
      }
      forall k | 0 <= k < |tail| && tail[k] !in snapshot
        ensures tail[k] !in next
      {
        assert tail[k] == ids[k + 1];
      }
      ToggleEachAppends(next, snapshot, tail);
      assert ToggleEachUnselected(acc, snapshot, ids) == ToggleEachUnselected(next, snapshot, tail);
      assert Unselected(ids, snapshot) == (if x in snapshot then [] else [x]) + Unselected(tail, snapshot);
      AppendRegroup(acc, if x in snapshot then [] else [x], Unselected(tail, snapshot));
    }
  }

  lemma AppendRegroup(a: seq<string>, b: seq<string>, c: seq<string>)
    ensures (a + b) + c == a + (b + c)
  {
  }

  lemma NoDupTail<T>(s: seq<T>)
    requires NoDup(s) && |s| > 0
    ensures NoDup(s[1..]) && s[0] !in s[1..]
  {
    forall i, j | 0 <= i < j < |s[1..]| ensures s[1..][i] != s[1..][j] {
      assert s[1..][i] == s[i + 1] && s[1..][j] == s[j + 1];
    }
    forall k | 0 <= k < |s[1..]| ensures s[1..][k] != s[0] {
      assert s[1..][k] == s[k + 1];
    }
  }

  /** `handleSelectAll` */
  function SelectAll(sel: seq<string>, filtered: seq<Exercise>): (r: seq<string>)
    ensures forall x :: x in sel ==> x in r
    ensures forall x :: x in r ==> x in sel || x in Ids(filtered)
  {
    ToggleEachUnselected(sel, sel, Ids(filtered))
  }

  /** With distinct ids among the listed exercises, "select all" appends the
      ones not yet selected, in list order, and afterwards every listed
      exercise is selected. */
  lemma SelectAllSelectsEvery(sel: seq<string>, filtered: seq<Exercise>)
    requires NoDup(Ids(filtered))
    ensures SelectAll(sel, filtered) == sel + Unselected(Ids(filtered), sel)
    ensures forall e :: e in filtered ==> e.id in SelectAll(sel, filtered)
  {
    ToggleEachAppends(sel, sel, Ids(filtered));
    forall e | e in filtered ensures e.id in SelectAll(sel, filtered) {
      var k :| 0 <= k < |filtered| && filtered[k] == e;
      assert Ids(filtered)[k] == e.id;
    }
  }

  // ---------------------------------------------------------------------
  // export file name

  datatype Variant = Student | Teacher

  /** `title.replace(/\s+/g, '_')` */
  function ReplaceWhitespaceRuns(s: string): (r: string)
    ensures NoWhitespace(r)
    decreases |s|
  {
    if |s| == 0 then ""
    else if IsWhitespace(s[0]) then
      var t := TrimStart(s);
      assert |t| < |s|;
      "_" + ReplaceWhitespaceRuns(t)
    else
      [s[0]] + ReplaceWhitespaceRuns(s[1..])
  }

  predicate Visible(c: char) {
    c != '_' && !IsWhitespace(c)
  }

  /** Replacing whitespace runs keeps every other character, in order:
      apart from underscores, the name shows the title's visible
      characters. */
  lemma {:induction false} ReplaceKeepsVisible(s: string)
    ensures Filter(ReplaceWhitespaceRuns(s), Visible) == Filter(s, Visible)
    decreases |s|
  {
    if |s| > 0 {
      if IsWhitespace(s[0]) {
        var t := TrimStart(s);
        assert |t| < |s|;
        ReplaceKeepsVisible(t);
        WsRunFiltersAway(s);
        assert ("_" + ReplaceWhitespaceRuns(t))[1..] == ReplaceWhitespaceRuns(t);
      } else {
        ReplaceKeepsVisible(s[1..]);
        assert ([s[0]] + ReplaceWhitespaceRuns(s[1..]))[1..] == ReplaceWhitespaceRuns(s[1..]);
      }
    }
  }

  /** Dropping a leading whitespace run loses no visible character. */
  lemma {:induction false} WsRunFiltersAway(s: string)
    ensures Filter(TrimStart(s), Visible) == Filter(s, Visible)
    decreases |s|
  {
    if |s| > 0 && IsWhitespace(s[0]) {
      WsRunFiltersAway(s[1..]);
    }
  }

  predicate NoWhitespace(s: string) {
    forall k :: 0 <= k < |s| ==> !IsWhitespace(s[k])
  }

  predicate AllWhitespace(s: string) {
    forall k :: 0 <= k < |s| ==> IsWhitespace(s[k])
  }

  /** Leading whitespace followed by a visible character (or nothing) is
      trimmed down to that character. */
  lemma {:induction false} TrimStartPastRun(w: string, b: string)
    requires AllWhitespace(w)
    requires b == "" || !IsWhitespace(b[0])
    ensures TrimStart(w + b) == b
    decreases |w|
  {
    if |w| > 0 {
      assert (w + b)[1..] == w[1..] + b;
      TrimStartPastRun(w[1..], b);
    } else {
      assert w + b == b;
    }
  }

  /** Trimming a string that has a visible character is not affected by
      what follows it. */
  lemma {:induction false} TrimStartAppend(a: string, t: string)
    requires TrimStart(a) != ""
    ensures TrimStart(a + t) == TrimStart(a) + t
    decreases |a|
  {
    if IsWhitespace(a[0]) {
      assert (a + t)[1..] == a[1..] + t;
      TrimStartAppend(a[1..], t);
    }
  }

  /** A title without whitespace is used as it is. */
  lemma {:induction false} ReplaceKeepsPlainText(s: string)
    requires NoWhitespace(s)
    ensures ReplaceWhitespaceRuns(s) == s
    decreases |s|
  {
    if |s| > 0 {
      ReplaceKeepsPlainText(s[1..]);
      assert s == [s[0]] + s[1..];
    }
  }

  /** A whitespace run on its own becomes one underscore. */
  lemma WhitespaceRunIsUnderscore(w: string)
    requires |w| > 0 && AllWhitespace(w)
    ensures ReplaceWhitespaceRuns(w) == "_"
  {
    TrimStartPastRun(w, "");
    assert w + "" == w;
  }

  /** Replacement works run by run: a maximal whitespace run between two
      stretches of text becomes one underscore and the text on either side
      is replaced independently. */
  lemma {:induction false} ReplaceSplitsAtRun(a: string, w: string, b: string)
    requires a == "" || !IsWhitespace(a[|a| - 1])
    requires |w| > 0 && AllWhitespace(w)
    requires b == "" || !IsWhitespace(b[0])
    ensures ReplaceWhitespaceRuns(a + w + b) == ReplaceWhitespaceRuns(a) + "_" + ReplaceWhitespaceRuns(b)
    decreases |a|
  {
    if |a| == 0 {
      assert a + w + b == w + b;
      TrimStartPastRun(w, b);
      assert ReplaceWhitespaceRuns(w + b) == "_" + ReplaceWhitespaceRuns(TrimStart(w + b));
    } else if IsWhitespace(a[0]) {
      var t := TrimStart(a);
      assert !IsWhitespace(a[|a| - 1]);
      assert t != "";
      assert t[|t| - 1] == a[|a| - 1];
      ReplaceSplitsAtRun(t, w, b);
      SplitAfterLeadingRun(a, w, b);
    } else {
      var a' := a[1..];
      assert a' == "" || a'[|a'| - 1] == a[|a| - 1];
      ReplaceSplitsAtRun(a', w, b);
      SplitAfterVisible(a, w, b);
    }
  }

  /** The step of `ReplaceSplitsAtRun` for text that starts with a
      whitespace run. */
  lemma {:induction false} SplitAfterLeadingRun(a: string, w: string, b: string)
    requires |a| > 0 && IsWhitespace(a[0]) && TrimStart(a) != ""
    requires var t := TrimStart(a);
      ReplaceWhitespaceRuns(t + w + b) == ReplaceWhitespaceRuns(t) + "_" + ReplaceWhitespaceRuns(b)
    ensures ReplaceWhitespaceRuns(a + w + b) == ReplaceWhitespaceRuns(a) + "_" + ReplaceWhitespaceRuns(b)
  {
    var t := TrimStart(a);
    LeadingRunOfJoin(a, w, b);
    UnfoldRun(a);
    ConcatAssoc("_", ReplaceWhitespaceRuns(t), ReplaceWhitespaceRuns(b),
      ReplaceWhitespaceRuns(a + w + b), ReplaceWhitespaceRuns(t + w + b), ReplaceWhitespaceRuns(a));
  }

  /** A leading run of `a` is the leading run of `a + w + b` when `a` has a
      visible character. */
  lemma LeadingRunOfJoin(a: string, w: string, b: string)
    requires |a| > 0 && IsWhitespace(a[0]) && TrimStart(a) != ""
    ensures ReplaceWhitespaceRuns(a + w + b) == "_" + ReplaceWhitespaceRuns(TrimStart(a) + w + b)
  {
    var s := a + w + b;
    assert s == a + (w + b);
    TrimStartAppend(a, w + b);
    assert TrimStart(a) + (w + b) == TrimStart(a) + w + b;
    assert s[0] == a[0];
    UnfoldRun(s);
  }

  /** The step of `ReplaceSplitsAtRun` for text that starts with a visible
      character. */
  lemma {:induction false} SplitAfterVisible(a: string, w: string, b: string)
    requires |a| > 0 && !IsWhitespace(a[0])
    requires ReplaceWhitespaceRuns(a[1..] + w + b) == ReplaceWhitespaceRuns(a[1..]) + "_" + ReplaceWhitespaceRuns(b)
    ensures ReplaceWhitespaceRuns(a + w + b) == ReplaceWhitespaceRuns(a) + "_" + ReplaceWhitespaceRuns(b)
  {
    VisibleHeadOfJoin(a, w, b);
    UnfoldVisible(a);
    ConcatAssoc([a[0]], ReplaceWhitespaceRuns(a[1..]), ReplaceWhitespaceRuns(b),
      ReplaceWhitespaceRuns(a + w + b), ReplaceWhitespaceRuns(a[1..] + w + b), ReplaceWhitespaceRuns(a));
  }

  /** A visible first character of `a` is the first character of `a + w + b`. */
  lemma VisibleHeadOfJoin(a: string, w: string, b: string)
    requires |a| > 0 && !IsWhitespace(a[0])
    ensures ReplaceWhitespaceRuns(a + w + b) == [a[0]] + ReplaceWhitespaceRuns(a[1..] + w + b)
  {
    var s := a + w + b;
    assert s[1..] == a[1..] + w + b;
    assert s[0] == a[0];
    UnfoldVisible(s);
  }

  /** The concatenation step shared by the two cases above. */
  lemma ConcatAssoc(p: string, x: string, y: string, whole: string, rest: string, left: string)
    requires whole == p + rest && rest == x + "_" + y && left == p + x
    ensures whole == left + "_" + y
  {
  }

  lemma UnfoldVisible(s: string)
    requires |s| > 0 && !IsWhitespace(s[0])
    ensures ReplaceWhitespaceRuns(s) == [s[0]] + ReplaceWhitespaceRuns(s[1..])
  {
  }

  lemma UnfoldRun(s: string)
    requires |s| > 0 && IsWhitespace(s[0])
    ensures ReplaceWhitespaceRuns(s) == "_" + ReplaceWhitespaceRuns(TrimStart(s))
  {
  }

  /** The exported file's name. */
  function ExportFilename(title: string, variant: Variant): (r: string)
    ensures forall k :: 0 <= k < |r| ==> !IsWhitespace(r[k])
    ensures EndsWith(r, if variant == Student then "_Estudiante.docx" else "_Pauta.docx")
    ensures r == ReplaceWhitespaceRuns(title) + (if variant == Student then "_Estudiante.docx" else "_Pauta.docx")
  {
    var suffix := if variant == Student then "_Estudiante.docx" else "_Pauta.docx";
    var r := ReplaceWhitespaceRuns(title) + suffix;
    assert r[|r| - |suffix|..] == suffix;
    assert forall k :: 0 <= k < |suffix| ==> !IsWhitespace(suffix[k]);
    r
  }
}
