/** The statistics of the analysis page (pages/AIAnalysis.tsx): the
    difficulty histogram, the per-skill tally, and the "load demo" button
    that selects the first exercises of the store. */
module Analysis {
  import opened Wrappers
  import opened Types
  import opened Seqs
  import opened Store
  import opened Generator

  /** A `{ name, value }` entry of a chart. */
  datatype Entry = Entry(name: string, value: nat)

  function Names(es: seq<Entry>): (r: seq<string>)
    ensures |r| == |es|
    ensures forall k :: 0 <= k < |es| ==> r[k] == es[k].name
  {
    seq(|es|, k requires 0 <= k < |es| => es[k].name)
  }

  function Total(es: seq<Entry>): nat {
    if |es| == 0 then 0 else es[0].value + Total(es[1..])
  }

  /** Totals add over concatenation. */
  lemma {:induction false} TotalAppend(a: seq<Entry>, b: seq<Entry>)
    ensures Total(a + b) == Total(a) + Total(b)
  {
    if |a| > 0 {
      assert (a + b)[0] == a[0];
      assert (a + b)[1..] == a[1..] + b;
      TotalAppend(a[1..], b);
    } else {
      assert a + b == b;
    }
  }

  // ---------------------------------------------------------------------
  // difficulty

  /** Number of exercises of difficulty `d`. */
  function CountDifficulty(exs: seq<Exercise>, d: Difficulty): (n: nat)
    ensures n <= |exs|
    ensures n == 0 <==> forall k :: 0 <= k < |exs| ==> exs[k].difficulty != d
  {
    if |exs| == 0 then 0
    else (if exs[0].difficulty == d then 1 else 0) + CountDifficulty(exs[1..], d)
  }

  /** Every exercise has exactly one of the three difficulties. */
  lemma {:induction false} DifficultiesPartition(exs: seq<Exercise>)
    ensures CountDifficulty(exs, Basica) + CountDifficulty(exs, Media) + CountDifficulty(exs, Avanzada) == |exs|
  {
    if |exs| > 0 {
      DifficultiesPartition(exs[1..]);
    }
  }

  function NonZero(es: seq<Entry>): (r: seq<Entry>)
    ensures forall k :: 0 <= k < |r| ==> r[k].value > 0
    ensures forall e :: e in r <==> e in es && e.value > 0
    ensures IsSubsequence(r, es)
    ensures Total(r) == Total(es)
  {
    if |es| == 0 then []
    else
      var rest := NonZero(es[1..]);
      assert es == [es[0]] + es[1..];
      if es[0].value > 0 then
        assert ([es[0]] + rest)[1..] == rest;
        [es[0]] + rest
      else rest
  }

  /** `difficultyData`: Básica, Media, Avanzada in that order, with their
      counts, leaving out the ones that do not occur. */
  function DifficultyData(exs: seq<Exercise>): (r: seq<Entry>)
    ensures forall k :: 0 <= k < |r| ==> r[k].value > 0
    ensures Total(r) == |exs|
    ensures IsSubsequence(Names(r), DifficultyNames)
  {
    var all := AllDifficulties(exs);
    DifficultiesPartition(exs);
    TotalOfThree(all);
    var r := NonZero(all);
    SubsequenceNames(r, all);
    r
  }

  /** A difficulty appears in the chart, with its count, exactly when some
      exercise has it. */
  lemma DifficultyDataEntries(exs: seq<Exercise>, d: Difficulty)
    ensures Entry(DifficultyName(d), CountDifficulty(exs, d)) in DifficultyData(exs)
        <==> exists k :: 0 <= k < |exs| && exs[k].difficulty == d
  {
    assert DifficultyData(exs) == NonZero(AllDifficulties(exs));
  }

  const DifficultyNames := [DifficultyName(Basica), DifficultyName(Media), DifficultyName(Avanzada)]

  /** The three entries before the zero ones are dropped. */
  function AllDifficulties(exs: seq<Exercise>): (r: seq<Entry>)
    ensures |r| == 3 && Names(r) == DifficultyNames && NoDup(Names(r))
    ensures forall d: Difficulty :: Entry(DifficultyName(d), CountDifficulty(exs, d)) in r
    ensures forall e :: e in r ==> exists d: Difficulty :: e == Entry(DifficultyName(d), CountDifficulty(exs, d))
  {
    [ Entry(DifficultyName(Basica), CountDifficulty(exs, Basica)),
      Entry(DifficultyName(Media), CountDifficulty(exs, Media)),
      Entry(DifficultyName(Avanzada), CountDifficulty(exs, Avanzada)) ]
  }

  lemma TotalOfThree(es: seq<Entry>)
    requires |es| == 3
    ensures Total(es) == es[0].value + es[1].value + es[2].value
  {
    var t1 := es[1..];
    var t2 := t1[1..];
    assert t2[1..] == [];
    assert Total(t2) == es[2].value;
    assert Total(t1) == es[1].value + Total(t2);
  }

  lemma {:induction false} SubsequenceNames(a: seq<Entry>, b: seq<Entry>)
    requires IsSubsequence(a, b) && NoDup(Names(b))
    ensures IsSubsequence(Names(a), Names(b))
    decreases |b|
  {
    if |a| > 0 && |b| > 0 {
      assert Names(a)[1..] == Names(a[1..]);
      assert Names(b)[1..] == Names(b[1..]);
      NoDupTail(Names(b));
      if a[0] == b[0] {
        SubsequenceNames(a[1..], b[1..]);
      } else {
        SubsequenceHeadIn(a, b[1..]);
        assert a[0].name in Names(b[1..]);
        assert Names(a)[0] != Names(b)[0];
        SubsequenceNames(a, b[1..]);
      }
    }
  }

  lemma {:induction false} SubsequenceHeadIn<T>(a: seq<T>, b: seq<T>)
    requires IsSubsequence(a, b) && |a| > 0
    ensures a[0] in b
    decreases |b|
  {
    if a[0] != b[0] {
      SubsequenceHeadIn(a, b[1..]);
    }
  }

  // ---------------------------------------------------------------------
  // skills

  const NoSkill := "No definida"

  /** The key an exercise is counted under: its extracted skill, or
      "No definida" when there is none or it is empty. */
  function SkillKey(ex: Exercise): (k: string)
    ensures k != ""
  {
    if ex.parsedContent.Some? && ex.parsedContent.value.skill != "" then ex.parsedContent.value.skill else NoSkill
  }

  /** Number of exercises counted under `key`. */
  function CountKey(exs: seq<Exercise>, key: string): nat {
    if |exs| == 0 then 0
    else CountKey(exs[..|exs| - 1], key) + (if SkillKey(exs[|exs| - 1]) == key then 1 else 0)
  }

  /** One step of the `reduce`: the entry for `key` goes up by one, or a
      new entry with 1 is added at the end. */
  function Bump(acc: seq<Entry>, key: string): (r: seq<Entry>)
    ensures |r| == |acc| || |r| == |acc| + 1
    ensures Total(r) == Total(acc) + 1
  {
    if |acc| == 0 then [Entry(key, 1)]
    else if acc[0].name == key then [Entry(key, acc[0].value + 1)] + acc[1..]
    else
      var rest := Bump(acc[1..], key);
      TotalAppend([acc[0]], rest);
      [acc[0]] + rest
  }

  /** The value recorded for `name`, or 0. */
  function ValueOf(es: seq<Entry>, name: string): nat {
    if |es| == 0 then 0 else if es[0].name == name then es[0].value else ValueOf(es[1..], name)
  }

  /** `acc[key] = (acc[key] || 0) + 1` as seen through a lookup. */
  lemma {:induction false} BumpValueOf(acc: seq<Entry>, key: string, n: string)
    ensures ValueOf(Bump(acc, key), n) == ValueOf(acc, n) + (if n == key then 1 else 0)
  {
    if |acc| > 0 && acc[0].name != key {
      BumpValueOf(acc[1..], key, n);
      assert ([acc[0]] + Bump(acc[1..], key))[1..] == Bump(acc[1..], key);
    } else if |acc| > 0 {
      assert Bump(acc, key)[1..] == acc[1..];
    }
  }

  /** Some entry is named `n`. */
  predicate HasName(es: seq<Entry>, n: string) {
    |es| > 0 && (es[0].name == n || HasName(es[1..], n))
  }

  /** No two entries share a name: the keys of an object. */
  predicate DistinctNames(es: seq<Entry>) {
    |es| == 0 || (!HasName(es[1..], es[0].name) && DistinctNames(es[1..]))
  }

  lemma {:induction false} HasNameIff(es: seq<Entry>, n: string)
    ensures HasName(es, n) <==> exists k :: 0 <= k < |es| && es[k].name == n
  {
    if |es| > 0 {
      HasNameIff(es[1..], n);
      if exists k :: 0 <= k < |es| && es[k].name == n {
        var k :| 0 <= k < |es| && es[k].name == n;
        if k > 0 {
          assert es[1..][k - 1].name == n;
        }
      }
      if exists k :: 0 <= k < |es[1..]| && es[1..][k].name == n {
        var k :| 0 <= k < |es[1..]| && es[1..][k].name == n;
        assert es[k + 1].name == n;
      }
    }
  }

  lemma {:induction false} DistinctNamesIndices(es: seq<Entry>)
    requires DistinctNames(es)
    ensures forall i, j :: 0 <= i < j < |es| ==> es[i].name != es[j].name
  {
    if |es| > 0 {
      DistinctNamesIndices(es[1..]);
      HasNameIff(es[1..], es[0].name);
      forall i, j | 0 <= i < j < |es| ensures es[i].name != es[j].name {
        assert es[j] == es[1..][j - 1];
        if i > 0 {
          assert es[i] == es[1..][i - 1];
        }
      }
    }
  }

  lemma {:induction false} BumpHasName(acc: seq<Entry>, key: string, n: string)
    ensures HasName(Bump(acc, key), n) <==> HasName(acc, n) || n == key
  {
    if |acc| > 0 {
      var r := Bump(acc, key);
      if acc[0].name != key {
        BumpHasName(acc[1..], key, n);
        assert r[1..] == Bump(acc[1..], key);
      } else {
        assert r[1..] == acc[1..];
      }
    }
  }

  lemma {:induction false} BumpDistinct(acc: seq<Entry>, key: string)
    requires DistinctNames(acc)
    ensures DistinctNames(Bump(acc, key))
  {
    if |acc| > 0 {
      var r := Bump(acc, key);
      if acc[0].name != key {
        BumpDistinct(acc[1..], key);
        BumpHasName(acc[1..], key, acc[0].name);
        assert r[1..] == Bump(acc[1..], key);
      } else {
        assert r[1..] == acc[1..];
      }
    }
  }

  lemma {:induction false} ValueOfAt(es: seq<Entry>, k: nat)
    requires k < |es| && DistinctNames(es)
    ensures ValueOf(es, es[k].name) == es[k].value
  {
    if k > 0 {
      HasNameIff(es[1..], es[k].name);
      assert es[1..][k - 1] == es[k];
      ValueOfAt(es[1..], k - 1);
    }
  }

  /** `skillCounts`, as the entries of the object in insertion order. */
  function SkillCounts(exs: seq<Exercise>): (r: seq<Entry>)
    ensures Total(r) == |exs|
  {
    if |exs| == 0 then [] else Bump(SkillCounts(exs[..|exs| - 1]), SkillKey(exs[|exs| - 1]))
  }

  lemma {:induction false} SkillCountsValueOf(exs: seq<Exercise>, n: string)
    ensures ValueOf(SkillCounts(exs), n) == CountKey(exs, n)
  {
    if |exs| > 0 {
      SkillCountsValueOf(exs[..|exs| - 1], n);
      BumpValueOf(SkillCounts(exs[..|exs| - 1]), SkillKey(exs[|exs| - 1]), n);
    }
  }

  /** Some exercise is counted under `n`. */
  predicate HasKey(exs: seq<Exercise>, n: string) {
    exists k :: 0 <= k < |exs| && SkillKey(exs[k]) == n
  }

  lemma HasKeySnoc(exs: seq<Exercise>, n: string)
    requires |exs| > 0
    ensures HasKey(exs, n) <==> HasKey(exs[..|exs| - 1], n) || SkillKey(exs[|exs| - 1]) == n
  {
    var init := exs[..|exs| - 1];
    if HasKey(init, n) {
      var k :| 0 <= k < |init| && SkillKey(init[k]) == n;
      assert exs[k] == init[k];
    }
    if HasKey(exs, n) {
      var k :| 0 <= k < |exs| && SkillKey(exs[k]) == n;
      if k < |init| {
        assert init[k] == exs[k];
      }
    }
  }

  lemma {:induction false} SkillCountsNames(exs: seq<Exercise>, n: string)
    ensures DistinctNames(SkillCounts(exs))
    ensures HasName(SkillCounts(exs), n) <==> HasKey(exs, n)
  {
    if |exs| > 0 {
      var init := exs[..|exs| - 1];
      SkillCountsNames(init, n);
      BumpDistinct(SkillCounts(init), SkillKey(exs[|exs| - 1]));
      BumpHasName(SkillCounts(init), SkillKey(exs[|exs| - 1]), n);
      HasKeySnoc(exs, n);
    }
  }

  /** The tally is right: one entry per distinct key, each holding the
      number of exercises counted under it, the values adding up to the
      number of exercises. */
  lemma SkillCountsCorrect(exs: seq<Exercise>)
    ensures forall i, j :: 0 <= i < j < |SkillCounts(exs)| ==> SkillCounts(exs)[i].name != SkillCounts(exs)[j].name
    ensures forall n :: (exists k :: 0 <= k < |SkillCounts(exs)| && SkillCounts(exs)[k].name == n) <==> HasKey(exs, n)
    ensures forall k :: 0 <= k < |SkillCounts(exs)| ==>
      SkillCounts(exs)[k].value == CountKey(exs, SkillCounts(exs)[k].name)
    ensures Total(SkillCounts(exs)) == |exs|
  {
    var r := SkillCounts(exs);
    SkillCountsNames(exs, "");
    DistinctNamesIndices(r);
    forall n ensures (exists k :: 0 <= k < |r| && r[k].name == n) <==> HasKey(exs, n) {
      SkillCountsNames(exs, n);
      HasNameIff(r, n);
    }
    forall k | 0 <= k < |r| ensures r[k].value == CountKey(exs, r[k].name) {
      ValueOfAt(r, k);
      SkillCountsValueOf(exs, r[k].name);
    }
  }

  /** `skillData`: the entries of the tally, in insertion order: one per
      distinct key, each with the positive number of exercises counted
      under it. */
  function SkillData(exs: seq<Exercise>): (r: seq<Entry>)
    ensures r == SkillCounts(exs)
    ensures forall k :: 0 <= k < |r| ==> r[k].value > 0
    ensures forall i, j :: 0 <= i < j < |r| ==> r[i].name != r[j].name
    ensures forall n :: (exists k :: 0 <= k < |r| && r[k].name == n) <==> HasKey(exs, n)
    ensures forall k :: 0 <= k < |r| ==> r[k].value == CountKey(exs, r[k].name)
    ensures Total(r) == |exs|
  {
    var r := SkillCounts(exs);
    SkillCountsCorrect(exs);
    forall k | 0 <= k < |r| ensures r[k].value > 0 {
      assert HasKey(exs, r[k].name);
      var j :| 0 <= j < |exs| && SkillKey(exs[j]) == r[k].name;
      CountKeyPositive(exs, j);
    }
    r
  }

  lemma {:induction false} CountKeyPositive(exs: seq<Exercise>, j: nat)
    requires j < |exs|
    ensures CountKey(exs, SkillKey(exs[j])) > 0
  {
    if j < |exs| - 1 {
      assert exs[..|exs| - 1][j] == exs[j];
      CountKeyPositive(exs[..|exs| - 1], j);
    }
  }

  // ---------------------------------------------------------------------
  // load demo

  const DemoBatch := 8

  /** `allExercises.slice(0, 8)` */
  function FirstBatch(exs: seq<Exercise>): (r: seq<Exercise>)
    ensures |r| <= DemoBatch && |r| <= |exs|
    ensures |exs| >= DemoBatch ==> |r| == DemoBatch
    ensures forall k :: 0 <= k < |r| ==> r[k] == exs[k]
  {
    exs[..if |exs| < DemoBatch then |exs| else DemoBatch]
  }

  /** `loadDemoData`: toggles each of the first eight exercises of the
      store whose id is not among the ids of the shown selection. */
  function LoadDemo(st: AppState): (r: seq<string>)
    ensures forall x :: x in st.selectedIds && x in Ids(GetSelectedExercises(st)) ==> x in r
    ensures forall x :: x in r ==> x in st.selectedIds || x in Ids(FirstBatch(st.exercises))
  {
    ToggleEachUnselected(st.selectedIds, Ids(GetSelectedExercises(st)), Ids(FirstBatch(st.exercises)))
  }

  /** For an id of the store, being among the shown rows and being in the
      selection are the same thing. */
  lemma ShownIffSelected(st: AppState, x: string)
    requires x in Ids(st.exercises)
    ensures x in Ids(GetSelectedExercises(st)) <==> x in st.selectedIds
  {
  }

  lemma LoadDemoAppends(st: AppState)
    requires NoDup(Ids(FirstBatch(st.exercises)))
    ensures LoadDemo(st) == st.selectedIds + Unselected(Ids(FirstBatch(st.exercises)), st.selectedIds)
  {
    var ids := Ids(FirstBatch(st.exercises));
    var snapshot := Ids(GetSelectedExercises(st));
    forall k | 0 <= k < |ids| ensures ids[k] in snapshot <==> ids[k] in st.selectedIds {
      assert Ids(st.exercises)[k] == ids[k];
      ShownIffSelected(st, ids[k]);
    }
    ToggleEachAppends(st.selectedIds, snapshot, ids);
    UnselectedCongruent(ids, snapshot, st.selectedIds);
  }

  /** With distinct ids among the first eight, "load demo" keeps the
      selection and appends those of the eight not yet selected, in store
      order: afterwards all of them are selected and at most eight ids were
      added. */
  lemma LoadDemoSelectsFirst(st: AppState)
    requires NoDup(Ids(FirstBatch(st.exercises)))
    ensures LoadDemo(st) == st.selectedIds + Unselected(Ids(FirstBatch(st.exercises)), st.selectedIds)
    ensures forall k :: 0 <= k < |FirstBatch(st.exercises)| ==> st.exercises[k].id in LoadDemo(st)
    ensures |LoadDemo(st)| <= |st.selectedIds| + DemoBatch
  {
    var ids := Ids(FirstBatch(st.exercises));
    LoadDemoAppends(st);
    AppendedCoversAll(st.selectedIds, ids, LoadDemo(st));
    forall k | 0 <= k < |FirstBatch(st.exercises)| ensures st.exercises[k].id in LoadDemo(st) {
      assert ids[k] == st.exercises[k].id;
    }
  }

  lemma AppendedCoversAll(sel: seq<string>, ids: seq<string>, out: seq<string>)
    requires out == sel + Unselected(ids, sel)
    ensures forall k :: 0 <= k < |ids| ==> ids[k] in out
    ensures |out| <= |sel| + |ids|
  {
    UnselectedShorter(ids, sel);
    forall k | 0 <= k < |ids| ensures ids[k] in out {
      if ids[k] !in sel {
        assert ids[k] in Unselected(ids, sel);
      }
    }
  }

  lemma {:induction false} UnselectedShorter(ids: seq<string>, snapshot: seq<string>)
    ensures |Unselected(ids, snapshot)| <= |ids|
  {
    if |ids| > 0 {
      UnselectedShorter(ids[1..], snapshot);
    }
  }

  lemma {:induction false} UnselectedCongruent(ids: seq<string>, a: seq<string>, b: seq<string>)
    requires forall k :: 0 <= k < |ids| ==> (ids[k] in a <==> ids[k] in b)
    ensures Unselected(ids, a) == Unselected(ids, b)
  {
    if |ids| > 0 {
      UnselectedCongruent(ids[1..], a, b);
    }
  }
}
