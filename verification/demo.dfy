/** The demo bank loader (services/demoLoader.ts): a manifest of Word
    documents, each fetched, converted and turned into an exercise.

    The network and the Word converter are outside the model: the caller
    supplies the manifest (`None` when it could not be fetched or decoded)
    and, for every entry, what fetching and converting it gave. */
module DemoLoader {
  import opened Wrappers
  import opened Text
  import opened Types
  import opened Parser
  import opened Upload
  import opened Seqs

  /** One entry of `manifest.json`. */
  datatype ManifestEntry = ManifestEntry(
    path: string,
    subject: string,
    grade: string,
    oa: string,
    indicator: string,
    difficulty: Difficulty,
    exerciseType: ExerciseType)

  /** What fetching one document gave: a response that was not ok (the
      entry is skipped), the converted document, or an exception (reading
      or converting rejected), which abandons the whole load. */
  datatype Fetch = NotOk | Fetched(ext: Extraction) | Threw

  const IdPrefix := "demo-"
  const DefaultFilename := "demo-file.docx"

  // ---------------------------------------------------------------------
  // ids and file names

  /** `path.replace(/[^a-zA-Z0-9]/g, '-')` on one character. */
  function IdChar(c: char): (d: char)
    ensures IsAsciiAlnum(d) || d == '-'
    ensures IsAsciiAlnum(c) ==> d == c
    ensures !IsAsciiAlnum(c) ==> d == '-'
  {
    if IsAsciiAlnum(c) then c else '-'
  }

  /** The id of a demo exercise: "demo-" followed by the path with every
      character other than an ASCII letter or digit replaced by '-'. */
  function DemoId(path: string): (id: string)
    ensures |id| == |IdPrefix| + |path| && StartsWith(id, IdPrefix)
    ensures forall k :: 0 <= k < |path| ==> id[|IdPrefix| + k] == IdChar(path[k])
  {
    IdPrefix + seq(|path|, k requires 0 <= k < |path| => IdChar(path[k]))
  }

  /** Two paths get the same id exactly when they have the same length and
      agree at every position up to the replaced characters. */
  lemma DemoIdEqual(p: string, q: string)
    ensures DemoId(p) == DemoId(q) <==>
      |p| == |q| && forall k :: 0 <= k < |p| ==> IdChar(p[k]) == IdChar(q[k])
  {
    if |p| == |q| && forall k :: 0 <= k < |p| ==> IdChar(p[k]) == IdChar(q[k]) {
      assert forall k :: 0 <= k < |DemoId(p)| ==> DemoId(p)[k] == DemoId(q)[k] by {
        forall k | 0 <= k < |DemoId(p)| ensures DemoId(p)[k] == DemoId(q)[k] {
          if k >= |IdPrefix| {
            assert DemoId(p)[k] == IdChar(p[k - |IdPrefix|]);
          }
        }
      }
    }
    if DemoId(p) == DemoId(q) {
      forall k | 0 <= k < |p| ensures IdChar(p[k]) == IdChar(q[k]) {
        assert DemoId(p)[|IdPrefix| + k] == DemoId(q)[|IdPrefix| + k];
      }
    }
  }

  /** An id is "demo-" followed by letters, digits and dashes only. */
  lemma DemoIdCharacters(path: string)
    ensures forall k :: |IdPrefix| <= k < |DemoId(path)| ==> IsAsciiAlnum(DemoId(path)[k]) || DemoId(path)[k] == '-'
  {
    forall k | |IdPrefix| <= k < |DemoId(path)| ensures IsAsciiAlnum(DemoId(path)[k]) || DemoId(path)[k] == '-' {
      assert DemoId(path)[k] == IdChar(path[k - |IdPrefix|]);
    }
  }

  /** Different paths can share an id: a folder separator and a dash look
      the same. */
  lemma DemoIdsCanCollide()
    ensures "a/b.docx" != "a-b.docx" && DemoId("a/b.docx") == DemoId("a-b.docx")
  {
    JoinedAt("a/b.docx", "a", '/', "b.docx");
    JoinedAt("a-b.docx", "a", '-', "b.docx");
    SameIdAcrossSeparator("a", "b.docx");
  }

  lemma JoinedAt(s: string, dir: string, sep: char, name: string)
    requires |s| == |dir| + 1 + |name| && s[..|dir|] == dir && s[|dir|] == sep && s[|dir| + 1..] == name
    ensures s == dir + [sep] + name
  {
    assert s == s[..|dir|] + [s[|dir|]] + s[|dir| + 1..];
  }

  /** A folder separator and a dash at the same place give the same id. */
  lemma SameIdAcrossSeparator(dir: string, name: string)
    ensures dir + "/" + name != dir + "-" + name
    ensures DemoId(dir + "/" + name) == DemoId(dir + "-" + name)
  {
    var p, q := dir + "/" + name, dir + "-" + name;
    assert p[|dir|] == '/' && q[|dir|] == '-';
    forall k | 0 <= k < |p| ensures IdChar(p[k]) == IdChar(q[k]) {
      if k < |dir| {
        assert p[k] == dir[k] == q[k];
      } else if k > |dir| {
        assert p[k] == name[k - |dir| - 1] == q[k];
      }
    }
    DemoIdEqual(p, q);
  }

  /** `path.split('/').pop() || 'demo-file.docx'`. */
  function DemoFilename(path: string): (name: string)
    ensures name != "" && '/' !in name
  {
    var pieces := Split(path, '/');
    var last := pieces[|pieces| - 1];
    if last == "" then DefaultFilename else last
  }

  /** The last piece of a split is the end of the input after the last
      separator (or all of it when there is none). */
  lemma {:induction false} LastPieceIsTail(s: string, sep: char)
    ensures var pieces := Split(s, sep);
            var last := pieces[|pieces| - 1];
            && |last| <= |s| && s[|s| - |last|..] == last
            && (|last| == |s| || s[|s| - |last| - 1] == sep)
            && (|pieces| == 1 ==> last == s)
            && (|pieces| > 1 ==> |last| < |s|)
  {
    if |s| > 0 {
      var t := s[1..];
      LastPieceIsTail(t, sep);
      var rest := Split(t, sep);
      var last := rest[|rest| - 1];
      if s[0] != sep && |rest| == 1 {
        assert Split(s, sep) == [[s[0]] + t];
        assert [s[0]] + t == s;
      } else {
        assert Split(s, sep)[|Split(s, sep)| - 1] == last;
        assert s[|s| - |last|..] == t[|t| - |last|..];
        if |last| < |t| {
          assert s[|s| - |last| - 1] == t[|t| - |last| - 1];
        }
      }
    }
  }

  lemma LastIsMember(s: string)
    ensures |s| > 0 ==> s[|s| - 1] in s
  {
  }

  /** The file name is the part of the path after its last '/', unless that
      part is empty, in which case it is "demo-file.docx". */
  lemma DemoFilenameIsLastSegment(path: string)
    ensures var name := DemoFilename(path);
            name == DefaultFilename ||
              (EndsWith(path, name) && (|name| == |path| || path[|path| - |name| - 1] == '/'))
    ensures |path| == 0 || path[|path| - 1] == '/' ==> DemoFilename(path) == DefaultFilename
  {
    LastPieceIsTail(path, '/');
    var pieces := Split(path, '/');
    var last := pieces[|pieces| - 1];
    if |path| > 0 && path[|path| - 1] == '/' {
      assert EndsWith(path, last);
      LastIsMember(last);
    }
  }

  // ---------------------------------------------------------------------
  // records

  /** The exercise built for one converted entry. */
  function DemoRecord(entry: ManifestEntry, ext: Extraction): (r: Exercise)
    ensures r.id == DemoId(entry.path) && r.filename == DemoFilename(entry.path)
    ensures r.content == ext.text && r.htmlContent == Some(ext.html) && r.fileType == None
    ensures r.subject == entry.subject && r.grade == entry.grade && r.oa == entry.oa
    ensures r.indicator == entry.indicator && r.difficulty == entry.difficulty && r.exerciseType == entry.exerciseType
    ensures r.parsedContent == Some(Parse(ext.text))
    ensures r.tags == [Lower(entry.subject)]
  {
    Exercise(
      DemoId(entry.path), DemoFilename(entry.path), ext.text, Some(ext.html), None,
      Some(Parse(ext.text)),
      entry.subject, entry.grade, entry.oa, entry.indicator, entry.exerciseType, entry.difficulty,
      [Lower(entry.subject)])
  }

  /** A demo record carries the converted text and HTML, the parsed fields
      of that text, the entry's metadata, and a single tag: the lower-cased
      subject. */
  lemma DemoRecordFields(entry: ManifestEntry, ext: Extraction)
    ensures var ex := DemoRecord(entry, ext);
            && ex.id == DemoId(entry.path) && ex.filename == DemoFilename(entry.path)
            && ex.content == ext.text && ex.htmlContent == Some(ext.html) && ex.fileType == None
            && ex.parsedContent == Some(Parse(ext.text))
            && ex.subject == entry.subject && ex.grade == entry.grade && ex.oa == entry.oa
            && ex.indicator == entry.indicator && ex.difficulty == entry.difficulty && ex.exerciseType == entry.exerciseType
            && ex.tags == [Lower(entry.subject)] && Lower(ex.tags[0]) == ex.tags[0]
  {
    LowerIdempotent(entry.subject);
  }

  // ---------------------------------------------------------------------
  // the load

  /** What the loop does with one entry. */
  datatype EntryOutcome = Skipped | Built(ex: Exercise) | Aborted

  function Outcomes(manifest: seq<ManifestEntry>, fetches: seq<Fetch>): (r: seq<EntryOutcome>)
    requires |fetches| == |manifest|
    ensures |r| == |manifest|
    ensures forall k :: 0 <= k < |r| ==> (r[k].Skipped? <==> fetches[k].NotOk?) && (r[k].Aborted? <==> fetches[k].Threw?)
    ensures forall k :: 0 <= k < |r| && fetches[k].Fetched? ==> r[k] == Built(DemoRecord(manifest[k], fetches[k].ext))
  {
    seq(|manifest|, k requires 0 <= k < |manifest| =>
      match fetches[k]
      case NotOk => Skipped
      case Fetched(ext) => Built(DemoRecord(manifest[k], ext))
      case Threw => Aborted)
  }

  /** The `for … of` loop: built records are pushed in order, skipped
      entries left out; `None` when an entry threw. */
  function Collect(outcomes: seq<EntryOutcome>): (r: Option<seq<Exercise>>)
    ensures r.Some? ==> |r.value| == CountBuilt(outcomes)
    ensures r.Some? ==> forall k :: 0 <= k < |outcomes| ==> !outcomes[k].Aborted?
  {
    if |outcomes| == 0 then Some([])
    else
      match outcomes[0]
      case Aborted => None
      case Skipped => Collect(outcomes[1..])
      case Built(ex) =>
        match Collect(outcomes[1..])
        case None => None
        case Some(rest) => Some([ex] + rest)
  }

  /** Number of built outcomes. */
  function CountBuilt(outcomes: seq<EntryOutcome>): (n: nat)
    ensures n <= |outcomes|
  {
    if |outcomes| == 0 then 0 else (if outcomes[0].Built? then 1 else 0) + CountBuilt(outcomes[1..])
  }

  /** The loop gives up exactly when some entry threw; otherwise it returns
      one record per built entry and no other. */
  lemma {:induction false} CollectCorrect(outcomes: seq<EntryOutcome>)
    ensures Collect(outcomes).None? <==> exists k :: 0 <= k < |outcomes| && outcomes[k].Aborted?
    ensures Collect(outcomes).Some? ==>
      && |Collect(outcomes).value| == CountBuilt(outcomes)
      && forall ex :: ex in Collect(outcomes).value <==> Built(ex) in outcomes
  {
    if |outcomes| > 0 {
      CollectCorrect(outcomes[1..]);
      var tail := outcomes[1..];
      assert outcomes == [outcomes[0]] + tail;
      if exists k :: 0 <= k < |tail| && tail[k].Aborted? {
        var k :| 0 <= k < |tail| && tail[k].Aborted?;
        assert outcomes[k + 1].Aborted?;
      }
      if exists k :: 0 <= k < |outcomes| && outcomes[k].Aborted? {
        var k :| 0 <= k < |outcomes| && outcomes[k].Aborted?;
        if k > 0 {
          assert tail[k - 1].Aborted?;
        }
      }
    }
  }

  predicate IsBuilt(o: EntryOutcome) {
    o.Built?
  }

  /** The records as the outcomes that built them. */
  function AsBuilt(exs: seq<Exercise>): (r: seq<EntryOutcome>)
    ensures |r| == |exs| && forall k :: 0 <= k < |exs| ==> r[k] == Built(exs[k])
  {
    seq(|exs|, k requires 0 <= k < |exs| => Built(exs[k]))
  }

  /** When nothing threw, the records are those of the built outcomes, in
      their order and each as often as it was built. */
  lemma {:induction false} CollectKeepsOrder(outcomes: seq<EntryOutcome>)
    requires Collect(outcomes).Some?
    ensures AsBuilt(Collect(outcomes).value) == Filter(outcomes, IsBuilt)
  {
    if |outcomes| > 0 {
      var o := outcomes[0];
      var tail := outcomes[1..];
      FilterStep(outcomes, IsBuilt);
      assert !o.Aborted?;
      assert Collect(tail).Some?;
      CollectKeepsOrder(tail);
      var rest := Collect(tail).value;
      if o.Built? {
        assert Collect(outcomes).value == [o.ex] + rest;
        AsBuiltCons(o.ex, rest);
      } else {
        assert Collect(outcomes) == Collect(tail);
      }
    }
  }

  lemma AsBuiltCons(ex: Exercise, exs: seq<Exercise>)
    ensures AsBuilt([ex] + exs) == [Built(ex)] + AsBuilt(exs)
  {
  }

  /** `loadDemoExercises` */
  function LoadDemoExercises(manifest: Option<seq<ManifestEntry>>, fetches: seq<Fetch>): (r: seq<Exercise>)
    requires manifest.Some? ==> |fetches| == |manifest.value|
    ensures manifest.None? ==> r == []
    ensures manifest.Some? ==> |r| <= |manifest.value|
  {
    match manifest
    case None => []
    case Some(entries) =>
      match Collect(Outcomes(entries, fetches))
      case None => []
      case Some(exs) => exs
  }

  /** The entries whose fetch succeeded, each turned into its record. */
  predicate BuiltAt(manifest: seq<ManifestEntry>, fetches: seq<Fetch>, ex: Exercise)
    requires |fetches| == |manifest|
  {
    exists k :: 0 <= k < |fetches| && fetches[k].Fetched? && ex == DemoRecord(manifest[k], fetches[k].ext)
  }

  /** A record is built by the loop exactly when it is the record of an
      entry whose fetch succeeded. */
  lemma OutcomesBuilt(manifest: seq<ManifestEntry>, fetches: seq<Fetch>, ex: Exercise)
    requires |fetches| == |manifest|
    ensures Built(ex) in Outcomes(manifest, fetches) <==> BuiltAt(manifest, fetches, ex)
  {
    var os := Outcomes(manifest, fetches);
    if Built(ex) in os {
      var k :| 0 <= k < |os| && os[k] == Built(ex);
      assert fetches[k].Fetched?;
    }
    if BuiltAt(manifest, fetches, ex) {
      var k :| 0 <= k < |fetches| && fetches[k].Fetched? && ex == DemoRecord(manifest[k], fetches[k].ext);
      assert os[k] == Built(ex);
    }
  }

  /** Some entry aborts the loop exactly when some fetch threw. */
  lemma OutcomesAborted(manifest: seq<ManifestEntry>, fetches: seq<Fetch>)
    requires |fetches| == |manifest|
    ensures (exists k :: 0 <= k < |Outcomes(manifest, fetches)| && Outcomes(manifest, fetches)[k].Aborted?) <==>
            exists k :: 0 <= k < |fetches| && fetches[k].Threw?
  {
    var os := Outcomes(manifest, fetches);
    if exists k :: 0 <= k < |fetches| && fetches[k].Threw? {
      var k :| 0 <= k < |fetches| && fetches[k].Threw?;
      assert os[k].Aborted?;
    }
  }

  /** Without a manifest, or when any entry threw, the load yields nothing;
      otherwise it yields one record per converted entry, never more records
      than entries. */
  lemma LoadDemoExercisesEffect(manifest: Option<seq<ManifestEntry>>, fetches: seq<Fetch>)
    requires manifest.Some? ==> |fetches| == |manifest.value|
    ensures manifest.None? ==> LoadDemoExercises(manifest, fetches) == []
    ensures manifest.Some? && (exists k :: 0 <= k < |fetches| && fetches[k].Threw?) ==>
      LoadDemoExercises(manifest, fetches) == []
    ensures manifest.Some? && (forall k :: 0 <= k < |fetches| ==> !fetches[k].Threw?) ==>
      && |LoadDemoExercises(manifest, fetches)| <= |manifest.value|
      && (forall ex :: ex in LoadDemoExercises(manifest, fetches) <==> BuiltAt(manifest.value, fetches, ex))
      && AsBuilt(LoadDemoExercises(manifest, fetches)) == Filter(Outcomes(manifest.value, fetches), IsBuilt)
  {
    if manifest.Some? {
      var os := Outcomes(manifest.value, fetches);
      CollectCorrect(os);
      if Collect(os).Some? {
        CollectKeepsOrder(os);
      }
      OutcomesAborted(manifest.value, fetches);
      forall ex ensures Built(ex) in os <==> BuiltAt(manifest.value, fetches, ex) {
        OutcomesBuilt(manifest.value, fetches, ex);
      }
    }
  }
}
