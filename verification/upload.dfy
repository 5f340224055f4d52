/** The batch upload page (pages/Upload.tsx): a queue of files, filled by
    the file picker or by drag and drop, and the batch that turns every
    queued file into an exercise with the same metadata.

    Reading a file and converting a Word document are outside the model:
    for every queued file the caller supplies what the conversion yields,
    or `None` when reading or converting failed, and the id the record
    gets. File contents are not modelled; a queued file is its name. */
module Upload {
  import opened Wrappers
  import opened Text
  import opened Types
  import opened Seqs
  import opened Store
  import opened Parser

  datatype UploadFile = UploadFile(name: string)

  /** What the Word converter yields: the raw text and the HTML. */
  datatype Extraction = Extraction(text: string, html: string)

  /** The metadata form, applied to every file of the batch. */
  datatype Batch = Batch(
    subject: string,
    grade: string,
    oa: string,
    indicator: string,
    difficulty: Difficulty,
    exerciseType: ExerciseType)

  /** The form as the page opens: the first subject and grade of the
      catalogue, "OA 01", "Resolución de Problemas", medium, single choice. */
  const DefaultBatch := Batch("Matemáticas", "1° Básico", "OA 01", "Resolución de Problemas", Media, MultipleChoice)

  const BatchTag := "lote"

  // ---------------------------------------------------------------------
  // the queue

  /** The file picker: the chosen files go to the end of the queue. */
  function Pick(queue: seq<UploadFile>, picked: seq<UploadFile>): (r: seq<UploadFile>)
    ensures |r| == |queue| + |picked|
    ensures r[..|queue|] == queue && r[|queue|..] == picked
  {
    queue + picked
  }

  /** A dropped file is kept when its lower-cased name ends in ".docx" or
      ".pdf". */
  predicate Acceptable(name: string)
    ensures Acceptable(name) ==> |name| >= 4
  {
    EndsWith(Lower(name), ".docx") || EndsWith(Lower(name), ".pdf")
  }

  /** A name with a lower-case `.docx` or `.pdf` extension is accepted. */
  lemma LowerCaseNamesAcceptable(name: string)
    requires EndsWith(name, ".docx") || EndsWith(name, ".pdf")
    ensures Acceptable(name)
  {
    FixedAgreesOnLowerCaseNames(name);
  }

  datatype DropOutcome = DropOutcome(queue: seq<UploadFile>, alert: bool)

  /** Dropping files: the acceptable ones are appended in order; when some
      files were dropped but none is acceptable the queue stays and the
      page shows an alert. */
  function Drop(queue: seq<UploadFile>, dropped: seq<UploadFile>): (r: DropOutcome)
    ensures |dropped| == 0 ==> r == DropOutcome(queue, false)
    ensures r.alert <==> |dropped| > 0 && forall k :: 0 <= k < |dropped| ==> !Acceptable(dropped[k].name)
    ensures |queue| <= |r.queue| <= |queue| + |dropped|
    ensures r.queue[..|queue|] == queue
    ensures forall f :: f in r.queue[|queue|..] <==> f in dropped && Acceptable(f.name)
    ensures IsSubsequence(r.queue[|queue|..], dropped)
  {
    var valid := Filter(dropped, (f: UploadFile) => Acceptable(f.name));
    if |dropped| == 0 then DropOutcome(queue, false)
    else if |valid| > 0 then
      assert (queue + valid)[|queue|..] == valid;
      DropOutcome(queue + valid, false)
    else
      assert forall k :: 0 <= k < |dropped| ==> dropped[k] in dropped;
      DropOutcome(queue, true)
  }

  /** The remove button of row `index`: that row goes, the others keep
      their order; an index outside the queue removes nothing. */
  function RemoveFile(queue: seq<UploadFile>, index: int): (r: seq<UploadFile>)
    ensures 0 <= index < |queue| ==> |r| == |queue| - 1
    ensures 0 <= index < |queue| ==> forall k :: 0 <= k < |r| ==> r[k] == queue[if k < index then k else k + 1]
    ensures !(0 <= index < |queue|) ==> r == queue
  {
    if 0 <= index < |queue| then queue[..index] + queue[index + 1..] else queue
  }

  /** Removing the last picked file undoes the pick. */
  lemma RemoveUndoesPick(queue: seq<UploadFile>, f: UploadFile)
    ensures RemoveFile(Pick(queue, [f]), |queue|) == queue
  {
    assert Pick(queue, [f])[..|queue|] == queue;
  }

  // ---------------------------------------------------------------------
  // one record

  /** The placeholder text of a file that is not read as a Word document. */
  function Placeholder(name: string): string {
    "Documento PDF: " + name
  }

  /** Whether a file is converted as a Word document. As written the test
      is case-sensitive (`name.endsWith('.docx')`); `fixed` compares the
      lower-cased name, as the drop filter does. */
  predicate ReadsAsDocx(name: string, fixed: bool) {
    if fixed then EndsWith(Lower(name), ".docx") else EndsWith(name, ".docx")
  }

  /** Whether the record is marked as a PDF, with the same two readings. */
  predicate MarkedPdf(name: string, fixed: bool) {
    if fixed then EndsWith(Lower(name), ".pdf") else EndsWith(name, ".pdf")
  }

  /** The exercise built for one file of the batch. */
  function BuildRecord(name: string, ext: Extraction, id: string, batch: Batch, fixed: bool): (r: Exercise)
    ensures r.id == id && r.filename == name && r.tags == [BatchTag]
    ensures r.subject == batch.subject && r.grade == batch.grade && r.oa == batch.oa
    ensures r.indicator == batch.indicator && r.difficulty == batch.difficulty && r.exerciseType == batch.exerciseType
    ensures r.htmlContent.Some? && (r.htmlContent.value != "" ==> ReadsAsDocx(name, fixed))
  {
    var docx := ReadsAsDocx(name, fixed);
    var content := if docx then ext.text else Placeholder(name);
    Exercise(
      id, name, content,
      Some(if docx then ext.html else ""),
      Some(if MarkedPdf(name, fixed) then Pdf else Docx),
      Some(Parse(content)),
      batch.subject, batch.grade, batch.oa, batch.indicator, batch.exerciseType, batch.difficulty,
      [BatchTag])
  }

  /** A record carries the file's name, the given id, the batch tag and the
      batch metadata; a Word document carries the converted text and HTML,
      anything else the placeholder and no HTML; the parsed fields are those
      of the stored text. */
  lemma BuildRecordFields(name: string, ext: Extraction, id: string, batch: Batch, fixed: bool)
    ensures var ex := BuildRecord(name, ext, id, batch, fixed);
            && ex.id == id && ex.filename == name && ex.tags == [BatchTag]
            && (ReadsAsDocx(name, fixed) ==> ex.content == ext.text && ex.htmlContent == Some(ext.html))
            && (!ReadsAsDocx(name, fixed) ==> ex.content == Placeholder(name) && ex.htmlContent == Some(""))
            && ex.fileType == Some(if MarkedPdf(name, fixed) then Pdf else Docx)
            && ex.parsedContent == Some(Parse(ex.content))
            && ex.subject == batch.subject && ex.grade == batch.grade && ex.oa == batch.oa
            && ex.indicator == batch.indicator && ex.difficulty == batch.difficulty && ex.exerciseType == batch.exerciseType
  {
  }

  lemma LowerSuffix(name: string, suffix: string)
    requires |suffix| <= |name|
    ensures Lower(name)[|name| - |suffix|..] == Lower(name[|name| - |suffix|..])
  {
  }

  /** With the lower-cased tests, every file the drop filter accepts is
      either converted as a Word document or marked as a PDF, never both
      and never neither. */
  lemma FixedClassifiesAcceptable(name: string)
    requires Acceptable(name)
    ensures ReadsAsDocx(name, true) <==> !MarkedPdf(name, true)
  {
    var l := Lower(name);
    assert EndsWith(l, ".docx") ==> l[|l| - 1] == 'x';
    assert EndsWith(l, ".pdf") ==> l[|l| - 1] == 'f';
  }

  /** On names whose extension is already lower case the two readings
      agree, so the correction changes nothing for them. */
  lemma FixedAgreesOnLowerCaseNames(name: string)
    requires EndsWith(name, ".docx") || EndsWith(name, ".pdf")
    ensures ReadsAsDocx(name, true) == ReadsAsDocx(name, false)
    ensures MarkedPdf(name, true) == MarkedPdf(name, false)
  {
    if EndsWith(name, ".docx") {
      LowerSuffix(name, ".docx");
      assert Lower(".docx") == ".docx";
      if |name| >= 4 {
        assert name[|name| - 1] == 'x';
        assert Lower(name)[|name| - 1] == 'x';
      }
    } else {
      LowerSuffix(name, ".pdf");
      assert Lower(".pdf") == ".pdf";
      assert name[|name| - 1] == 'f';
      assert Lower(name)[|name| - 1] == 'f';
    }
  }

  lemma InformeClassified()
    ensures Acceptable("informe.PDF")
    ensures !ReadsAsDocx("informe.PDF", false) && !MarkedPdf("informe.PDF", false)
    ensures MarkedPdf("informe.PDF", true)
  {
    var name := "informe.PDF";
    LowerSuffix(name, ".pdf");
    assert name[7..] == ".PDF";
    assert Lower(".PDF") == ".pdf";
    assert name[6..] != ".docx";
  }

  lemma GuiaClassified()
    ensures Acceptable("guia.DOCX")
    ensures !ReadsAsDocx("guia.DOCX", false)
    ensures ReadsAsDocx("guia.DOCX", true) && !MarkedPdf("guia.DOCX", true)
  {
    var name := "guia.DOCX";
    LowerSuffix(name, ".docx");
    assert name[4..] == ".DOCX";
    assert Lower(".DOCX") == ".docx";
    assert Lower(name)[|name| - 1] == 'x';
  }

  /** As written, a dropped "informe.PDF" is accepted, is not converted,
      and is recorded as a Word document whose text says it is a PDF; a
      dropped "guia.DOCX" is accepted and never converted. */
  lemma UpperCaseExtensionsMisread(ext: Extraction, id: string, batch: Batch)
    ensures Acceptable("informe.PDF") && Acceptable("guia.DOCX")
    ensures BuildRecord("informe.PDF", ext, id, batch, false).fileType == Some(Docx)
    ensures BuildRecord("informe.PDF", ext, id, batch, false).content == Placeholder("informe.PDF")
    ensures BuildRecord("guia.DOCX", ext, id, batch, false).content == Placeholder("guia.DOCX")
  {
    InformeClassified();
    GuiaClassified();
    BuildRecordFields("informe.PDF", ext, id, batch, false);
    BuildRecordFields("guia.DOCX", ext, id, batch, false);
  }

  /** With the lower-cased tests both files are handled by their kind. */
  lemma UpperCaseExtensionsFixed(ext: Extraction, id: string, batch: Batch)
    ensures BuildRecord("informe.PDF", ext, id, batch, true).fileType == Some(Pdf)
    ensures BuildRecord("guia.DOCX", ext, id, batch, true).content == ext.text
    ensures BuildRecord("guia.DOCX", ext, id, batch, true).fileType == Some(Docx)
  {
    InformeClassified();
    GuiaClassified();
    BuildRecordFields("informe.PDF", ext, id, batch, true);
    BuildRecordFields("guia.DOCX", ext, id, batch, true);
  }

  // ---------------------------------------------------------------------
  // the batch

  /** What each queued file yields: its record, or `None` when reading or
      converting it failed. */
  function Outcomes(files: seq<UploadFile>, results: seq<Option<Extraction>>, ids: seq<string>,
                    batch: Batch, fixed: bool): (r: seq<Option<Exercise>>)
    requires |files| == |results| == |ids|
    ensures |r| == |files|
    ensures forall k :: 0 <= k < |r| ==> (r[k].Some? <==> results[k].Some?)
    ensures forall k :: 0 <= k < |r| && results[k].Some? ==>
      r[k] == Some(BuildRecord(files[k].name, results[k].value, ids[k], batch, fixed))
  {
    seq(|files|, k requires 0 <= k < |files| =>
      if results[k].Some? then Some(BuildRecord(files[k].name, results[k].value, ids[k], batch, fixed)) else None)
  }

  /** The number of outcomes, from the front, that are records: the loop
      stops at the first failure. */
  function SucceededPrefix(outcomes: seq<Option<Exercise>>): (n: nat)
    ensures n <= |outcomes|
    ensures forall k :: 0 <= k < n ==> outcomes[k].Some?
    ensures n < |outcomes| ==> outcomes[n].None?
  {
    if |outcomes| == 0 || outcomes[0].None? then 0 else 1 + SucceededPrefix(outcomes[1..])
  }

  /** The `for … of` loop: each record in turn is added to the store, until
      a file fails; the flag says whether all of them were added. */
  function AddAll(st: AppState, outcomes: seq<Option<Exercise>>): (r: (AppState, bool))
    ensures r.1 <==> SucceededPrefix(outcomes) == |outcomes|
    ensures |r.0.exercises| == |st.exercises| + SucceededPrefix(outcomes)
    ensures r.0.selectedIds == st.selectedIds && r.0.settings == st.settings
    decreases |outcomes|
  {
    if |outcomes| == 0 then (st, true)
    else match outcomes[0]
      case None => (st, false)
      case Some(ex) => AddAll(AddExercise(st, ex), outcomes[1..])
  }

  datatype BatchOutcome = BatchOutcome(state: AppState, queue: seq<UploadFile>, success: bool)

  /** `processBatch` on what the files yielded: nothing happens on an
      empty queue; otherwise the records are added one by one; the queue is
      emptied and success shown only when every file went through. */
  function RunBatch(st: AppState, queue: seq<UploadFile>, outcomes: seq<Option<Exercise>>): (r: BatchOutcome)
    ensures |queue| == 0 ==> r == BatchOutcome(st, queue, false)
    ensures r.success ==> r.queue == [] && |queue| > 0
    ensures !r.success ==> r.queue == queue
    ensures r.state.selectedIds == st.selectedIds && r.state.settings == st.settings
  {
    if |queue| == 0 then BatchOutcome(st, queue, false)
    else
      var (st2, ok) := AddAll(st, outcomes);
      BatchOutcome(st2, if ok then [] else queue, ok)
  }

  /** `processBatch` */
  function ProcessBatch(st: AppState, queue: seq<UploadFile>, results: seq<Option<Extraction>>, ids: seq<string>,
                        batch: Batch, fixed: bool): (r: BatchOutcome)
    requires |queue| == |results| == |ids|
    ensures r.success <==> |queue| > 0 && forall k :: 0 <= k < |results| ==> results[k].Some?
    ensures r.success ==> |r.state.exercises| == |st.exercises| + |queue| && r.queue == []
    ensures !r.success ==> r.queue == queue
  {
    RunBatch(st, queue, Outcomes(queue, results, ids, batch, fixed))
  }

  /** The records before the first failure, newest first: the order in
      which they end up at the front of the store. */
  function Added(outcomes: seq<Option<Exercise>>): (r: seq<Exercise>)
    ensures |r| == SucceededPrefix(outcomes)
  {
    if |outcomes| == 0 || outcomes[0].None? then [] else Added(outcomes[1..]) + [outcomes[0].value]
  }

  /** Entry `k` of `Added` is the record of the `k`-th file counted back
      from the last one added. */
  lemma {:induction false} AddedAt(outcomes: seq<Option<Exercise>>, k: nat)
    requires k < |Added(outcomes)|
    ensures Some(Added(outcomes)[k]) == outcomes[|Added(outcomes)| - 1 - k]
  {
    var t := Added(outcomes[1..]);
    if k < |t| {
      AddedAt(outcomes[1..], k);
      assert Added(outcomes)[k] == t[k];
    }
  }

  /** The loop adds exactly the records before the first failure, each at
      the front, so the store lists them newest first ahead of what was
      there; the selection and the settings are untouched. */
  lemma {:induction false} AddAllEffect(st: AppState, outcomes: seq<Option<Exercise>>)
    ensures AddAll(st, outcomes).1 <==> SucceededPrefix(outcomes) == |outcomes|
    ensures AddAll(st, outcomes).0.exercises == Added(outcomes) + st.exercises
    ensures AddAll(st, outcomes).0.selectedIds == st.selectedIds && AddAll(st, outcomes).0.settings == st.settings
    decreases |outcomes|
  {
    if |outcomes| > 0 && outcomes[0].Some? {
      var ex := outcomes[0].value;
      var st1 := AddExercise(st, ex);
      assert AddAll(st, outcomes) == AddAll(st1, outcomes[1..]);
      AddAllEffect(st1, outcomes[1..]);
      assert Added(outcomes) == Added(outcomes[1..]) + [ex];
      PushFront(Added(outcomes[1..]), ex, st.exercises, st1.exercises, AddAll(st1, outcomes[1..]).0.exercises);
    }
  }

  lemma PushFront(later: seq<Exercise>, ex: Exercise, before: seq<Exercise>, after: seq<Exercise>, result: seq<Exercise>)
    requires after == [ex] + before && result == later + after
    ensures result == (later + [ex]) + before
  {
  }

  /** The whole batch: on success the record of every queued file is in
      the store, newest first, and the queue is empty; on a failure the
      records before it stay added and the queue is kept as it was. */
  lemma RunBatchEffect(st: AppState, queue: seq<UploadFile>, outcomes: seq<Option<Exercise>>)
    requires |queue| == |outcomes| > 0
    ensures var n := SucceededPrefix(outcomes);
            var out := RunBatch(st, queue, outcomes);
            && (out.success <==> n == |queue|)
            && out.queue == (if n == |queue| then [] else queue)
            && |out.state.exercises| == n + |st.exercises|
            && (forall k :: 0 <= k < n ==> Some(out.state.exercises[k]) == outcomes[n - 1 - k])
            && out.state.exercises[n..] == st.exercises
            && out.state.selectedIds == st.selectedIds && out.state.settings == st.settings
  {
    AddAllEffect(st, outcomes);
    var a := Added(outcomes);
    assert (a + st.exercises)[|a|..] == st.exercises;
    forall k | 0 <= k < |a| ensures Some((a + st.exercises)[k]) == outcomes[|a| - 1 - k] {
      AddedAt(outcomes, k);
    }
  }

  /** An empty queue does nothing. */
  lemma EmptyBatchIsNoOp(st: AppState, batch: Batch, fixed: bool)
    ensures ProcessBatch(st, [], [], [], batch, fixed) == BatchOutcome(st, [], false)
  {
  }
}
