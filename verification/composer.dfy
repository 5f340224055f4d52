/** The body of `generateDocx` (pages/Generator.tsx) as a builder of an
    abstract document: a header, then a sequence of blocks. The docx
    library, the DOM parser and the base64 image decoder are outside the
    model: the parser is a function from HTML to its top-level nodes, and
    the decoder a function that may fail (`None`, where the source throws
    and skips the image). */
module Composer {
  import opened Wrappers
  import opened Text
  import opened Types
  import opened Generator
  import opened Seqs

  // ---------------------------------------------------------------------
  // documents

  datatype Align = Start | Centre

  datatype Run =
    | TextRun(text: string)
    | ImageRun(data: seq<bv8>, width: nat, height: nat)

  datatype Block =
    | Title(text: string)
    | Para(text: string, bold: bool, align: Align, spaceAfter: nat)
    | Label(text: string)
    | Runs(runs: seq<Run>, align: Align)
    | PageBreak
    | Heading(text: string)
    | Table(header: seq<string>, rows: seq<seq<string>>)

  datatype Document = Document(header: Option<seq<Block>>, body: seq<Block>)

  /** A top-level node of the parsed HTML: a `<p>` element with its text
      content and the `src` of every image inside it, a bare text node, or
      any other node. */
  datatype HtmlNode =
    | PNode(text: string, imageSrcs: seq<string>)
    | TextNode(text: string)
    | OtherNode

  const LogoSize: nat := 50
  const ImageWidth: nat := 400
  const ImageHeight: nat := 300
  const NameLine := "Nombre: ________________________________________  Fecha: ______________"
  const SpecTableTitle := "TABLA DE ESPECIFICACIONES"
  const SpecTableHeader := ["N°", "Habilidad", "Respuesta"]

  /** The empty paragraph closing every question. */
  const Spacer := Para("", false, Start, 200)

  /** The text a block shows, for the checks on hidden answers. */
  function BlockText(b: Block): string {
    match b
    case Title(t) => t
    case Para(t, _, _, _) => t
    case Label(t) => t
    case Runs(runs, _) => RunsText(runs)
    case PageBreak => ""
    case Heading(t) => t
    case Table(_, _) => ""
  }

  function RunsText(runs: seq<Run>): string {
    if |runs| == 0 then ""
    else (if runs[0].TextRun? then runs[0].text else "") + RunsText(runs[1..])
  }

  /** A block that can come out of an exercise's content: a paragraph
      spaced as the rich-text (0) or plain-text (50) paths space them, or a
      paragraph of runs. */
  predicate IsContentBlock(b: Block) {
    (b.Para? && (b.spaceAfter == 0 || b.spaceAfter == 50)) || b.Runs?
  }

  // ---------------------------------------------------------------------
  // header

  /** The page header: the logo (when it decodes) and the school name in
      capitals; no header at all when neither is there. */
  function Header(settings: GlobalSettings, decode: string -> Option<seq<bv8>>): (r: Option<seq<Block>>)
    ensures r.Some? ==> |r.value| > 0
    ensures r.Some? <==>
      (settings.logoBase64.Some? && settings.logoBase64.value != "" && decode(settings.logoBase64.value).Some?)
      || settings.schoolName != ""
    ensures r.Some? && settings.schoolName != "" ==>
      r.value[|r.value| - 1] == Para(Upper(settings.schoolName), true, Centre, 200)
  {
    var logo :=
      if settings.logoBase64.Some? && settings.logoBase64.value != "" then
        match decode(settings.logoBase64.value)
        case Some(data) => [Runs([ImageRun(data, LogoSize, LogoSize)], Start)]
        case None => []
      else [];
    var name := if settings.schoolName != "" then [Para(Upper(settings.schoolName), true, Centre, 200)] else [];
    var children := logo + name;
    if |children| > 0 then Some(children) else None
  }

  // ---------------------------------------------------------------------
  // HTML path

  /** The markers that hide a paragraph from the student copy. */
  predicate ShowsAnswer(text: string) {
    Contains(text, "Respuesta:") || Contains(text, "Habilidad:") || Contains(text, "Solución:")
  }

  function NodeText(node: HtmlNode): string {
    match node
    case PNode(t, _) => t
    case TextNode(t) => t
    case OtherNode => ""
  }

  /** The image runs of a paragraph: sources that are `data:image` URLs and
      decode; the others are left out. */
  function ImageRuns(srcs: seq<string>, decode: string -> Option<seq<bv8>>): (r: seq<Run>)
    ensures |r| <= |srcs|
    ensures forall k :: 0 <= k < |r| ==> r[k].ImageRun? && r[k].width == ImageWidth && r[k].height == ImageHeight
    ensures forall d :: ImageRun(d, ImageWidth, ImageHeight) in r <==>
      exists k :: 0 <= k < |srcs| && Embeddable(srcs[k], decode) && decode(srcs[k]).value == d
  {
    if |srcs| == 0 then []
    else
      var here :=
        if StartsWith(srcs[0], "data:image") then
          match decode(srcs[0])
          case Some(data) => [ImageRun(data, ImageWidth, ImageHeight)]
          case None => []
        else [];
      var rest := ImageRuns(srcs[1..], decode);
      assert forall k :: 1 <= k < |srcs| ==> srcs[k] == srcs[1..][k - 1];
      assert forall k :: 0 <= k < |srcs[1..]| ==> srcs[1..][k] == srcs[k + 1];
      here + rest
  }

  /** A source the paragraph can show: a `data:image` URL that decodes. */
  predicate Embeddable(src: string, decode: string -> Option<seq<bv8>>) {
    StartsWith(src, "data:image") && decode(src).Some?
  }

  /** `runs` are the images of `srcs`, one for one and in order, each
      decoded and sized 400 by 300. */
  predicate DecodedInOrder(runs: seq<Run>, srcs: seq<string>, decode: string -> Option<seq<bv8>>) {
    |runs| == |srcs|
    && forall k :: 0 <= k < |runs| ==>
         decode(srcs[k]).Some? && runs[k] == ImageRun(decode(srcs[k]).value, ImageWidth, ImageHeight)
  }

  /** The image runs are exactly the embeddable sources, decoded, in their
      order in the paragraph. */
  lemma {:induction false} ImageRunsInOrder(srcs: seq<string>, decode: string -> Option<seq<bv8>>)
    ensures DecodedInOrder(ImageRuns(srcs, decode), Filter(srcs, (src: string) => Embeddable(src, decode)), decode)
  {
    var p := (src: string) => Embeddable(src, decode);
    if |srcs| > 0 {
      ImageRunsInOrder(srcs[1..], decode);
      FilterStep(srcs, p);
      var tail := ImageRuns(srcs[1..], decode);
      if p(srcs[0]) {
        var run := ImageRun(decode(srcs[0]).value, ImageWidth, ImageHeight);
        assert ImageRuns(srcs, decode) == [run] + tail;
        DecodedInOrderCons(run, tail, srcs[0], Filter(srcs[1..], p), decode);
      } else {
        assert ImageRuns(srcs, decode) == tail;
      }
    }
  }

  lemma DecodedInOrderCons(run: Run, runs: seq<Run>, src: string, srcs: seq<string>,
                           decode: string -> Option<seq<bv8>>)
    requires DecodedInOrder(runs, srcs, decode)
    requires decode(src).Some? && run == ImageRun(decode(src).value, ImageWidth, ImageHeight)
    ensures DecodedInOrder([run] + runs, [src] + srcs, decode)
  {
    forall k | 1 <= k < |runs| + 1
      ensures decode(([src] + srcs)[k]).Some?
              && ([run] + runs)[k] == ImageRun(decode(([src] + srcs)[k]).value, ImageWidth, ImageHeight)
    {
      assert ([run] + runs)[k] == runs[k - 1] && ([src] + srcs)[k] == srcs[k - 1];
    }
  }

  /** The paragraphs one top-level node contributes. */
  function NodeBlocks(node: HtmlNode, variant: Variant, decode: string -> Option<seq<bv8>>): (r: seq<Block>)
    ensures |r| <= 1
    ensures r == [] <==> node.OtherNode? || (variant == Student && ShowsAnswer(NodeText(node)))
    ensures forall k :: 0 <= k < |r| ==> IsContentBlock(r[k])
  {
    match node
    case OtherNode => []
    case TextNode(t) =>
      if variant == Student && ShowsAnswer(t) then [] else [Para(t, false, Start, 0)]
    case PNode(t, srcs) =>
      if variant == Student && ShowsAnswer(t) then []
      else if |srcs| > 0 then
        var lead := if Trim(t) != "" then [TextRun(t)] else [];
        [Runs(lead + ImageRuns(srcs, decode), Start)]
      else [Para(t, false, Start, 0)]
  }

  /** A kept node shows its own text, or nothing (an image paragraph whose
      text is blank). */
  lemma NodeBlockText(node: HtmlNode, variant: Variant, decode: string -> Option<seq<bv8>>)
    ensures forall k :: 0 <= k < |NodeBlocks(node, variant, decode)| ==>
      BlockText(NodeBlocks(node, variant, decode)[k]) in {NodeText(node), ""}
  {
    if node.PNode? && |node.imageSrcs| > 0 && !(variant == Student && ShowsAnswer(node.text)) {
      var lead := if Trim(node.text) != "" then [TextRun(node.text)] else [];
      var images := ImageRuns(node.imageSrcs, decode);
      ImageRunsHaveNoText(images);
      RunsTextAppend(lead, images);
      assert RunsText(lead) == (if Trim(node.text) != "" then node.text else "");
    }
  }

  lemma ImageRunsHaveNoText(runs: seq<Run>)
    requires forall k :: 0 <= k < |runs| ==> runs[k].ImageRun?
    ensures RunsText(runs) == ""
  {
  }

  lemma {:induction false} RunsTextAppend(a: seq<Run>, b: seq<Run>)
    ensures RunsText(a + b) == RunsText(a) + RunsText(b)
  {
    if |a| > 0 {
      assert (a + b)[0] == a[0];
      assert (a + b)[1..] == a[1..] + b;
      RunsTextAppend(a[1..], b);
    } else {
      assert a + b == b;
    }
  }

  /** The paragraphs of an exercise with rich text, node by node. */
  function HtmlBlocks(nodes: seq<HtmlNode>, variant: Variant, decode: string -> Option<seq<bv8>>): (r: seq<Block>)
    ensures |r| <= |nodes|
    ensures forall k :: 0 <= k < |r| ==> IsContentBlock(r[k])
  {
    if |nodes| == 0 then []
    else NodeBlocks(nodes[0], variant, decode) + HtmlBlocks(nodes[1..], variant, decode)
  }

  /** Number of `<p>` and text nodes. */
  function TextualNodes(nodes: seq<HtmlNode>): nat {
    if |nodes| == 0 then 0 else (if nodes[0].OtherNode? then 0 else 1) + TextualNodes(nodes[1..])
  }

  /** The teacher copy keeps one paragraph per `<p>` or text node. */
  lemma {:induction false} TeacherKeepsEveryNode(nodes: seq<HtmlNode>, decode: string -> Option<seq<bv8>>)
    ensures |HtmlBlocks(nodes, Teacher, decode)| == TextualNodes(nodes)
  {
    if |nodes| > 0 {
      TeacherKeepsEveryNode(nodes[1..], decode);
    }
  }

  /** No block shows an answer marker. */
  predicate HidesAnswers(blocks: seq<Block>) {
    forall k :: 0 <= k < |blocks| ==> !ShowsAnswer(BlockText(blocks[k]))
  }

  lemma HidesAnswersAppend(a: seq<Block>, b: seq<Block>)
    requires HidesAnswers(a) && HidesAnswers(b)
    ensures HidesAnswers(a + b)
  {
    forall k | 0 <= k < |a + b| ensures !ShowsAnswer(BlockText((a + b)[k])) {
      if k >= |a| {
        assert (a + b)[k] == b[k - |a|];
      } else {
        assert (a + b)[k] == a[k];
      }
    }
  }

  lemma NodeHidesAnswers(node: HtmlNode, decode: string -> Option<seq<bv8>>)
    ensures HidesAnswers(NodeBlocks(node, Student, decode))
  {
    NodeBlockText(node, Student, decode);
    NothingInEmpty("Respuesta:");
    NothingInEmpty("Habilidad:");
    NothingInEmpty("Solución:");
  }

  /** No paragraph of the student copy shows an answer marker. */
  lemma {:induction false} StudentHidesAnswers(nodes: seq<HtmlNode>, decode: string -> Option<seq<bv8>>)
    ensures HidesAnswers(HtmlBlocks(nodes, Student, decode))
  {
    if |nodes| > 0 {
      StudentHidesAnswers(nodes[1..], decode);
      NodeHidesAnswers(nodes[0], decode);
      HidesAnswersAppend(NodeBlocks(nodes[0], Student, decode), HtmlBlocks(nodes[1..], Student, decode));
    }
  }

  lemma NothingInEmpty(pat: string)
    requires |pat| > 0
    ensures !Contains("", pat)
  {
  }

  /** Which nodes the student copy drops: exactly those whose text shows a
      marker (and the non-textual ones, which no copy keeps). */
  lemma StudentDropsExactly(node: HtmlNode, decode: string -> Option<seq<bv8>>)
    requires !node.OtherNode?
    ensures NodeBlocks(node, Student, decode) == [] <==> ShowsAnswer(NodeText(node))
    ensures |NodeBlocks(node, Teacher, decode)| == 1
  {
  }

  // ---------------------------------------------------------------------
  // plain-text path

  /** The text the plain path prints: the student copy prefers the
      extracted student text when it is not empty. A parsed student text is
      trimmed and no longer than its source (`Parser.Parse`), so the
      student copy never prints more than the raw text. */
  function PlainSource(ex: Exercise, variant: Variant): (r: string)
    ensures variant == Teacher ==> r == ex.content
    ensures variant == Student && ex.parsedContent.Some? && ex.parsedContent.value.studentContent != "" ==>
              r == ex.parsedContent.value.studentContent
    ensures variant == Student && (ex.parsedContent.None? || ex.parsedContent.value.studentContent == "") ==>
              r == ex.content
    ensures var p := ex.parsedContent;
            p.Some? && IsTrimmed(p.value.studentContent) && |p.value.studentContent| <= |ex.content| ==>
              |r| <= |ex.content| && (r == ex.content || IsTrimmed(r))
  {
    if variant == Student && ex.parsedContent.Some? && ex.parsedContent.value.studentContent != "" then
      ex.parsedContent.value.studentContent
    else ex.content
  }

  /** `!line.trim()`: nothing but whitespace. */
  predicate Blank(line: string) {
    forall k :: 0 <= k < |line| ==> IsWhitespace(line[k])
  }

  lemma BlankIsTrimEmpty(line: string)
    ensures Blank(line) <==> Trim(line) == ""
  {
    var t := Trim(line);
    var i := LeadingWhitespace(line);
    assert |t| > 0 ==> t[0] == line[i];
  }

  /** One paragraph per non-blank line, the line kept as it is. */
  function LineParas(lines: seq<string>): (r: seq<Block>)
    ensures |r| <= |lines|
    ensures forall k :: 0 <= k < |r| ==> r[k].Para? && r[k] == Para(r[k].text, false, Start, 50)
    ensures forall k :: 0 <= k < |r| ==> r[k].text in lines && !Blank(r[k].text)
  {
    if |lines| == 0 then []
    else
      var rest := LineParas(lines[1..]);
      if Blank(lines[0]) then rest else [Para(lines[0], false, Start, 50)] + rest
  }

  function PlainBlocks(text: string): (r: seq<Block>)
    ensures forall k :: 0 <= k < |r| ==> IsContentBlock(r[k]) && '\n' !in BlockText(r[k])
  {
    var lines := Split(text, '\n');
    var r := LineParas(lines);
    assert forall k :: 0 <= k < |r| ==> '\n' !in BlockText(r[k]) by {
      forall k | 0 <= k < |r| ensures '\n' !in BlockText(r[k]) {
        var j :| 0 <= j < |lines| && lines[j] == r[k].text;
      }
    }
    r
  }

  function Texts(blocks: seq<Block>): (r: seq<string>)
    ensures |r| == |blocks|
    ensures forall k :: 0 <= k < |blocks| ==> r[k] == BlockText(blocks[k])
  {
    seq(|blocks|, k requires 0 <= k < |blocks| => BlockText(blocks[k]))
  }

  /** Without blank lines nothing is lost: joining the paragraphs with line
      breaks gives back the text. */
  lemma PlainKeepsText(text: string)
    requires forall k :: 0 <= k < |Split(text, '\n')| ==> !Blank(Split(text, '\n')[k])
    ensures Join(Texts(PlainBlocks(text)), '\n') == text
  {
    var lines := Split(text, '\n');
    LineParasAllKept(lines);
    JoinSplit(text, '\n');
  }

  lemma {:induction false} LineParasAllKept(lines: seq<string>)
    requires forall k :: 0 <= k < |lines| ==> !Blank(lines[k])
    ensures Texts(LineParas(lines)) == lines
  {
    if |lines| > 0 {
      LineParasAllKept(lines[1..]);
      var rest := LineParas(lines[1..]);
      var b := Para(lines[0], false, Start, 50);
      assert LineParas(lines) == [b] + rest;
      TextsCons(b, rest);
    }
  }

  predicate NonBlank(line: string) {
    !Blank(line)
  }

  /** The paragraphs show exactly the non-blank lines, in order, each as
      often as it occurs. */
  lemma {:induction false} LineParasKeepsNonBlank(lines: seq<string>)
    ensures Texts(LineParas(lines)) == Filter(lines, NonBlank)
  {
    if |lines| > 0 {
      LineParasKeepsNonBlank(lines[1..]);
      FilterStep(lines, NonBlank);
      var rest := LineParas(lines[1..]);
      if NonBlank(lines[0]) {
        var b := Para(lines[0], false, Start, 50);
        assert LineParas(lines) == [b] + rest;
        TextsCons(b, rest);
      } else {
        assert LineParas(lines) == rest;
      }
    }
  }

  lemma TextsCons(b: Block, rest: seq<Block>)
    ensures Texts([b] + rest) == [BlockText(b)] + Texts(rest)
  {
  }

  /** Blank lines print nothing. */
  lemma BlankLinesVanish(lines: seq<string>)
    requires forall k :: 0 <= k < |lines| ==> Blank(lines[k])
    ensures LineParas(lines) == []
  {
  }

  /** Without rich text the student copy filters nothing: it prints every
      non-blank line of its source text, marker lines included. */
  lemma PlainPathKeepsEveryLine(ex: Exercise, parseHtml: string -> seq<HtmlNode>, decode: string -> Option<seq<bv8>>)
    requires ex.htmlContent.None? || ex.htmlContent.value == ""
    ensures Texts(ContentBlocks(ex, Student, parseHtml, decode))
         == Filter(Split(PlainSource(ex, Student), '\n'), NonBlank)
  {
    LineParasKeepsNonBlank(Split(PlainSource(ex, Student), '\n'));
  }

  /** When the parse leaves no student text (an exercise that is only an
      answer line), the student copy is the teacher copy. */
  lemma EmptyStudentTextShowsEverything(ex: Exercise, parseHtml: string -> seq<HtmlNode>,
                                        decode: string -> Option<seq<bv8>>)
    requires ex.htmlContent.None? || ex.htmlContent.value == ""
    requires ex.parsedContent.None? || ex.parsedContent.value.studentContent == ""
    ensures ContentBlocks(ex, Student, parseHtml, decode) == ContentBlocks(ex, Teacher, parseHtml, decode)
  {
  }

  /** An exercise whose text is the single line `Respuesta: A` and whose
      parse leaves no student text prints that line, marker and all, in
      the student copy. */
  lemma AnswerLineReachesStudentCopy(ex: Exercise, parseHtml: string -> seq<HtmlNode>,
                                     decode: string -> Option<seq<bv8>>)
    requires ex.content == "Respuesta: A"
    requires ex.htmlContent.None?
    requires ex.parsedContent.Some? && ex.parsedContent.value.studentContent == ""
    ensures var blocks := ContentBlocks(ex, Student, parseHtml, decode);
            |blocks| == 1 && BlockText(blocks[0]) == "Respuesta: A" && ShowsAnswer(BlockText(blocks[0]))
  {
    var s := ex.content;
    assert PlainSource(ex, Student) == s;
    assert '\n' !in s by {
      assert forall k :: 0 <= k < |s| ==> s[k] != '\n';
    }
    SplitWithoutSeparator(s, '\n');
    assert !Blank(s) by {
      assert !IsWhitespace(s[0]);
    }
    assert LineParas([s]) == [Para(s, false, Start, 50)];
    assert OccursAt(s, "Respuesta:", 0) by {
      assert s[0..10] == "Respuesta:";
    }
  }

  // ---------------------------------------------------------------------
  // questions

  function QuestionLabel(k: nat): string {
    "Pregunta " + NatToString(k) + ":"
  }

  /** The content paragraphs of one exercise: the rich text when there is
      some, the plain text otherwise. */
  function ContentBlocks(ex: Exercise, variant: Variant, parseHtml: string -> seq<HtmlNode>,
                         decode: string -> Option<seq<bv8>>): (r: seq<Block>)
    ensures forall k :: 0 <= k < |r| ==> IsContentBlock(r[k])
  {
    if ex.htmlContent.Some? && ex.htmlContent.value != "" then
      HtmlBlocks(parseHtml(ex.htmlContent.value), variant, decode)
    else PlainBlocks(PlainSource(ex, variant))
  }

  /** One question: its label, its content, one spacer. */
  function Question(ex: Exercise, number: nat, variant: Variant, parseHtml: string -> seq<HtmlNode>,
                    decode: string -> Option<seq<bv8>>): (r: seq<Block>)
    ensures |r| >= 2 && r[0] == Label(QuestionLabel(number)) && r[|r| - 1] == Spacer
    ensures forall k :: 1 <= k < |r| - 1 ==> IsContentBlock(r[k])
  {
    [Label(QuestionLabel(number))] + ContentBlocks(ex, variant, parseHtml, decode) + [Spacer]
  }

  /** Between its label and its spacer a question holds the exercise's
      content paragraphs, all of them and nothing else. */
  lemma QuestionContent(ex: Exercise, number: nat, variant: Variant, parseHtml: string -> seq<HtmlNode>,
                        decode: string -> Option<seq<bv8>>)
    ensures var q := Question(ex, number, variant, parseHtml, decode);
            q[1..|q| - 1] == ContentBlocks(ex, variant, parseHtml, decode)
  {
    var q := Question(ex, number, variant, parseHtml, decode);
    assert q == [Label(QuestionLabel(number))] + ContentBlocks(ex, variant, parseHtml, decode) + [Spacer];
  }

  /** The questions numbered from `first` on. */
  function Questions(exs: seq<Exercise>, first: nat, variant: Variant, parseHtml: string -> seq<HtmlNode>,
                     decode: string -> Option<seq<bv8>>): (r: seq<Block>)
    ensures forall k :: 0 <= k < |r| ==> r[k].Label? || IsContentBlock(r[k]) || r[k] == Spacer
  {
    if |exs| == 0 then []
    else Question(exs[0], first, variant, parseHtml, decode) + Questions(exs[1..], first + 1, variant, parseHtml, decode)
  }

  /** The texts of the label blocks, in order. */
  function LabelsOf(blocks: seq<Block>): seq<string> {
    if |blocks| == 0 then []
    else (if blocks[0].Label? then [blocks[0].text] else []) + LabelsOf(blocks[1..])
  }

  lemma {:induction false} LabelsOfAppend(a: seq<Block>, b: seq<Block>)
    ensures LabelsOf(a + b) == LabelsOf(a) + LabelsOf(b)
  {
    if |a| > 0 {
      assert (a + b)[1..] == a[1..] + b;
      LabelsOfAppend(a[1..], b);
    } else {
      assert a + b == b;
    }
  }

  lemma {:induction false} NoLabels(blocks: seq<Block>)
    requires forall k :: 0 <= k < |blocks| ==> !blocks[k].Label?
    ensures LabelsOf(blocks) == []
  {
    if |blocks| > 0 {
      NoLabels(blocks[1..]);
    }
  }

  /** `Pregunta first:` … `Pregunta first+n-1:` */
  function LabelRange(first: nat, n: nat): (r: seq<string>)
    ensures |r| == n
    ensures forall k :: 0 <= k < n ==> r[k] == QuestionLabel(first + k)
    decreases n
  {
    if n == 0 then [] else [QuestionLabel(first)] + LabelRange(first + 1, n - 1)
  }

  /** The questions carry the labels `Pregunta first:`, `Pregunta first+1:`,
      … one per exercise, in selection order. */
  lemma {:induction false} QuestionLabels(exs: seq<Exercise>, first: nat, variant: Variant,
                                          parseHtml: string -> seq<HtmlNode>, decode: string -> Option<seq<bv8>>)
    ensures LabelsOf(Questions(exs, first, variant, parseHtml, decode)) == LabelRange(first, |exs|)
  {
    if |exs| > 0 {
      var q := Question(exs[0], first, variant, parseHtml, decode);
      var content := ContentBlocks(exs[0], variant, parseHtml, decode);
      var rest := Questions(exs[1..], first + 1, variant, parseHtml, decode);
      QuestionLabels(exs[1..], first + 1, variant, parseHtml, decode);
      NoLabels(content);
      NoLabels([Spacer]);
      LabelsOfAppend([Label(QuestionLabel(first))], content);
      LabelsOfAppend([Label(QuestionLabel(first))] + content, [Spacer]);
      LabelsOfAppend(q, rest);
      assert LabelsOf([Label(QuestionLabel(first))]) == [QuestionLabel(first)];
    }
  }

  function SpacersOf(blocks: seq<Block>): nat {
    if |blocks| == 0 then 0 else (if blocks[0] == Spacer then 1 else 0) + SpacersOf(blocks[1..])
  }

  lemma {:induction false} SpacersOfAppend(a: seq<Block>, b: seq<Block>)
    ensures SpacersOf(a + b) == SpacersOf(a) + SpacersOf(b)
  {
    if |a| > 0 {
      assert (a + b)[1..] == a[1..] + b;
      SpacersOfAppend(a[1..], b);
    } else {
      assert a + b == b;
    }
  }

  lemma {:induction false} NoSpacersInContent(blocks: seq<Block>)
    requires forall k :: 0 <= k < |blocks| ==> IsContentBlock(blocks[k])
    ensures SpacersOf(blocks) == 0
  {
    if |blocks| > 0 {
      NoSpacersInContent(blocks[1..]);
    }
  }

  /** Exactly one spacer per question: content never produces one. */
  lemma {:induction false} QuestionSpacers(exs: seq<Exercise>, first: nat, variant: Variant,
                                           parseHtml: string -> seq<HtmlNode>, decode: string -> Option<seq<bv8>>)
    ensures SpacersOf(Questions(exs, first, variant, parseHtml, decode)) == |exs|
  {
    if |exs| > 0 {
      var q := Question(exs[0], first, variant, parseHtml, decode);
      var content := ContentBlocks(exs[0], variant, parseHtml, decode);
      var rest := Questions(exs[1..], first + 1, variant, parseHtml, decode);
      QuestionSpacers(exs[1..], first + 1, variant, parseHtml, decode);
      NoSpacersInContent(content);
      SpacersOfAppend([Label(QuestionLabel(first))], content);
      SpacersOfAppend([Label(QuestionLabel(first))] + content, [Spacer]);
      SpacersOfAppend(q, rest);
      assert SpacersOf([Spacer]) == 1;
      assert SpacersOf([Label(QuestionLabel(first))]) == 0;
    }
  }

  // ---------------------------------------------------------------------
  // specification table

  function OrNA(s: Option<string>): string {
    if s.Some? && s.value != "" then s.value else "N/A"
  }

  function SkillOf(ex: Exercise): Option<string> {
    if ex.parsedContent.Some? then Some(ex.parsedContent.value.skill) else None
  }

  function AnswerOf(ex: Exercise): Option<string> {
    if ex.parsedContent.Some? then Some(ex.parsedContent.value.answerKey) else None
  }

  /** One row per exercise: its number, its skill and its answer, "N/A"
      where the parse found nothing. */
  function SpecRows(exs: seq<Exercise>, first: nat): (r: seq<seq<string>>)
    ensures |r| == |exs|
    ensures forall k :: 0 <= k < |exs| ==>
      r[k] == [NatToString(first + k), OrNA(SkillOf(exs[k])), OrNA(AnswerOf(exs[k]))]
  {
    if |exs| == 0 then []
    else [[NatToString(first), OrNA(SkillOf(exs[0])), OrNA(AnswerOf(exs[0]))]] + SpecRows(exs[1..], first + 1)
  }

  /** The first column numbers the rows 1, 2, …, n. */
  lemma SpecRowsNumbered(exs: seq<Exercise>)
    ensures forall k :: 0 <= k < |exs| ==> DecimalValue(SpecRows(exs, 1)[k][0]) == k + 1
  {
    forall k | 0 <= k < |exs| ensures DecimalValue(SpecRows(exs, 1)[k][0]) == k + 1 {
      NatToStringRoundTrip(k + 1);
    }
  }

  function SpecTable(exs: seq<Exercise>): seq<Block> {
    [PageBreak, Heading(SpecTableTitle), Table(SpecTableHeader, SpecRows(exs, 1))]
  }

  // ---------------------------------------------------------------------
  // the whole document

  function Preamble(title: string, filters: FilterState): seq<Block> {
    [ Title(title),
      Para("Curso: " + filters.grade + " | Asignatura: " + filters.subject, false, Centre, 400),
      Para(NameLine, false, Start, 400) ]
  }

  /** `generateDocx(type)` up to packing: header, preamble, the questions
      and, in the teacher copy with the option on, the specification
      table. */
  function Compose(title: string, filters: FilterState, settings: GlobalSettings, selected: seq<Exercise>,
                   variant: Variant, parseHtml: string -> seq<HtmlNode>, decode: string -> Option<seq<bv8>>): (d: Document)
    ensures |d.body| >= 3 && d.body[..3] == Preamble(title, filters)
    ensures d.header == Header(settings, decode)
  {
    var table := if variant == Teacher && settings.includeSpecTable then SpecTable(selected) else [];
    Document(Header(settings, decode), Preamble(title, filters) + Questions(selected, 1, variant, parseHtml, decode) + table)
  }

  predicate HasTable(blocks: seq<Block>) {
    exists k :: 0 <= k < |blocks| && blocks[k].Table?
  }

  /** The body carries a specification table exactly in the teacher copy
      with the option on, and that table has a header row and one row per
      selected exercise. */
  lemma SpecTablePresence(title: string, filters: FilterState, settings: GlobalSettings, selected: seq<Exercise>,
                          variant: Variant, parseHtml: string -> seq<HtmlNode>, decode: string -> Option<seq<bv8>>)
    ensures var body := Compose(title, filters, settings, selected, variant, parseHtml, decode).body;
            HasTable(body) <==> variant == Teacher && settings.includeSpecTable
    ensures var body := Compose(title, filters, settings, selected, variant, parseHtml, decode).body;
            variant == Teacher && settings.includeSpecTable ==>
              body[|body| - 1].Table? && body[|body| - 1].header == SpecTableHeader
              && |body[|body| - 1].rows| == |selected|
              && body[|body| - 1].rows == SpecRows(selected, 1)
  {
    var pre := Preamble(title, filters);
    var qs := Questions(selected, 1, variant, parseHtml, decode);
    var body := Compose(title, filters, settings, selected, variant, parseHtml, decode).body;
    ComposeLayout(title, filters, settings, selected, variant, parseHtml, decode);
    if variant == Teacher && settings.includeSpecTable {
      TableAtEnd(body, pre + qs, selected);
    } else {
      NoTableBetween(body, pre, qs);
    }
  }

  lemma TableAtEnd(body: seq<Block>, front: seq<Block>, selected: seq<Exercise>)
    requires body == front + SpecTable(selected)
    ensures HasTable(body) && body[|body| - 1] == Table(SpecTableHeader, SpecRows(selected, 1))
  {
    assert body[|body| - 1] == SpecTable(selected)[2];
  }

  lemma NoTableBetween(body: seq<Block>, pre: seq<Block>, qs: seq<Block>)
    requires body == pre + qs + []
    requires forall k :: 0 <= k < |pre| ==> !pre[k].Table?
    requires forall k :: 0 <= k < |qs| ==> qs[k].Label? || IsContentBlock(qs[k]) || qs[k] == Spacer
    ensures !HasTable(body)
  {
    forall k | 0 <= k < |body| ensures !body[k].Table? {
      if k >= |pre| {
        assert body[k] == qs[k - |pre|];
      } else {
        assert body[k] == pre[k];
      }
    }
  }

  /** The body is the preamble, then the questions of the selection in
      order, then the specification table when the teacher copy asks for
      it, and nothing else. */
  lemma ComposeLayout(title: string, filters: FilterState, settings: GlobalSettings, selected: seq<Exercise>,
                      variant: Variant, parseHtml: string -> seq<HtmlNode>, decode: string -> Option<seq<bv8>>)
    ensures var body := Compose(title, filters, settings, selected, variant, parseHtml, decode).body;
            var qs := Questions(selected, 1, variant, parseHtml, decode);
            && body == Preamble(title, filters) + qs
                        + (if variant == Teacher && settings.includeSpecTable then SpecTable(selected) else [])
            && 3 + |qs| <= |body|
            && body[3..3 + |qs|] == qs
            && body[3 + |qs|..] == if variant == Teacher && settings.includeSpecTable then SpecTable(selected) else []
  {
    var pre := Preamble(title, filters);
    var qs := Questions(selected, 1, variant, parseHtml, decode);
    var table: seq<Block> := if variant == Teacher && settings.includeSpecTable then SpecTable(selected) else [];
    var body := pre + qs + table;
    assert Compose(title, filters, settings, selected, variant, parseHtml, decode).body == body;
    assert body[3..3 + |qs|] == qs;
    assert body[3 + |qs|..] == table;
  }

  /** The labels of the whole document are `Pregunta 1:` … `Pregunta n:`. */
  lemma DocumentLabels(title: string, filters: FilterState, settings: GlobalSettings, selected: seq<Exercise>,
                       variant: Variant, parseHtml: string -> seq<HtmlNode>, decode: string -> Option<seq<bv8>>)
    ensures var labels := LabelsOf(Compose(title, filters, settings, selected, variant, parseHtml, decode).body);
            |labels| == |selected| && forall k :: 0 <= k < |labels| ==> labels[k] == QuestionLabel(k + 1)
  {
    OnlyQuestionsLabelled(title, filters, settings, selected, variant, parseHtml, decode);
    QuestionLabels(selected, 1, variant, parseHtml, decode);
  }

  /** The preamble and the table carry no label. */
  lemma OnlyQuestionsLabelled(title: string, filters: FilterState, settings: GlobalSettings, selected: seq<Exercise>,
                              variant: Variant, parseHtml: string -> seq<HtmlNode>, decode: string -> Option<seq<bv8>>)
    ensures LabelsOf(Compose(title, filters, settings, selected, variant, parseHtml, decode).body)
         == LabelsOf(Questions(selected, 1, variant, parseHtml, decode))
  {
    var table: seq<Block> := if variant == Teacher && settings.includeSpecTable then SpecTable(selected) else [];
    ComposeLayout(title, filters, settings, selected, variant, parseHtml, decode);
    UnlabelledFrame(title, filters, table);
    LabelsBetween(Preamble(title, filters), Questions(selected, 1, variant, parseHtml, decode), table);
  }

  lemma UnlabelledFrame(title: string, filters: FilterState, table: seq<Block>)
    requires table == [] || (|table| == 3 && table[0] == PageBreak && table[1].Heading? && table[2].Table?)
    ensures forall k :: 0 <= k < |Preamble(title, filters)| ==> !Preamble(title, filters)[k].Label?
    ensures forall k :: 0 <= k < |table| ==> !table[k].Label?
  {
  }

  lemma LabelsBetween(pre: seq<Block>, middle: seq<Block>, post: seq<Block>)
    requires forall k :: 0 <= k < |pre| ==> !pre[k].Label?
    requires forall k :: 0 <= k < |post| ==> !post[k].Label?
    ensures LabelsOf(pre + middle + post) == LabelsOf(middle)
  {
    NoLabels(pre);
    NoLabels(post);
    LabelsOfAppend(pre, middle);
    LabelsOfAppend(pre + middle, post);
  }

}
