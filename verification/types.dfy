/** The records of the exercise bank (types.ts). Binary payloads
    (`fileContent`, `originalFile`) are not part of the model. */
module Types {
  import opened Wrappers

  datatype ExerciseType = MultipleChoice | Development | TrueFalse

  /** The string value of each `ExerciseType` member; filters compare
      against it. */
  function TypeName(t: ExerciseType): string {
    match t
    case MultipleChoice => "Selección Única"
    case Development => "Desarrollo"
    case TrueFalse => "Verdadero o Falso"
  }

  datatype Difficulty = Basica | Media | Avanzada

  function DifficultyName(d: Difficulty): string {
    match d
    case Basica => "Básica"
    case Media => "Media"
    case Avanzada => "Avanzada"
  }

  /** Result of the metadata extractor. */
  datatype ParsedExercise = ParsedExercise(
    studentContent: string,
    answerKey: string,
    skill: string,
    hasMetadata: bool)

  datatype FileType = Pdf | Docx

  /** One exercise of the bank. Optional fields of the source are
      `Option`s; `htmlContent` carries the converted rich text. */
  datatype Exercise = Exercise(
    id: string,
    filename: string,
    content: string,
    htmlContent: Option<string>,
    fileType: Option<FileType>,
    parsedContent: Option<ParsedExercise>,
    subject: string,
    grade: string,
    oa: string,
    indicator: string,
    exerciseType: ExerciseType,
    difficulty: Difficulty,
    tags: seq<string>)

  datatype GlobalSettings = GlobalSettings(
    schoolName: string,
    logoBase64: Option<string>,
    includeSpecTable: bool)

  /** The generator's filter form; an empty field means "no filter". */
  datatype FilterState = FilterState(
    subject: string,
    grade: string,
    oa: string,
    indicator: string,
    exerciseType: string,
    keyword: string)

  /** The ids of a list of exercises, in order. */
  function Ids(exs: seq<Exercise>): (r: seq<string>)
    ensures |r| == |exs|
    ensures forall k :: 0 <= k < |exs| ==> r[k] == exs[k].id
  {
    seq(|exs|, k requires 0 <= k < |exs| => exs[k].id)
  }

  lemma IdsAppend(a: seq<Exercise>, b: seq<Exercise>)
    ensures Ids(a + b) == Ids(a) + Ids(b)
  {
  }
}
