/**
 * The closed set of question types. The keyword table of the analyser names the
 * six base types; the remote classifier's list of valid types adds `mixed`.
 */
module QuestionTypes {
  import opened Wrappers

  datatype QuestionType =
    | Calculation | Proof | Interpretation | Representation | EquationSolving | Deduction
    | Mixed

  /** The outcome of classifying one question. */
  datatype Classification = Classification(questionType: QuestionType, isComposite: bool)

  /** The base types in the key order of the keyword table. */
  const BaseTypes: seq<QuestionType> :=
    [Calculation, Proof, Interpretation, Representation, EquationSolving, Deduction]

  /** The names accepted from the remote classifier, in their listed order. */
  const ValidTypes: seq<string> :=
    ["calculation", "proof", "interpretation", "representation", "equation_solving", "deduction", "mixed"]

  /** The name under which a type is stored and exported. */
  function Name(t: QuestionType): string {
    match t
    case Calculation => "calculation"
    case Proof => "proof"
    case Interpretation => "interpretation"
    case Representation => "representation"
    case EquationSolving => "equation_solving"
    case Deduction => "deduction"
    case Mixed => "mixed"
  }

  /** The type a valid name stands for. */
  function FromName(s: string): (r: Option<QuestionType>)
    ensures r.Some? <==> s in ValidTypes
    ensures r.Some? ==> Name(r.value) == s
  {
    if s == "calculation" then Some(Calculation)
    else if s == "proof" then Some(Proof)
    else if s == "interpretation" then Some(Interpretation)
    else if s == "representation" then Some(Representation)
    else if s == "equation_solving" then Some(EquationSolving)
    else if s == "deduction" then Some(Deduction)
    else if s == "mixed" then Some(Mixed)
    else None
  }

  /** Every type's name is a valid name, and the name determines the type. */
  lemma NameRoundTrip(t: QuestionType)
    ensures Name(t) in ValidTypes
    ensures FromName(Name(t)) == Some(t)
  {
  }

  /** The base types are exactly the types other than `mixed`, each listed once. */
  lemma BaseTypesAreNotMixed(t: QuestionType)
    ensures t in BaseTypes <==> t != Mixed
    ensures forall i, j :: 0 <= i < j < |BaseTypes| ==> BaseTypes[i] != BaseTypes[j]
  {
  }
}
