/**
 The trap-variation generator and the mistake classifier. The random choice of a
 trap type is passed in as an index into `TrapTypes`.
 */
module Services {
  import opened Models

  /** The trap types a variation can be tagged with, in declaration order. */
  const TrapTypes: seq<string> := ["TRAP_CONFUSION", "CONTEXT_SHIFT", "LINGUISTIC_COMPLEXITY"]

  /** Text appended to a question's content to make its variation. */
  const CarefulSuffix: string := " (Read carefully.)"

  /** The explanation every generated variation carries. */
  const VariationExplanation: string := "Generated variation to simulate trap condition."

  /** The outcome of the random choice among the three trap types: an index into `TrapTypes`. */
  type TrapPick = i: nat | i < 3

  /** The fields a generated variation is built from (its id is assigned on insertion). */
  datatype VariationData = VariationData(
    content: string,
    options: seq<string>,
    correctOption: string,
    trapOption: string,
    mistakeTag: string,
    explanation: string)

  /** The option list of a variation: the first two options trade places. */
  function SwapFirstTwo<T>(options: seq<T>): (r: seq<T>)
    ensures |r| == |options|
    ensures multiset(r) == multiset(options)
    ensures |options| >= 2 ==> r[0] == options[1] && r[1] == options[0]
    ensures forall i :: 2 <= i < |options| ==> r[i] == options[i]
    ensures |options| < 2 ==> r == options
  {
    if |options| >= 2 then
      assert options == [options[0], options[1]] + options[2..];
      [options[1], options[0]] + options[2..]
    else
      options
  }

  /** Swapping twice gives back the original option list. */
  lemma SwapFirstTwoInvolution<T>(options: seq<T>)
    ensures SwapFirstTwo(SwapFirstTwo(options)) == options
  {
  }

  /**
   Derives a trap variation from a question. The source question is an
   immutable value, so it is left as it was. Indexing the first option fails
   when the question has none, hence the precondition.
   */
  function GenerateVariation(q: Question, trap: TrapPick): (v: VariationData)
    requires |q.options| > 0
    ensures v.content == q.content + CarefulSuffix
    ensures |v.content| == |q.content| + |CarefulSuffix| && v.content[..|q.content|] == q.content
    ensures |v.options| == |q.options| && multiset(v.options) == multiset(q.options)
    ensures |q.options| >= 2 ==> v.options[0] == q.options[1] && v.options[1] == q.options[0]
    ensures forall i :: 2 <= i < |q.options| ==> v.options[i] == q.options[i]
    ensures |q.options| < 2 ==> v.options == q.options
    ensures v.correctOption == q.correctOption
    ensures v.trapOption == v.options[0]
    ensures |q.options| >= 2 ==> v.trapOption == q.options[1]
    ensures v.mistakeTag == TrapTypes[trap] && v.mistakeTag in TrapTypes
    ensures v.explanation == VariationExplanation
  {
    var options := SwapFirstTwo(q.options);
    VariationData(
      q.content + CarefulSuffix,
      options,
      q.correctOption,
      options[0],
      TrapTypes[trap],
      VariationExplanation)
  }

  /** The mistake classification of a question is its stored mistake type. */
  function ClassifyMistake(q: Question): string {
    q.mistakeType
  }
}
