/**
 The persistent records of the exam backend (the questions, question_variations,
 exam_attempts and mistake_logs tables), as immutable values. A table is a
 sequence of rows in insertion order; timestamps are integer clock values in
 seconds.
 */
module Models {
  import opened Wrappers

  /** A bank question. */
  datatype Question = Question(
    id: int,
    content: string,
    options: seq<string>,
    correctOption: string,
    source: string,
    mistakeType: string)

  /** A trap variation generated from the bank question `sourceQuestionId`. */
  datatype Variation = Variation(
    id: int,
    sourceQuestionId: int,
    content: string,
    options: seq<string>,
    correctOption: string,
    trapOption: string,
    mistakeTag: string,
    explanation: string)

  /** One exam attempt; the optional fields stay unset until it is submitted. */
  datatype Attempt = Attempt(
    id: int,
    userId: string,
    startedAt: int,
    endTime: int,
    submittedAt: Option<int>,
    analysisUnlocksAt: Option<int>,
    score: Option<int>,
    isFlagged: bool)
  {
    /** An attempt is active (in progress) while it has no submission time. */
    predicate Active() {
      submittedAt.None?
    }
  }

  /** The record written for one wrong answer. */
  datatype MistakeLog = MistakeLog(
    userId: string,
    questionId: int,
    selectedOption: string,
    correctOption: string,
    mistakeType: string)

  /** The three tables the exam router reads and writes. */
  datatype Db = Db(questions: seq<Question>, variations: seq<Variation>, attempts: seq<Attempt>)

  /*
   The key column of each table. The three row types share no common type
   (the model uses no traits), so the same projection is written once per table.
   */

  function QuestionIds(s: seq<Question>): (ids: seq<int>)
    ensures |ids| == |s| && forall i :: 0 <= i < |s| ==> ids[i] == s[i].id
  {
    seq(|s|, i requires 0 <= i < |s| => s[i].id)
  }

  function VariationIds(s: seq<Variation>): (ids: seq<int>)
    ensures |ids| == |s| && forall i :: 0 <= i < |s| ==> ids[i] == s[i].id
  {
    seq(|s|, i requires 0 <= i < |s| => s[i].id)
  }

  function AttemptIds(s: seq<Attempt>): (ids: seq<int>)
    ensures |ids| == |s| && forall i :: 0 <= i < |s| ==> ids[i] == s[i].id
  {
    seq(|s|, i requires 0 <= i < |s| => s[i].id)
  }

  /** Attempt rows listed in strictly increasing primary-key order. */
  predicate AttemptsSorted(s: seq<Attempt>) {
    forall i, j :: 0 <= i < j < |s| ==> s[i].id < s[j].id
  }

  /** Variation rows listed in strictly increasing primary-key order. */
  predicate VariationsSorted(s: seq<Variation>) {
    forall i, j :: 0 <= i < j < |s| ==> s[i].id < s[j].id
  }

  predicate Distinct(ids: seq<int>) {
    forall i, j :: 0 <= i < j < |ids| ==> ids[i] != ids[j]
  }

  /** The largest key of a table, or 0 for an empty one. */
  function MaxId(ids: seq<int>): (m: nat)
    ensures forall i :: 0 <= i < |ids| ==> ids[i] <= m
  {
    if |ids| == 0 then 0
    else
      var m := MaxId(ids[..|ids| - 1]);
      if ids[|ids| - 1] > m then ids[|ids| - 1] else m
  }

  /** The key the database assigns to the next inserted row (autoincrement). */
  function NextId(ids: seq<int>): (n: int)
    ensures n >= 1
    ensures forall i :: 0 <= i < |ids| ==> ids[i] < n
  {
    MaxId(ids) + 1
  }

  /**
   Index of the first row with key `id`, as `.filter(id == key).first()` finds it.
   */
  function Find(ids: seq<int>, id: int): (r: Option<nat>)
    ensures r.Some? ==> r.value < |ids| && ids[r.value] == id
    ensures r.Some? ==> forall j :: 0 <= j < r.value ==> ids[j] != id
    ensures r.None? <==> forall j :: 0 <= j < |ids| ==> ids[j] != id
  {
    if |ids| == 0 then None
    else if ids[0] == id then Some(0)
    else
      match Find(ids[1..], id)
      case None => None
      case Some(k) => Some(k + 1)
  }

  /** With distinct keys, the row found is the only one carrying the key. */
  lemma {:induction false} FindDistinct(ids: seq<int>, k: nat)
    requires Distinct(ids) && k < |ids|
    ensures Find(ids, ids[k]) == Some(k)
  {
    assert Find(ids, ids[k]).Some?;
  }

}
