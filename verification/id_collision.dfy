/**
 Question ids and variation ids are keys of two separate tables, both numbered
 from 1, and submission looks an answer id up among the questions first. An
 entry that shows a variation whose key is also the key of some bank question
 is therefore graded against that question. This module exhibits the effect on
 the seed question bank and states the grading by the entry shown: each answer
 is looked up in the table its entry came from.
 */
module IdCollision {
  import opened Wrappers
  import opened Models
  import opened Services
  import opened Scoring
  import opened Exams
  import opened Lifecycle

  /** The three questions the seed endpoint inserts. */
  const SeedBank: seq<Question> := [
    Question(1, "What is 2 + 2?", ["3", "4", "5", "6"], "4", "Math", "KNOWLEDGE"),
    Question(2, "Which is NOT prime?", ["2", "3", "4", "5"], "4", "Math", "TRAP"),
    Question(3, "If x = 5, what is x²?", ["10", "15", "20", "25"], "25", "Algebra", "TIME")
  ]

  /** An answer that names the entry it answers, table included. */
  datatype KeyedAnswer = KeyedAnswer(ref: ItemRef, selected: string)

  /** Looks an entry up in the table it came from, and only there. */
  function ResolveRef(db: Db, ref: ItemRef): (k: Option<Key>)
    ensures k.None? <==>
      if ref.QuestionItem? then forall i :: 0 <= i < |db.questions| ==> db.questions[i].id != ref.id
      else forall j :: 0 <= j < |db.variations| ==> db.variations[j].id != ref.id
    ensures ref.QuestionItem? && k.Some? ==>
      exists i :: 0 <= i < |db.questions| && db.questions[i].id == ref.id &&
        k == Some(Key(db.questions[i].correctOption, db.questions[i].mistakeType))
    ensures ref.VariationItem? && k.Some? ==>
      exists j :: 0 <= j < |db.variations| && db.variations[j].id == ref.id &&
        k == Some(Key(db.variations[j].correctOption, db.variations[j].mistakeTag))
    ensures ref.QuestionItem? && Distinct(QuestionIds(db.questions)) ==>
      forall i :: 0 <= i < |db.questions| && db.questions[i].id == ref.id ==>
        k == Some(Key(db.questions[i].correctOption, db.questions[i].mistakeType))
    ensures ref.VariationItem? && VariationsSorted(db.variations) ==>
      forall j :: 0 <= j < |db.variations| && db.variations[j].id == ref.id ==>
        k == Some(Key(db.variations[j].correctOption, db.variations[j].mistakeTag))
  {
    match ref
    case QuestionItem(id) =>
      (match Find(QuestionIds(db.questions), id)
       case Some(i) => Some(Key(db.questions[i].correctOption, db.questions[i].mistakeType))
       case None => None)
    case VariationItem(id) =>
      match Find(VariationIds(db.variations), id)
      case Some(j) => Some(Key(db.variations[j].correctOption, db.variations[j].mistakeTag))
      case None => None
  }

  lemma SortedIsDistinct(vs: seq<Variation>)
    requires VariationsSorted(vs)
    ensures Distinct(VariationIds(vs))
  {
  }

  /** Submission with keyed answers: the corrected grading. */
  function SubmitKeyed(db: Db, examId: int, answers: seq<KeyedAnswer>, now: int): (o: Outcome<SubmitReport>)
    ensures o.result.Ok? ==>
      var r := o.result.value;
      && 0 <= r.score <= |answers|
      && r.score == |set i | 0 <= i < |answers| &&
           IsRight(Judged(answers[i].ref.id, answers[i].selected, ResolveRef(db, answers[i].ref)))|
      && r.score + |r.mistakes| == |set i | 0 <= i < |answers| && ResolveRef(db, answers[i].ref).Some?|
    ensures o.result.Ok? ==> forall i :: 0 <= i < |answers| ==>
      var j := Judged(answers[i].ref.id, answers[i].selected, ResolveRef(db, answers[i].ref));
      IsWrong(j) ==>
        exists m :: m in o.result.value.mistakes && m.questionId == j.id &&
          m.selectedOption == j.selected && m.correctOption == j.key.value.correct &&
          m.mistakeType == j.key.value.mistakeType
    ensures o.result.Ok? <==> Submittable(db.attempts, examId)
    ensures o.result.Err? ==> o.db == db
    ensures o.result.Ok? ==> Recorded(db, o.db, examId, o.result.value, now)
  {
    var js := JudgeKeyed(db, answers);
    var o := SubmitResolved(db, examId, js, now);
    if o.result.Ok? then
      assert RightIndices(js) == set i | 0 <= i < |answers| &&
        IsRight(Judged(answers[i].ref.id, answers[i].selected, ResolveRef(db, answers[i].ref)));
      assert ResolvedIndices(js) == set i | 0 <= i < |answers| && ResolveRef(db, answers[i].ref).Some?;
      GradeMistakes(db.attempts[Find(AttemptIds(db.attempts), examId).value].userId, js);
      o
    else o
  }

  /** Pairs every keyed answer with what its entry resolves to in its own table. */
  function JudgeKeyed(db: Db, answers: seq<KeyedAnswer>): (js: seq<Judged>)
    ensures |js| == |answers|
    ensures forall i :: 0 <= i < |answers| ==>
      js[i] == Judged(answers[i].ref.id, answers[i].selected, ResolveRef(db, answers[i].ref))
  {
    seq(|answers|, i requires 0 <= i < |answers| =>
      Judged(answers[i].ref.id, answers[i].selected, ResolveRef(db, answers[i].ref)))
  }

  /** The answer sheet that picks, for every entry, the correct option of the question behind it. */
  function PerfectSheet(qs: seq<Question>, entries: seq<Entry>): (sheet: seq<KeyedAnswer>)
    requires |qs| == |entries|
    ensures |sheet| == |entries|
    ensures forall i :: 0 <= i < |entries| ==> sheet[i] == KeyedAnswer(entries[i].ref, qs[i].correctOption)
  {
    seq(|entries|, i requires 0 <= i < |entries| => KeyedAnswer(entries[i].ref, qs[i].correctOption))
  }

  /** The same sheet as it goes over the wire: only the ids of the entries. */
  function WireSheet(qs: seq<Question>, entries: seq<Entry>): (sheet: seq<Answer>)
    requires |qs| == |entries|
    ensures |sheet| == |entries|
    ensures forall i :: 0 <= i < |entries| ==> sheet[i] == Answer(entries[i].ref.id, qs[i].correctOption)
  {
    seq(|entries|, i requires 0 <= i < |entries| => Answer(entries[i].ref.id, qs[i].correctOption))
  }

  /** Every entry an exam start shows resolves, by its table, to the correct option of its question. */
  lemma EntryResolvesToItsQuestion(db: Db, user: string, now: int, choices: seq<Choice>, i: nat)
    requires Wf(db) && |choices| == |db.questions| && i < |db.questions|
    requires Start(db, user, now, choices).result.Ok?
    ensures var o := Start(db, user, now, choices);
      ResolveRef(o.db, o.result.value.questions[i].ref).Some? &&
      ResolveRef(o.db, o.result.value.questions[i].ref).value.correct == db.questions[i].correctOption
  {
    var o := Start(db, user, now, choices);
    StartPreservesWf(db, user, now, choices);
    var q, e := db.questions[i], o.result.value.questions[i];
    assert Presents(q, choices[i], o.db.variations, e);
    match choices[i]
    case Keep =>
      assert QuestionIds(db.questions)[i] == q.id;
    case Mutate(t) =>
      var v := MakeVariation(e.ref.id, q, t);
      var j :| 0 <= j < |o.db.variations| && o.db.variations[j] == v;
  }

  /**
   With keyed answers, answering every entry of a started exam with the correct
   option of the question behind it scores full marks and logs no mistake.
   */
  lemma KeyedPerfectSheetScoresFull(db: Db, user: string, now: int, choices: seq<Choice>, t: int)
    requires Wf(db) && |choices| == |db.questions|
    requires Start(db, user, now, choices).result.Ok?
    ensures var o := Start(db, user, now, choices);
      var s := SubmitKeyed(o.db, o.result.value.examId, PerfectSheet(db.questions, o.result.value.questions), t);
      && s.result.Ok?
      && s.result.value.score == |db.questions|
      && s.result.value.mistakes == []
  {
    var o := Start(db, user, now, choices);
    var r := o.result.value;
    var n := |db.attempts|;
    StartPreservesWf(db, user, now, choices);
    FindDistinct(AttemptIds(o.db.attempts), n);
    var sheet := PerfectSheet(db.questions, r.questions);
    forall i | 0 <= i < |sheet|
      ensures IsRight(Judged(sheet[i].ref.id, sheet[i].selected, ResolveRef(o.db, sheet[i].ref)))
    {
      EntryResolvesToItsQuestion(db, user, now, choices, i);
    }
    var js := seq(|sheet|, i requires 0 <= i < |sheet| =>
      Judged(sheet[i].ref.id, sheet[i].selected, ResolveRef(o.db, sheet[i].ref)));
    assert RightIndices(js) == ResolvedIndices(js);
    AllResolved(js);
  }

  /**
   A bank shaped like the seed bank: keys 1, 2 and 3, every question with options,
   questions 1 and 2 sharing their correct option and question 3 not.
   */
  predicate SeedShaped(qs: seq<Question>) {
    && |qs| == 3
    && (forall i :: 0 <= i < 3 ==> qs[i].id == i + 1 && |qs[i].options| > 0)
    && qs[0].correctOption == qs[1].correctOption
    && qs[1].correctOption != qs[2].correctOption
  }

  lemma SeedBankIsSeedShaped()
    ensures SeedShaped(SeedBank)
  {
  }

  /**
   A state chosen to exhibit the collision: the seed bank, one variation row
   already stored under key 1, and an empty attempts table. The state is
   hypothetical (an earlier exam that left that variation would also have left
   its attempt row); the empty attempts table only keeps the start from being
   refused, and the keys the variations receive do not depend on it.
   */
  predicate CollisionSetting(db: Db) {
    SeedShaped(db.questions) && |db.variations| == 1 && db.variations[0].id == 1 && db.attempts == []
  }

  /** Every question of the bank is shown as a variation. */
  predicate AllMutated(cs: seq<Choice>) {
    |cs| == 3 && forall i :: 0 <= i < 3 ==> cs[i].Mutate?
  }

  /** Such a start succeeds and shows the variations under keys 2, 3 and 4. */
  lemma CollisionStartKeys(db: Db, user: string, now: int, cs: seq<Choice>)
    requires CollisionSetting(db) && AllMutated(cs)
    ensures var o := Start(db, user, now, cs);
      && o.result.Ok?
      && Wf(o.db)
      && |o.db.attempts| == 1 && o.db.attempts[0].id == o.result.value.examId
      && o.db.attempts[0].userId == user && o.db.attempts[0].Active()
      && o.db.questions == db.questions
      && |o.result.value.questions| == 3
      && o.result.value.questions[0].ref == VariationItem(2)
      && o.result.value.questions[1].ref == VariationItem(3)
      && o.result.value.questions[2].ref == VariationItem(4)
      && MakeVariation(4, db.questions[2], cs[2].trap) in o.db.variations
  {
    CollisionSettingFacts(db, cs);
    StartPreservesWf(db, user, now, cs);
    PresentAllMutated(db.questions, cs, db.variations);
  }

  lemma CollisionSettingFacts(db: Db, cs: seq<Choice>)
    requires CollisionSetting(db) && AllMutated(cs)
    ensures Wf(db) && NextId(VariationIds(db.variations)) == 2
    ensures forall i :: 0 <= i < 3 ==> cs[i].Mutate? && |db.questions[i].options| > 0
    ensures !GenerationFails(db.questions, cs)
  {
    assert VariationIds(db.variations) == [1];
    assert MaxId([1]) == 1;
    assert QuestionIds(db.questions) == [1, 2, 3];
  }

  /**
   On a seed-shaped bank, a start that shows all three questions as variations
   gives them keys 2, 3 and 4. Answering each with its correct option over the
   wire scores only 2: key 3 is also the key of bank question 3, so the answer to
   the variation of question 2 is graded against question 3 and logged as a
   mistake.
   */
  lemma WireSheetMisgraded(db: Db, user: string, now: int, cs: seq<Choice>, t: int)
    requires CollisionSetting(db) && AllMutated(cs)
    ensures var o := Start(db, user, now, cs);
      var qs := db.questions;
      && o.result.Ok?
      && var s := Submit(o.db, o.result.value.examId, WireSheet(qs, o.result.value.questions), t);
      && s.result.Ok?
      && s.result.value.score == 2
      && s.result.value.mistakes == [MistakeLog(user, 3, qs[1].correctOption, qs[2].correctOption, qs[2].mistakeType)]
  {
    var qs := db.questions;
    var o := Start(db, user, now, cs);
    CollisionStartKeys(db, user, now, cs);
    var sheet := WireSheet(qs, o.result.value.questions);
    assert sheet == [Answer(2, qs[0].correctOption), Answer(3, qs[1].correctOption), Answer(4, qs[2].correctOption)];
    WireSheetGrades(o.db, user, cs[2].trap);
    SubmitSoleAttempt(o.db, sheet, t);
  }

  /** Over the wire, key 3 resolves to bank question 3 rather than to the variation shown under it. */
  lemma WireSheetGrades(db: Db, user: string, trap: TrapPick)
    requires SeedShaped(db.questions) && VariationsSorted(db.variations)
    requires MakeVariation(4, db.questions[2], trap) in db.variations
    ensures var qs := db.questions;
      Grade(user, ResolveAll(db, [Answer(2, qs[0].correctOption), Answer(3, qs[1].correctOption), Answer(4, qs[2].correctOption)])) ==
      Graded(2, [MistakeLog(user, 3, qs[1].correctOption, qs[2].correctOption, qs[2].mistakeType)])
  {
    var qs := db.questions;
    var j2 := ResolveBankQuestion(db, 1, qs[0].correctOption);
    var j3 := ResolveBankQuestion(db, 2, qs[1].correctOption);
    var j4 := ResolveLastVariation(db, trap);
    ResolveThree(db, Answer(2, qs[0].correctOption), Answer(3, qs[1].correctOption), Answer(4, qs[2].correctOption));
    GradeThree(user, j2, j3, j4);
  }

  lemma ResolveThree(db: Db, a: Answer, b: Answer, c: Answer)
    ensures ResolveAll(db, [a, b, c]) ==
      [Judged(a.id, a.selected, Resolve(db, a.id)), Judged(b.id, b.selected, Resolve(db, b.id)), Judged(c.id, c.selected, Resolve(db, c.id))]
  {
  }

  /** A key of the bank resolves to its question, whatever variations exist. */
  lemma ResolveBankQuestion(db: Db, i: nat, selected: string) returns (j: Judged)
    requires SeedShaped(db.questions) && i < 3
    ensures j == Judged(i + 1, selected, Resolve(db, i + 1))
    ensures j.key == Some(Key(db.questions[i].correctOption, db.questions[i].mistakeType))
  {
    assert QuestionIds(db.questions) == [1, 2, 3];
    FindDistinct(QuestionIds(db.questions), i);
    j := Judged(i + 1, selected, Resolve(db, i + 1));
  }

  /** Submitting the only, still active, attempt grades the resolved answers. */
  lemma SubmitSoleAttempt(db: Db, answers: seq<Answer>, now: int)
    requires |db.attempts| == 1 && db.attempts[0].Active()
    ensures var s := Submit(db, db.attempts[0].id, answers, now);
      var g := Grade(db.attempts[0].userId, ResolveAll(db, answers));
      s.result.Ok? && s.result.value.score == g.score && s.result.value.mistakes == g.mistakes
  {
    assert Find(AttemptIds(db.attempts), db.attempts[0].id) == Some(0);
  }

  /** Key 4 names no bank question, so it resolves to the variation stored under it. */
  lemma ResolveLastVariation(db: Db, trap: TrapPick) returns (j: Judged)
    requires SeedShaped(db.questions) && VariationsSorted(db.variations)
    requires MakeVariation(4, db.questions[2], trap) in db.variations
    ensures j == Judged(4, db.questions[2].correctOption, Resolve(db, 4)) && IsRight(j)
  {
    assert QuestionIds(db.questions) == [1, 2, 3];
    var k :| 0 <= k < |db.variations| && db.variations[k] == MakeVariation(4, db.questions[2], trap);
    SortedIsDistinct(db.variations);
    FindDistinct(VariationIds(db.variations), k);
    j := Judged(4, db.questions[2].correctOption, Resolve(db, 4));
  }

  lemma GradeThree(user: string, a: Judged, b: Judged, c: Judged)
    requires IsRight(a) && IsWrong(b) && IsRight(c)
    ensures Grade(user, [a, b, c]) == Graded(2, [LogOf(user, b)])
  {
    assert [a][..0] == [];
    assert Grade(user, [a]) == Graded(1, []);
    assert [a, b][..1] == [a];
    assert Grade(user, [a, b]) == Graded(1, [LogOf(user, b)]);
    assert [a, b, c][..2] == [a, b];
  }
}
