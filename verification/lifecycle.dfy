/**
 Properties of the exam lifecycle that span several calls: the invariants every
 start and submission preserve, single submission, the late flag, the results
 lock, and the focus trend over the newest attempts.
 */
module Lifecycle {
  import opened Wrappers
  import opened Models
  import opened Scoring
  import opened Exams

  /** No user has two attempts without a submission time. */
  predicate OneActivePerUser(s: seq<Attempt>) {
    forall i, j :: 0 <= i < j < |s| && s[i].userId == s[j].userId ==> !(s[i].Active() && s[j].Active())
  }

  /** The fields of an attempt agree with the start and submission that wrote them. */
  predicate Consistent(a: Attempt) {
    && a.endTime == a.startedAt + ExamDuration
    && (a.Active() ==> a.score.None? && a.analysisUnlocksAt.None? && !a.isFlagged)
    && (!a.Active() ==>
          && a.score.Some? && a.score.value >= 0
          && a.analysisUnlocksAt == Some(a.submittedAt.value + AnalysisDelay))
  }

  /** The database invariant: keys are unique and the attempt rows are consistent. */
  predicate Wf(db: Db) {
    && Distinct(QuestionIds(db.questions))
    && VariationsSorted(db.variations)
    && AttemptsSorted(db.attempts)
    && OneActivePerUser(db.attempts)
    && forall i :: 0 <= i < |db.attempts| ==> Consistent(db.attempts[i])
  }

  /** A freshly seeded database, with a bank of distinct question ids, is well formed. */
  lemma FreshDbWf(bank: seq<Question>)
    requires Distinct(QuestionIds(bank))
    ensures Wf(Db(bank, [], []))
  {
  }

  /** Starting an exam, successfully or not, keeps the invariant. */
  lemma StartPreservesWf(db: Db, user: string, now: int, choices: seq<Choice>)
    requires Wf(db) && |choices| == |db.questions|
    ensures Wf(Start(db, user, now, choices).db)
  {
    if !HasActive(db.attempts, user) {
      var db' := Start(db, user, now, choices).db;
      PresentKeepsKeysSorted(db.questions, choices, db.variations);
      var n := |db.attempts|;
      assert forall i :: 0 <= i < n ==> db'.attempts[i] == db.attempts[i];
      assert forall i :: 0 <= i < n && db.attempts[i].userId == user ==> !db.attempts[i].Active();
    }
  }

  /** Submitting, successfully or not, keeps the invariant. */
  lemma SubmitPreservesWf(db: Db, examId: int, answers: seq<Answer>, now: int)
    requires Wf(db)
    ensures Wf(Submit(db, examId, answers, now).db)
  {
    SubmitResolvedPreservesWf(db, examId, ResolveAll(db, answers), now);
  }

  lemma SubmitResolvedPreservesWf(db: Db, examId: int, js: seq<Judged>, now: int)
    requires Wf(db)
    ensures Wf(SubmitResolved(db, examId, js, now).db)
  {
    var o := SubmitResolved(db, examId, js, now);
    if o.result.Ok? {
      var k := Find(AttemptIds(db.attempts), examId).value;
      var a' := o.db.attempts[k];
      assert !a'.Active() && Consistent(a');
      assert forall j :: 0 <= j < |db.attempts| && j != k ==> o.db.attempts[j] == db.attempts[j];
    }
  }

  /**
   While a user has an attempt in progress every further start is refused and
   changes nothing; in particular a second start right after a first one,
   including a first one that failed while generating variations.
   */
  lemma StartTwiceRefused(db: Db, user: string, now: int, choices: seq<Choice>, later: int, choices': seq<Choice>)
    requires |choices| == |db.questions| == |choices'|
    ensures var db' := Start(db, user, now, choices).db;
      Start(db', user, later, choices') == Outcome(db', Err(ActiveExamExists))
  {
    var db' := Start(db, user, now, choices).db;
    if !HasActive(db.attempts, user) {
      assert db'.attempts[|db.attempts|].userId == user && db'.attempts[|db.attempts|].Active();
    }
  }

  /**
   An attempt can be submitted once: after submitting an active attempt, a
   second submission is refused and changes nothing.
   */
  lemma SubmitTwiceRefused(db: Db, examId: int, answers: seq<Answer>, now: int, answers': seq<Answer>, later: int)
    requires Submittable(db.attempts, examId)
    ensures var db' := Submit(db, examId, answers, now).db;
      Submit(db', examId, answers', later) == Outcome(db', Err(AlreadySubmitted))
  {
    var db' := Submit(db, examId, answers, now).db;
    assert AttemptIds(db'.attempts) == AttemptIds(db.attempts);
  }

  /**
   In a well-formed database a submission of an active attempt is flagged exactly when it
   comes strictly after the attempt's end time; one at the end time itself is
   not flagged.
   */
  lemma SubmitFlagsLateOnly(db: Db, examId: int, answers: seq<Answer>, now: int)
    requires Wf(db)
    requires Submittable(db.attempts, examId)
    ensures var a := db.attempts[Find(AttemptIds(db.attempts), examId).value];
      && (Submit(db, examId, answers, now).result.value.flagged <==> now > a.endTime)
      && (now == a.endTime ==> !Submit(db, examId, answers, now).result.value.flagged)
  {
  }

  /**
   After an active attempt is submitted at `now`, the results stay locked for every
   reading before `now + AnalysisDelay` and show the recorded score and flag
   from that instant on.
   */
  lemma ResultsUnlockExactly(db: Db, examId: int, answers: seq<Answer>, now: int, t: int)
    requires Submittable(db.attempts, examId)
    ensures var o := Submit(db, examId, answers, now);
      && (t < now + AnalysisDelay ==> Results(o.db, examId, t) == Err(AnalysisLocked))
      && (t >= now + AnalysisDelay ==>
            Results(o.db, examId, t) == Ok(ResultView(Some(o.result.value.score), o.result.value.flagged)))
  {
    var db' := Submit(db, examId, answers, now).db;
    assert AttemptIds(db'.attempts) == AttemptIds(db.attempts);
  }

  /**
   In a well-formed database the focus trend never fails. It reports too little
   data exactly when the user has fewer than three submitted attempts, all of
   them among the ones `Recent` returns; otherwise it looks at the three newest
   submitted attempts and reports a death spiral exactly when their scores
   strictly fall from the oldest to the newest.
   */
  lemma FocusOnNewestThree(db: Db, user: string)
    requires Wf(db)
    ensures var r := Recent(db.attempts, user, 3);
      && Focus(db, user).Ok?
      && (Focus(db, user) == Ok(NotEnoughData) <==> |r| < 3)
      && (|r| < 3 ==> forall j :: 0 <= j < |db.attempts| && Counted(db.attempts[j], user) ==> db.attempts[j] in r)
      && (|r| == 3 ==>
            && r[0].id > r[1].id > r[2].id
            && (forall j :: 0 <= j < |db.attempts| && Counted(db.attempts[j], user) && db.attempts[j] !in r ==>
                  db.attempts[j].id < r[2].id)
            && (Focus(db, user) == Ok(DeathSpiral) <==> r[2].score.value > r[1].score.value > r[0].score.value))
  {
    var r := Recent(db.attempts, user, 3);
    RecentNewestFirst(db.attempts, user, 3);
    RecentAreNewest(db.attempts, user, 3);
    forall i | 0 <= i < |r|
      ensures r[i].score.Some?
    {
      var j :| 0 <= j < |db.attempts| && db.attempts[j] == r[i];
      assert Consistent(db.attempts[j]);
    }
  }
}
