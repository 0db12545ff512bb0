/**
 The exam router: starting an attempt, submitting it, reading its results once
 the analysis delay has passed, and the daily focus trend. Each endpoint is a
 function of the database value and returns the new database value with either
 a response or the error it raises. The clock reading `now` and the random
 choices are parameters.
 */
module Exams {
  import opened Wrappers
  import opened Models
  import opened Services
  import opened Scoring

  /** How long an attempt may run before a submission counts as late (2 minutes). */
  const ExamDuration: int := 120

  /** How long after submission the results stay locked (2 hours). */
  const AnalysisDelay: int := 7200

  /** The errors the endpoints raise; `InternalError` stands for an uncaught exception. */
  datatype ExamError =
    | ActiveExamExists
    | ExamNotFound
    | AlreadySubmitted
    | NotSubmittedYet
    | AnalysisLocked
    | InternalError

  /** The database after a call, and what the call answered. */
  datatype Outcome<T> = Outcome(db: Db, result: Result<T, ExamError>)

  /** The random decision for one bank question: show it as is, or show a variation of it. */
  datatype Choice = Keep | Mutate(trap: TrapPick)

  /**
   Which table an entry shown to the user comes from. Only `id` goes over the
   wire; the table is recorded so that properties can talk about it.
   */
  datatype ItemRef = QuestionItem(id: int) | VariationItem(id: int)

  /** One question as shown to the user when an exam starts. */
  datatype Entry = Entry(ref: ItemRef, content: string, options: seq<string>)

  datatype StartResponse = StartResponse(examId: int, endTime: int, questions: seq<Entry>)

  /** One answer of a submission: the id shown to the user and the option chosen. */
  datatype Answer = Answer(id: int, selected: string)

  /** The response to a submission, together with the mistake records it logs. */
  datatype SubmitReport = SubmitReport(score: int, flagged: bool, mistakes: seq<MistakeLog>)

  datatype ResultView = ResultView(score: Option<int>, flagged: bool)

  datatype FocusStatus = NotEnoughData | DeathSpiral | Stable

  // ---------------------------------------------------------------- start

  /** The user has an attempt without a submission time. */
  predicate HasActive(attempts: seq<Attempt>, user: string) {
    exists i :: 0 <= i < |attempts| && attempts[i].userId == user && attempts[i].Active()
  }

  /** The variation row inserted for question `q` under key `id`. */
  function MakeVariation(id: int, q: Question, trap: TrapPick): (v: Variation)
    requires |q.options| > 0
    ensures v.id == id && v.sourceQuestionId == q.id
    ensures v.correctOption == q.correctOption
    ensures v.content == q.content + CarefulSuffix
    ensures v.options == SwapFirstTwo(q.options) && v.trapOption == v.options[0]
    ensures v.mistakeTag == TrapTypes[trap] && v.explanation == VariationExplanation
  {
    var d := GenerateVariation(q, trap);
    Variation(id, q.id, d.content, d.options, d.correctOption, d.trapOption, d.mistakeTag, d.explanation)
  }

  /** Some question chosen for a variation has no options, so generating it raises. */
  predicate GenerationFails(qs: seq<Question>, cs: seq<Choice>)
    requires |qs| == |cs|
  {
    exists i :: 0 <= i < |qs| && cs[i].Mutate? && |qs[i].options| == 0
  }

  /** How many of the choices replace their question by a variation. */
  function MutateCount(cs: seq<Choice>): (n: nat)
    ensures n <= |cs|
    decreases |cs|
  {
    if |cs| == 0 then 0
    else (if cs[0].Mutate? then 1 else 0) + MutateCount(cs[1..])
  }

  /** Counting the choices of a prefix one at a time from the front. */
  lemma MutateCountPrefix(cs: seq<Choice>, i: nat)
    requires 1 <= i <= |cs|
    ensures MutateCount(cs[..i]) == (if cs[0].Mutate? then 1 else 0) + MutateCount(cs[1..][..i - 1])
  {
    assert cs[..i][1..] == cs[1..][..i - 1];
  }

  /**
   How many questions the question loop gets through: the index of the first
   question chosen for a variation that has no options, or all of them.
   */
  function Processed(qs: seq<Question>, cs: seq<Choice>): (f: nat)
    requires |qs| == |cs|
    ensures f <= |qs|
    ensures forall i :: 0 <= i < f && cs[i].Mutate? ==> |qs[i].options| > 0
    ensures f < |qs| ==> cs[f].Mutate? && |qs[f].options| == 0
    decreases |qs|
  {
    if |qs| == 0 then 0
    else if cs[0].Mutate? && |qs[0].options| == 0 then 0
    else
      assert forall i :: 1 <= i < |qs| ==> qs[1..][i - 1] == qs[i] && cs[1..][i - 1] == cs[i];
      1 + Processed(qs[1..], cs[1..])
  }

  /**
   Entry `e` is what the user sees for question `q` under choice `c`: the question
   itself, or a variation of it stored in `vs`.
   */
  predicate Presents(q: Question, c: Choice, vs: seq<Variation>, e: Entry) {
    match c
    case Keep => e == Entry(QuestionItem(q.id), q.content, q.options)
    case Mutate(t) =>
      && |q.options| > 0
      && e.ref.VariationItem?
      && var v := MakeVariation(e.ref.id, q, t);
      && v in vs
      && e == Entry(VariationItem(v.id), v.content, v.options)
  }

  /** What the question loop of an exam start leaves behind. */
  datatype Presented = Presented(variations: seq<Variation>, entries: seq<Entry>, failed: bool)

  /**
   The question loop of an exam start: every question is shown as is or replaced
   by a freshly inserted variation. Each variation is committed as soon as it is
   made, so when generation raises part way the earlier ones stay in the table.
   */
  function Present(qs: seq<Question>, cs: seq<Choice>, vs: seq<Variation>): (p: Presented)
    requires |qs| == |cs|
    ensures |vs| <= |p.variations| && p.variations[..|vs|] == vs
    ensures !p.failed ==> |p.entries| == |qs|
    decreases |qs|
  {
    if |qs| == 0 then Presented(vs, [], false)
    else
      match cs[0]
      case Keep =>
        var rest := Present(qs[1..], cs[1..], vs);
        Presented(rest.variations, [Entry(QuestionItem(qs[0].id), qs[0].content, qs[0].options)] + rest.entries, rest.failed)
      case Mutate(t) =>
        if |qs[0].options| == 0 then Presented(vs, [], true)
        else
          var v := MakeVariation(NextId(VariationIds(vs)), qs[0], t);
          var rest := Present(qs[1..], cs[1..], vs + [v]);
          PrefixOfPrefix(rest.variations, vs, v);
          Presented(rest.variations, [Entry(VariationItem(v.id), v.content, v.options)] + rest.entries, rest.failed)
  }

  /** The question loop fails exactly when a question chosen for a variation has no options. */
  lemma {:induction false} PresentFailsExactly(qs: seq<Question>, cs: seq<Choice>, vs: seq<Variation>)
    requires |qs| == |cs|
    ensures Present(qs, cs, vs).failed <==> GenerationFails(qs, cs)
    decreases |qs|
  {
    if |qs| > 0 {
      assert forall i :: 1 <= i < |qs| ==> qs[1..][i - 1] == qs[i] && cs[1..][i - 1] == cs[i];
      match cs[0]
      case Keep =>
        PresentFailsExactly(qs[1..], cs[1..], vs);
      case Mutate(t) =>
        if |qs[0].options| > 0 {
          var v := MakeVariation(NextId(VariationIds(vs)), qs[0], t);
          PresentFailsExactly(qs[1..], cs[1..], vs + [v]);
        }
    }
  }

  /** When the question loop completes, entry `i` shows question `i`. */
  lemma {:induction false} PresentShowsEveryQuestion(qs: seq<Question>, cs: seq<Choice>, vs: seq<Variation>)
    requires |qs| == |cs|
    ensures var p := Present(qs, cs, vs);
      !p.failed ==> forall i :: 0 <= i < |qs| ==> Presents(qs[i], cs[i], p.variations, p.entries[i])
    decreases |qs|
  {
    if |qs| > 0 {
      assert forall i :: 1 <= i < |qs| ==> qs[1..][i - 1] == qs[i] && cs[1..][i - 1] == cs[i];
      var p := Present(qs, cs, vs);
      match cs[0]
      case Keep =>
        PresentShowsEveryQuestion(qs[1..], cs[1..], vs);
      case Mutate(t) =>
        if |qs[0].options| > 0 {
          var v := MakeVariation(NextId(VariationIds(vs)), qs[0], t);
          PresentShowsEveryQuestion(qs[1..], cs[1..], vs + [v]);
          PrefixOfPrefix(p.variations, vs, v);
        }
    }
  }

  /** Inserting variations keeps the table sorted by key. */
  lemma {:induction false} PresentKeepsKeysSorted(qs: seq<Question>, cs: seq<Choice>, vs: seq<Variation>)
    requires |qs| == |cs| && VariationsSorted(vs)
    ensures VariationsSorted(Present(qs, cs, vs).variations)
    decreases |qs|
  {
    if |qs| > 0 {
      match cs[0]
      case Keep =>
        PresentKeepsKeysSorted(qs[1..], cs[1..], vs);
      case Mutate(t) =>
        if |qs[0].options| > 0 {
          var v := MakeVariation(NextId(VariationIds(vs)), qs[0], t);
          NextIdGrows(vs, v);
          PresentKeepsKeysSorted(qs[1..], cs[1..], vs + [v]);
        }
    }
  }

  lemma PrefixOfPrefix<T>(s: seq<T>, vs: seq<T>, v: T)
    requires |vs| + 1 <= |s| && s[..|vs| + 1] == vs + [v]
    ensures s[..|vs|] == vs && s[|vs|] == v && v in s
  {
    assert s[..|vs|] == s[..|vs| + 1][..|vs|];
    assert s[|vs|] == s[..|vs| + 1][|vs|];
  }

  /**
   When every question is replaced by a variation, the variations of one start
   receive consecutive keys, starting at the next free key of the table.
   */
  lemma {:induction false} PresentAllMutated(qs: seq<Question>, cs: seq<Choice>, vs: seq<Variation>)
    requires |qs| == |cs|
    requires forall i :: 0 <= i < |qs| ==> cs[i].Mutate? && |qs[i].options| > 0
    ensures var p := Present(qs, cs, vs);
      && !p.failed
      && forall i :: 0 <= i < |qs| ==> p.entries[i].ref == VariationItem(NextId(VariationIds(vs)) + i)
  {
    var p := Present(qs, cs, vs);
    PresentCountsRows(qs, cs, vs);
    PresentInsertsInOrder(qs, cs, vs);
    assert Processed(qs, cs) == |qs|;
    forall i | 0 <= i < |qs|
      ensures p.entries[i].ref == VariationItem(NextId(VariationIds(vs)) + i)
    {
      AllMutatedCount(cs[..i]);
      assert InsertedInOrder(qs, cs, vs, p, i);
    }
  }

  /** When every choice replaces its question, every choice counts. */
  lemma {:induction false} AllMutatedCount(cs: seq<Choice>)
    requires forall i :: 0 <= i < |cs| ==> cs[i].Mutate?
    ensures MutateCount(cs) == |cs|
    decreases |cs|
  {
    if |cs| > 0 {
      assert forall i :: 1 <= i < |cs| ==> cs[1..][i - 1] == cs[i];
      AllMutatedCount(cs[1..]);
    }
  }

  /**
   The question loop fails exactly when it stops short of the end of the bank,
   and it inserts as many variations as it replaced questions before that point.
   */
  lemma {:induction false} PresentCountsRows(qs: seq<Question>, cs: seq<Choice>, vs: seq<Variation>)
    requires |qs| == |cs|
    ensures var p := Present(qs, cs, vs);
      && (p.failed <==> Processed(qs, cs) < |qs|)
      && |p.variations| == |vs| + MutateCount(cs[..Processed(qs, cs)])
    decreases |qs|
  {
    if |qs| > 0 {
      var f := Processed(qs, cs);
      match cs[0]
      case Keep =>
        PresentCountsRows(qs[1..], cs[1..], vs);
        MutateCountPrefix(cs, f);
      case Mutate(t) =>
        if |qs[0].options| > 0 {
          var v := MakeVariation(NextId(VariationIds(vs)), qs[0], t);
          PresentCountsRows(qs[1..], cs[1..], vs + [v]);
          MutateCountPrefix(cs, f);
        }
    }
  }

  /**
   Position `i` of the loop result holds the variation of `q` as the `n`-th row
   after the first `len` rows, under key `base + n`, and when the loop completes
   entry `i` shows that key.
   */
  predicate RowAt(len: nat, base: int, q: Question, t: TrapPick, n: nat, p: Presented, i: nat)
    requires |q.options| > 0
  {
    && len + n < |p.variations|
    && p.variations[len + n] == MakeVariation(base + n, q, t)
    && (!p.failed ==> i < |p.entries| && p.entries[i].ref == VariationItem(base + n))
  }

  /**
   The variation inserted for question `i` sits right after those of the earlier
   replaced questions, under the next consecutive key, and when the loop
   completes the entry of question `i` shows that key.
   */
  predicate InsertedInOrder(qs: seq<Question>, cs: seq<Choice>, vs: seq<Variation>, p: Presented, i: nat)
    requires |qs| == |cs| && i < Processed(qs, cs) && cs[i].Mutate?
  {
    RowAt(|vs|, NextId(VariationIds(vs)), qs[i], cs[i].trap, MutateCount(cs[..i]), p, i)
  }

  /** Every question the loop replaced before stopping has its variation, in bank order. */
  lemma {:induction false} PresentInsertsInOrder(qs: seq<Question>, cs: seq<Choice>, vs: seq<Variation>)
    requires |qs| == |cs|
    ensures forall i :: 0 <= i < Processed(qs, cs) && cs[i].Mutate? ==>
      InsertedInOrder(qs, cs, vs, Present(qs, cs, vs), i)
    decreases |qs|
  {
    if |qs| > 0 {
      match cs[0]
      case Keep =>
        PresentInsertsInOrder(qs[1..], cs[1..], vs);
        InsertedAfterKeep(qs, cs, vs);
      case Mutate(t) =>
        if |qs[0].options| > 0 {
          var v := MakeVariation(NextId(VariationIds(vs)), qs[0], t);
          PresentInsertsInOrder(qs[1..], cs[1..], vs + [v]);
          InsertedAfterMutate(qs, cs, vs);
        }
    }
  }

  /** The step of `PresentInsertsInOrder` past a first question shown as is. */
  lemma {:induction false} InsertedAfterKeep(qs: seq<Question>, cs: seq<Choice>, vs: seq<Variation>)
    requires |qs| == |cs| && |qs| > 0 && cs[0].Keep?
    requires forall i :: 0 <= i < Processed(qs[1..], cs[1..]) && cs[1..][i].Mutate? ==>
      InsertedInOrder(qs[1..], cs[1..], vs, Present(qs[1..], cs[1..], vs), i)
    ensures forall i :: 0 <= i < Processed(qs, cs) && cs[i].Mutate? ==>
      InsertedInOrder(qs, cs, vs, Present(qs, cs, vs), i)
  {
    var p := Present(qs, cs, vs);
    var rest := Present(qs[1..], cs[1..], vs);
    assert p.variations == rest.variations && p.failed == rest.failed && p.entries[1..] == rest.entries;
    forall i | 0 <= i < Processed(qs, cs) && cs[i].Mutate?
      ensures InsertedInOrder(qs, cs, vs, p, i)
    {
      assert qs[1..][i - 1] == qs[i] && cs[1..][i - 1] == cs[i];
      MutateCountPrefix(cs, i);
      assert InsertedInOrder(qs[1..], cs[1..], vs, rest, i - 1);
      RowAtShift(|vs|, NextId(VariationIds(vs)), qs[i], cs[i].trap, MutateCount(cs[..i]), p, rest, i, false);
    }
  }

  /** The step of `PresentInsertsInOrder` past a first question replaced by a variation. */
  lemma {:induction false} InsertedAfterMutate(qs: seq<Question>, cs: seq<Choice>, vs: seq<Variation>)
    requires |qs| == |cs| && |qs| > 0 && cs[0].Mutate? && |qs[0].options| > 0
    requires var v := MakeVariation(NextId(VariationIds(vs)), qs[0], cs[0].trap);
      forall i :: 0 <= i < Processed(qs[1..], cs[1..]) && cs[1..][i].Mutate? ==>
        InsertedInOrder(qs[1..], cs[1..], vs + [v], Present(qs[1..], cs[1..], vs + [v]), i)
    ensures forall i :: 0 <= i < Processed(qs, cs) && cs[i].Mutate? ==>
      InsertedInOrder(qs, cs, vs, Present(qs, cs, vs), i)
  {
    var p := Present(qs, cs, vs);
    match cs[0]
    case Keep =>
      assert false;
    case Mutate(t) =>
      var base := NextId(VariationIds(vs));
      var v := MakeVariation(base, qs[0], t);
      var rest := Present(qs[1..], cs[1..], vs + [v]);
      NextIdGrows(vs, v);
      PrefixOfPrefix(p.variations, vs, v);
      assert p.variations == rest.variations && p.failed == rest.failed && p.entries[1..] == rest.entries;
      assert Processed(qs, cs) == 1 + Processed(qs[1..], cs[1..]);
      forall i | 0 <= i < Processed(qs, cs) && cs[i].Mutate?
        ensures InsertedInOrder(qs, cs, vs, p, i)
      {
        if i == 0 {
          assert cs[..0] == [];
        } else {
          InsertedBehindFirst(qs, cs, vs, v, p, rest, i);
        }
      }
  }

  /** One position of `InsertedAfterMutate`, behind the first question's variation `v`. */
  lemma {:induction false} InsertedBehindFirst(qs: seq<Question>, cs: seq<Choice>, vs: seq<Variation>, v: Variation, p: Presented, rest: Presented, i: nat)
    requires |qs| == |cs| && |qs| > 0 && cs[0].Mutate?
    requires Processed(qs, cs) == 1 + Processed(qs[1..], cs[1..])
    requires 0 < i < Processed(qs, cs) && cs[i].Mutate?
    requires NextId(VariationIds(vs + [v])) == NextId(VariationIds(vs)) + 1
    requires p.variations == rest.variations && p.failed == rest.failed
    requires |p.entries| == |rest.entries| + 1 && p.entries[1..] == rest.entries
    requires InsertedInOrder(qs[1..], cs[1..], vs + [v], rest, i - 1)
    ensures InsertedInOrder(qs, cs, vs, p, i)
  {
    assert qs[1..][i - 1] == qs[i] && cs[1..][i - 1] == cs[i];
    MutateCountPrefix(cs, i);
    RowAtShift(|vs|, NextId(VariationIds(vs)), qs[i], cs[i].trap, MutateCount(cs[..i]) - 1, p, rest, i, true);
  }

  /**
   The step of `PresentInsertsInOrder`: one entry in front and, when the first
   question was replaced, one row and one key in front.
   */
  lemma {:induction false} RowAtShift(len: nat, base: int, q: Question, t: TrapPick, n: nat, p: Presented, rest: Presented, i: nat, mutated: bool)
    requires |q.options| > 0 && i > 0
    requires p.variations == rest.variations && p.failed == rest.failed
    requires |p.entries| == |rest.entries| + 1 && p.entries[1..] == rest.entries
    requires if mutated then RowAt(len + 1, base + 1, q, t, n, rest, i - 1) else RowAt(len, base, q, t, n, rest, i - 1)
    ensures RowAt(len, base, q, t, if mutated then n + 1 else n, p, i)
  {
    if !p.failed {
      assert p.entries[i] == rest.entries[i - 1];
    }
  }

  /**
   `after` is `before` followed by exactly one variation for each question
   replaced before the loop stopped, in bank order and under consecutive keys
   from the next free key of `before`.
   */
  predicate AddsOnePerMutate(qs: seq<Question>, cs: seq<Choice>, before: seq<Variation>, after: seq<Variation>)
    requires |qs| == |cs|
  {
    var f := Processed(qs, cs);
    var base := NextId(VariationIds(before));
    && |after| == |before| + MutateCount(cs[..f])
    && forall i :: 0 <= i < f && cs[i].Mutate? ==>
         var n := MutateCount(cs[..i]);
         && |before| + n < |after|
         && after[|before| + n] == MakeVariation(base + n, qs[i], cs[i].trap)
  }

  /** Every replaced question is shown under the key its variation was inserted with. */
  predicate ShowsInsertedKeys(qs: seq<Question>, cs: seq<Choice>, before: seq<Variation>, entries: seq<Entry>)
    requires |qs| == |cs|
  {
    && |entries| == |qs|
    && forall i :: 0 <= i < |qs| && cs[i].Mutate? ==>
         entries[i].ref == VariationItem(NextId(VariationIds(before)) + MutateCount(cs[..i]))
  }

  /**
   The question loop inserts one variation per question it replaced before
   stopping and nothing else; when it completes, the entries show their keys.
   */
  lemma {:induction false} PresentAddsOnePerMutate(qs: seq<Question>, cs: seq<Choice>, vs: seq<Variation>)
    requires |qs| == |cs|
    ensures var p := Present(qs, cs, vs);
      && AddsOnePerMutate(qs, cs, vs, p.variations)
      && (!p.failed ==> ShowsInsertedKeys(qs, cs, vs, p.entries))
  {
    PresentCountsRows(qs, cs, vs);
    PresentInsertsInOrder(qs, cs, vs);
    InsertedRows(qs, cs, vs, Present(qs, cs, vs));
    InsertedKeys(qs, cs, vs, Present(qs, cs, vs));
  }

  /** The rows part of `PresentAddsOnePerMutate`, read off position by position. */
  lemma {:induction false} InsertedRows(qs: seq<Question>, cs: seq<Choice>, vs: seq<Variation>, p: Presented)
    requires |qs| == |cs| && |p.variations| == |vs| + MutateCount(cs[..Processed(qs, cs)])
    requires forall i :: 0 <= i < Processed(qs, cs) && cs[i].Mutate? ==> InsertedInOrder(qs, cs, vs, p, i)
    ensures AddsOnePerMutate(qs, cs, vs, p.variations)
  {
    forall i | 0 <= i < Processed(qs, cs) && cs[i].Mutate?
      ensures |vs| + MutateCount(cs[..i]) < |p.variations|
      ensures p.variations[|vs| + MutateCount(cs[..i])] ==
        MakeVariation(NextId(VariationIds(vs)) + MutateCount(cs[..i]), qs[i], cs[i].trap)
    {
      assert InsertedInOrder(qs, cs, vs, p, i);
    }
  }

  /** The keys part of `PresentAddsOnePerMutate`, read off position by position. */
  lemma {:induction false} InsertedKeys(qs: seq<Question>, cs: seq<Choice>, vs: seq<Variation>, p: Presented)
    requires |qs| == |cs| && (p.failed <==> Processed(qs, cs) < |qs|)
    requires !p.failed ==> |p.entries| == |qs|
    requires forall i :: 0 <= i < Processed(qs, cs) && cs[i].Mutate? ==> InsertedInOrder(qs, cs, vs, p, i)
    ensures !p.failed ==> ShowsInsertedKeys(qs, cs, vs, p.entries)
  {
    if !p.failed {
      forall i | 0 <= i < |qs| && cs[i].Mutate?
        ensures p.entries[i].ref == VariationItem(NextId(VariationIds(vs)) + MutateCount(cs[..i]))
      {
        assert InsertedInOrder(qs, cs, vs, p, i);
      }
    }
  }

  /** Appending a row with the next key keeps the table sorted and moves the next key up. */
  lemma NextIdGrows(vs: seq<Variation>, v: Variation)
    requires v.id == NextId(VariationIds(vs))
    ensures VariationIds(vs + [v]) == VariationIds(vs) + [v.id]
    ensures NextId(VariationIds(vs + [v])) == v.id + 1
    ensures VariationsSorted(vs) ==> VariationsSorted(vs + [v])
  {
    var ids := VariationIds(vs + [v]);
    assert ids[..|vs|] == VariationIds(vs);
  }

  /**
   Starts an exam for `user` at time `now`. Refuses while the user has an active
   attempt; otherwise inserts a new attempt that ends two minutes later and
   shows every bank question, in bank order, as chosen by `choices`.
   */
  function Start(db: Db, user: string, now: int, choices: seq<Choice>): (o: Outcome<StartResponse>)
    requires |choices| == |db.questions|
    ensures HasActive(db.attempts, user) ==> o == Outcome(db, Err(ActiveExamExists))
    ensures !HasActive(db.attempts, user) ==>
      && o.db.questions == db.questions
      && |o.db.attempts| == |db.attempts| + 1
      && o.db.attempts[..|db.attempts|] == db.attempts
      && |db.variations| <= |o.db.variations|
      && o.db.variations[..|db.variations|] == db.variations
    ensures !HasActive(db.attempts, user) ==>
      var a := o.db.attempts[|db.attempts|];
      && (forall j :: 0 <= j < |db.attempts| ==> db.attempts[j].id < a.id)
      && a.userId == user
      && a.startedAt == now
      && a.endTime == now + ExamDuration
      && a.submittedAt.None? && a.analysisUnlocksAt.None? && a.score.None? && !a.isFlagged
    ensures !HasActive(db.attempts, user) ==>
      AddsOnePerMutate(db.questions, choices, db.variations, o.db.variations)
    ensures o.result.Ok? <==> !HasActive(db.attempts, user) && !GenerationFails(db.questions, choices)
    ensures o.result.Err? && !HasActive(db.attempts, user) ==> o.result.error == InternalError
    ensures o.result.Ok? ==> ShowsInsertedKeys(db.questions, choices, db.variations, o.result.value.questions)
    ensures o.result.Ok? ==>
      var r := o.result.value;
      && r.examId == o.db.attempts[|db.attempts|].id
      && r.endTime == now + ExamDuration
      && |r.questions| == |db.questions|
      && forall i :: 0 <= i < |db.questions| ==>
           Presents(db.questions[i], choices[i], o.db.variations, r.questions[i])
  {
    if HasActive(db.attempts, user) then Outcome(db, Err(ActiveExamExists))
    else
      var exam := Attempt(NextId(AttemptIds(db.attempts)), user, now, now + ExamDuration, None, None, None, false);
      var p := Present(db.questions, choices, db.variations);
      PresentFailsExactly(db.questions, choices, db.variations);
      PresentShowsEveryQuestion(db.questions, choices, db.variations);
      PresentAddsOnePerMutate(db.questions, choices, db.variations);
      var db' := Db(db.questions, p.variations, db.attempts + [exam]);
      assert db'.attempts[..|db.attempts|] == db.attempts;
      if p.failed then Outcome(db', Err(InternalError))
      else Outcome(db', Ok(StartResponse(exam.id, exam.endTime, p.entries)))
  }

  // ---------------------------------------------------------------- submit

  /** Attempt `examId` exists and has no submission time yet. */
  predicate Submittable(attempts: seq<Attempt>, examId: int) {
    Find(AttemptIds(attempts), examId).Some? && attempts[Find(AttemptIds(attempts), examId).value].Active()
  }

  /**
   Looks an answer id up among the bank questions first and among the
   variations only when no question has it.
   */
  function Resolve(db: Db, id: int): (k: Option<Key>)
    ensures (exists i :: 0 <= i < |db.questions| && db.questions[i].id == id) ==>
      exists i :: 0 <= i < |db.questions| && db.questions[i].id == id &&
        k == Some(Key(db.questions[i].correctOption, db.questions[i].mistakeType))
    ensures (forall i :: 0 <= i < |db.questions| ==> db.questions[i].id != id) ==>
      (k.None? <==> forall j :: 0 <= j < |db.variations| ==> db.variations[j].id != id)
    ensures (forall i :: 0 <= i < |db.questions| ==> db.questions[i].id != id) && k.Some? ==>
      exists j :: 0 <= j < |db.variations| && db.variations[j].id == id &&
        k == Some(Key(db.variations[j].correctOption, db.variations[j].mistakeTag))
  {
    match Find(QuestionIds(db.questions), id)
    case Some(i) => Some(Key(db.questions[i].correctOption, db.questions[i].mistakeType))
    case None =>
      match Find(VariationIds(db.variations), id)
      case Some(j) => Some(Key(db.variations[j].correctOption, db.variations[j].mistakeTag))
      case None => None
  }

  /** Pairs every answer with what its id resolves to. */
  function ResolveAll(db: Db, answers: seq<Answer>): (js: seq<Judged>)
    ensures |js| == |answers|
    ensures forall i :: 0 <= i < |answers| ==>
      js[i] == Judged(answers[i].id, answers[i].selected, Resolve(db, answers[i].id))
  {
    seq(|answers|, i requires 0 <= i < |answers| => Judged(answers[i].id, answers[i].selected, Resolve(db, answers[i].id)))
  }

  /**
   What a successful submission of exam `examId` at time `now` reporting `r`
   writes: the attempt stored under that key gets the submission time, the time
   its analysis unlocks, the score and the late flag (set when it was already
   flagged or `now` is past its end time); every other row of every table stays
   as it was; and every mistake record carries the attempt's user.
   */
  predicate Recorded(db: Db, db': Db, examId: int, r: SubmitReport, now: int) {
    && Find(AttemptIds(db.attempts), examId).Some?
    && var k := Find(AttemptIds(db.attempts), examId).value;
    && var a := db.attempts[k];
    && db'.questions == db.questions
    && db'.variations == db.variations
    && |db'.attempts| == |db.attempts|
    && (forall j :: 0 <= j < |db.attempts| && j != k ==> db'.attempts[j] == db.attempts[j])
    && db'.attempts[k] == a.(submittedAt := Some(now), analysisUnlocksAt := Some(now + AnalysisDelay),
                             score := Some(r.score), isFlagged := r.flagged)
    && (r.flagged <==> a.isFlagged || now > a.endTime)
    && (forall m :: m in r.mistakes ==> m.userId == a.userId)
  }

  /**
   The submission of exam `examId` at time `now` once every answer has been
   resolved: refuses an unknown or already submitted attempt (leaving the
   database as it was), and otherwise records the submission time, the score,
   the late flag and the time at which the analysis unlocks.
   */
  function SubmitResolved(db: Db, examId: int, js: seq<Judged>, now: int): (o: Outcome<SubmitReport>)
    ensures Find(AttemptIds(db.attempts), examId).None? ==> o == Outcome(db, Err(ExamNotFound))
    ensures Find(AttemptIds(db.attempts), examId).Some? ==>
      var k := Find(AttemptIds(db.attempts), examId).value;
      var a := db.attempts[k];
      && (!a.Active() ==> o == Outcome(db, Err(AlreadySubmitted)))
      && (a.Active() ==>
        && o.result.Ok?
        && o.db.questions == db.questions
        && o.db.variations == db.variations
        && |o.db.attempts| == |db.attempts|
        && (forall j :: 0 <= j < |db.attempts| && j != k ==> o.db.attempts[j] == db.attempts[j])
        && var a' := o.db.attempts[k];
        && var r := o.result.value;
        && a'.id == a.id && a'.userId == a.userId
        && a'.startedAt == a.startedAt && a'.endTime == a.endTime
        && a'.submittedAt == Some(now)
        && a'.analysisUnlocksAt == Some(now + AnalysisDelay)
        && a'.score == Some(r.score)
        && a'.isFlagged == r.flagged
        && (r.flagged <==> a.isFlagged || now > a.endTime)
        && r.score == |RightIndices(js)|
        && r.score + |r.mistakes| == |ResolvedIndices(js)|
        && r.mistakes == Grade(a.userId, js).mistakes)
    ensures o.result.Ok? ==> Recorded(db, o.db, examId, o.result.value, now)
  {
    match Find(AttemptIds(db.attempts), examId)
    case None => Outcome(db, Err(ExamNotFound))
    case Some(k) =>
      var a := db.attempts[k];
      if !a.Active() then Outcome(db, Err(AlreadySubmitted))
      else
        var flagged := if now > a.endTime then true else a.isFlagged;
        var g := Grade(a.userId, js);
        var a' := a.(submittedAt := Some(now), analysisUnlocksAt := Some(now + AnalysisDelay),
                     score := Some(g.score), isFlagged := flagged);
        Outcome(db.(attempts := db.attempts[k := a']), Ok(SubmitReport(g.score, flagged, g.mistakes)))
  }

  /**
   Submits the answers of exam `examId` at time `now`. The answers are scored in
   order by exact match against the option the id resolves to; ids that resolve
   to nothing are skipped.
   */
  function Submit(db: Db, examId: int, answers: seq<Answer>, now: int): (o: Outcome<SubmitReport>)
    ensures o.result.Ok? ==>
      var r := o.result.value;
      && 0 <= r.score <= |answers|
      && r.score == |set i | 0 <= i < |answers| && IsRight(Judged(answers[i].id, answers[i].selected, Resolve(db, answers[i].id)))|
      && r.score + |r.mistakes| == |set i | 0 <= i < |answers| && Resolve(db, answers[i].id).Some?|
    ensures o.result.Ok? ==> forall i :: 0 <= i < |answers| ==>
      var j := Judged(answers[i].id, answers[i].selected, Resolve(db, answers[i].id));
      IsWrong(j) ==>
        exists m :: m in o.result.value.mistakes && m.questionId == j.id &&
          m.selectedOption == j.selected && m.correctOption == j.key.value.correct &&
          m.mistakeType == j.key.value.mistakeType
    ensures o.result.Ok? <==> Submittable(db.attempts, examId)
    ensures o.result.Err? ==> o.db == db
    ensures o.result.Ok? ==> Recorded(db, o.db, examId, o.result.value, now)
  {
    var js := ResolveAll(db, answers);
    var o := SubmitResolved(db, examId, js, now);
    if o.result.Ok? then
      assert RightIndices(js) == set i | 0 <= i < |answers| && IsRight(Judged(answers[i].id, answers[i].selected, Resolve(db, answers[i].id)));
      assert ResolvedIndices(js) == set i | 0 <= i < |answers| && Resolve(db, answers[i].id).Some?;
      var k := Find(AttemptIds(db.attempts), examId).value;
      GradeMistakes(db.attempts[k].userId, js);
      o
    else o
  }

  // ---------------------------------------------------------------- results

  /**
   The results of exam `examId` read at time `now`: only for a submitted attempt,
   and only once its unlock time has been reached.
   */
  function Results(db: Db, examId: int, now: int): (r: Result<ResultView, ExamError>)
    ensures Find(AttemptIds(db.attempts), examId).None? ==> r == Err(ExamNotFound)
    ensures Find(AttemptIds(db.attempts), examId).Some? ==>
      var a := db.attempts[Find(AttemptIds(db.attempts), examId).value];
      && (a.Active() ==> r == Err(NotSubmittedYet))
      && (!a.Active() ==>
            (r == Err(AnalysisLocked) <==> a.analysisUnlocksAt.Some? && now < a.analysisUnlocksAt.value))
      && (r.Ok? <==> !a.Active() && (a.analysisUnlocksAt.None? || a.analysisUnlocksAt.value <= now))
      && (r.Ok? ==> r.value == ResultView(a.score, a.isFlagged))
  {
    match Find(AttemptIds(db.attempts), examId)
    case None => Err(ExamNotFound)
    case Some(k) =>
      var a := db.attempts[k];
      if a.Active() then Err(NotSubmittedYet)
      else if a.analysisUnlocksAt.Some? && now < a.analysisUnlocksAt.value then Err(AnalysisLocked)
      else Ok(ResultView(a.score, a.isFlagged))
  }

  // ---------------------------------------------------------------- focus

  /** A submitted attempt of `user`: the ones the focus trend looks at. */
  predicate Counted(a: Attempt, user: string) {
    a.userId == user && a.submittedAt.Some?
  }

  /**
   The (at most) `k` submitted attempts of `user` with the highest keys, newest
   first, as `order_by(id.desc()).limit(k)` returns them.
   */
  function Recent(s: seq<Attempt>, user: string, k: nat): (r: seq<Attempt>)
    ensures |r| <= k
    ensures forall i :: 0 <= i < |r| ==> r[i] in s && Counted(r[i], user)
    decreases |s|
  {
    if |s| == 0 || k == 0 then []
    else
      var n := |s| - 1;
      var rest := if Counted(s[n], user) then Recent(s[..n], user, k - 1) else Recent(s[..n], user, k);
      assert forall x :: x in s[..n] ==> x in s;
      if Counted(s[n], user) then [s[n]] + rest else rest
  }

  /** Everything `Recent` picks from a sorted prefix is older than the row after it. */
  lemma RecentOfPrefixIsOlder(s: seq<Attempt>, user: string, k: nat)
    requires AttemptsSorted(s) && |s| > 0
    ensures forall x :: x in Recent(s[..|s| - 1], user, k) ==> x.id < s[|s| - 1].id
  {
    var n := |s| - 1;
    forall x | x in Recent(s[..n], user, k)
      ensures x.id < s[n].id
    {
      var j :| 0 <= j < n && s[..n][j] == x;
    }
  }

  /** Attempts listed newest first. */
  predicate NewestFirst(r: seq<Attempt>) {
    forall i, j :: 0 <= i < j < |r| ==> r[i].id > r[j].id
  }

  lemma ConsNewestFirst(x: Attempt, rest: seq<Attempt>)
    requires NewestFirst(rest) && forall y :: y in rest ==> y.id < x.id
    ensures NewestFirst([x] + rest)
  {
    var r := [x] + rest;
    forall i, j | 0 <= i < j < |r|
      ensures r[i].id > r[j].id
    {
      assert r[j] == rest[j - 1] && rest[j - 1] in rest;
      if i > 0 {
        assert r[i] == rest[i - 1];
      }
    }
  }

  /** In a table sorted by key, `Recent` returns its attempts newest first. */
  lemma {:induction false} RecentNewestFirst(s: seq<Attempt>, user: string, k: nat)
    requires AttemptsSorted(s)
    ensures NewestFirst(Recent(s, user, k))
    decreases |s|
  {
    if |s| > 0 && k > 0 {
      var n := |s| - 1;
      var k' := if Counted(s[n], user) then k - 1 else k;
      RecentNewestFirst(s[..n], user, k');
      if Counted(s[n], user) {
        RecentOfPrefixIsOlder(s, user, k');
        ConsNewestFirst(s[n], Recent(s[..n], user, k'));
      }
    }
  }

  /**
   Every submitted attempt of the user in `s` that `r` leaves out is older than
   all `k` attempts of `r`.
   */
  predicate KeepsNewest(s: seq<Attempt>, user: string, k: nat, r: seq<Attempt>) {
    forall j :: 0 <= j < |s| && Counted(s[j], user) ==>
      s[j] in r || (|r| == k && (k == 0 || s[j].id < r[k - 1].id))
  }

  /** In a table sorted by key, `Recent` returns the `k` newest counted attempts. */
  lemma {:induction false} RecentAreNewest(s: seq<Attempt>, user: string, k: nat)
    requires AttemptsSorted(s)
    ensures KeepsNewest(s, user, k, Recent(s, user, k))
    decreases |s|
  {
    if |s| > 0 && k > 0 {
      var n := |s| - 1;
      var k' := if Counted(s[n], user) then k - 1 else k;
      RecentAreNewest(s[..n], user, k');
      KeepsNewestStep(s, user, k, Recent(s[..n], user, k'));
    }
  }

  /** The step of `RecentAreNewest`: the last row of the table is the newest. */
  lemma KeepsNewestStep(s: seq<Attempt>, user: string, k: nat, rest: seq<Attempt>)
    requires AttemptsSorted(s) && |s| > 0 && k > 0
    requires KeepsNewest(s[..|s| - 1], user, if Counted(s[|s| - 1], user) then k - 1 else k, rest)
    ensures KeepsNewest(s, user, k, if Counted(s[|s| - 1], user) then [s[|s| - 1]] + rest else rest)
  {
    var n := |s| - 1;
    var prefix := s[..n];
    var r := if Counted(s[n], user) then [s[n]] + rest else rest;
    forall j | 0 <= j < |s| && Counted(s[j], user)
      ensures s[j] in r || (|r| == k && (k == 0 || s[j].id < r[k - 1].id))
    {
      if j == n {
        assert r[0] == s[n];
      } else {
        assert prefix[j] == s[j];
        if Counted(s[n], user) {
          assert s[j].id < s[n].id;
          ConsKeepsNewest(s[j], s[n], rest, k);
        }
      }
    }
  }

  /** Putting a newer attempt in front of a newest-`k - 1` list gives a newest-`k` list. */
  lemma ConsKeepsNewest(x: Attempt, head: Attempt, rest: seq<Attempt>, k: nat)
    requires k > 0 && x.id < head.id
    requires x in rest || (|rest| == k - 1 && (k - 1 == 0 || x.id < rest[k - 2].id))
    ensures var r := [head] + rest;
      x in r || (|r| == k && x.id < r[k - 1].id)
  {
    var r := [head] + rest;
    if x !in rest {
      assert r[k - 1] == if k == 1 then head else rest[k - 2];
    }
  }

  /** Python's `<` on two nullable scores: comparing with None raises. */
  function Less(a: Option<int>, b: Option<int>): (r: Result<bool, ExamError>)
    ensures r.Ok? <==> a.Some? && b.Some?
    ensures r.Ok? ==> (r.value <==> a.value < b.value)
  {
    if a.Some? && b.Some? then Ok(a.value < b.value) else Err(InternalError)
  }

  /**
   The focus trend of `user`: too little data below three submitted attempts;
   otherwise a death spiral when the three newest scores strictly fall from the
   oldest to the newest, and stable in every other case. The chained comparison
   stops after its first false link.
   */
  function Focus(db: Db, user: string): (r: Result<FocusStatus, ExamError>)
    ensures |Recent(db.attempts, user, 3)| < 3 <==> r == Ok(NotEnoughData)
    ensures |Recent(db.attempts, user, 3)| == 3 ==>
      var s := Recent(db.attempts, user, 3);
      && (r == Ok(DeathSpiral) <==>
            && s[0].score.Some? && s[1].score.Some? && s[2].score.Some?
            && s[0].score.value < s[1].score.value < s[2].score.value)
      && (r == Ok(Stable) <==>
            && s[0].score.Some? && s[1].score.Some?
            && (s[1].score.value <= s[0].score.value
                || (s[2].score.Some? && s[2].score.value <= s[1].score.value)))
      && (r.Err? <==> s[0].score.None? || s[1].score.None?
                      || (s[0].score.value < s[1].score.value && s[2].score.None?))
  {
    var recent := Recent(db.attempts, user, 3);
    if |recent| < 3 then Ok(NotEnoughData)
    else
      match Less(recent[0].score, recent[1].score)
      case Err(e) => Err(e)
      case Ok(first) =>
        if !first then Ok(Stable)
        else
          match Less(recent[1].score, recent[2].score)
          case Err(e) => Err(e)
          case Ok(second) => Ok(if second then DeathSpiral else Stable)
  }
}
