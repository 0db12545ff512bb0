/**
 The scoring loop of exam submission, separated from how answer ids are looked
 up: each answer arrives already paired with the key its id resolved to.
 */
module Scoring {
  import opened Wrappers
  import opened Models

  /** What an answer id resolved to: the option that is correct and the mistake type to log. */
  datatype Key = Key(correct: string, mistakeType: string)

  /** One submitted answer with the key its id resolved to; `None` means the id matched nothing. */
  datatype Judged = Judged(id: int, selected: string, key: Option<Key>)

  /** The score of a submission and the mistake records it emits, in answer order. */
  datatype Graded = Graded(score: nat, mistakes: seq<MistakeLog>)

  /** The selected option matches the correct option exactly. */
  predicate IsRight(j: Judged) {
    j.key.Some? && j.selected == j.key.value.correct
  }

  predicate IsWrong(j: Judged) {
    j.key.Some? && j.selected != j.key.value.correct
  }

  /** The mistake record logged for a wrong answer of `user`. */
  function LogOf(user: string, j: Judged): MistakeLog
    requires j.key.Some?
  {
    MistakeLog(user, j.id, j.selected, j.key.value.correct, j.key.value.mistakeType)
  }

  /** Positions of the answers that score a point. */
  function RightIndices(js: seq<Judged>): set<int> {
    set i | 0 <= i < |js| && IsRight(js[i])
  }

  /** Positions of the answers whose id resolved to a question or variation. */
  function ResolvedIndices(js: seq<Judged>): set<int> {
    set i | 0 <= i < |js| && js[i].key.Some?
  }

  lemma IndicesSplitLast(js: seq<Judged>)
    requires |js| > 0
    ensures var n := |js| - 1;
      && RightIndices(js) == RightIndices(js[..n]) + (if IsRight(js[n]) then {n} else {})
      && n !in RightIndices(js[..n])
      && ResolvedIndices(js) == ResolvedIndices(js[..n]) + (if js[n].key.Some? then {n} else {})
      && n !in ResolvedIndices(js[..n])
  {
  }

  /** When every answer resolves, every position is a resolved one. */
  lemma {:induction false} AllResolved(js: seq<Judged>)
    requires forall i :: 0 <= i < |js| ==> js[i].key.Some?
    ensures |ResolvedIndices(js)| == |js|
  {
    if |js| > 0 {
      IndicesSplitLast(js);
      AllResolved(js[..|js| - 1]);
    }
  }

  /**
   Walks the answers in order: a resolved answer whose selection equals the
   correct option scores one point, any other resolved answer emits one mistake
   record, and an unresolved one is skipped.
   */
  function Grade(user: string, js: seq<Judged>): (g: Graded)
    ensures g.score == |RightIndices(js)|
    ensures g.score + |g.mistakes| == |ResolvedIndices(js)|
    ensures g.score <= |js|
    ensures forall m :: m in g.mistakes ==> m.userId == user
  {
    if |js| == 0 then Graded(0, [])
    else
      var n := |js| - 1;
      var g := Grade(user, js[..n]);
      IndicesSplitLast(js);
      if IsRight(js[n]) then Graded(g.score + 1, g.mistakes)
      else if IsWrong(js[n]) then Graded(g.score, g.mistakes + [LogOf(user, js[n])])
      else g
  }

  /**
   The mistake records are exactly the records of the wrong answers: every record
   comes from a wrong answer, and every wrong answer has its record.
   */
  lemma {:induction false} GradeMistakes(user: string, js: seq<Judged>)
    ensures forall m :: m in Grade(user, js).mistakes ==>
      exists i :: 0 <= i < |js| && IsWrong(js[i]) && m == LogOf(user, js[i])
    ensures forall i :: 0 <= i < |js| && IsWrong(js[i]) ==> LogOf(user, js[i]) in Grade(user, js).mistakes
  {
    if |js| > 0 {
      var n := |js| - 1;
      GradeMistakes(user, js[..n]);
      assert forall i :: 0 <= i < n ==> js[..n][i] == js[i];
    }
  }

  function Combine(g: Graded, h: Graded): Graded {
    Graded(g.score + h.score, g.mistakes + h.mistakes)
  }

  /** Grading a concatenation grades each part and adds up the results. */
  lemma {:induction false} GradeAppend(user: string, u: seq<Judged>, v: seq<Judged>)
    ensures Grade(user, u + v) == Combine(Grade(user, u), Grade(user, v))
    decreases |v|
  {
    if |v| == 0 {
      assert u + v == u;
    } else {
      var n := |v| - 1;
      assert (u + v)[..|u + v| - 1] == u + v[..n];
      assert (u + v)[|u + v| - 1] == v[n];
      GradeAppend(user, u, v[..n]);
    }
  }

  /** Removing a matching element from two permutations of each other leaves permutations. */
  lemma PermutationRemove<T>(a: seq<T>, b: seq<T>, i: nat)
    requires multiset(a) == multiset(b) && |a| > 0 && i < |b| && b[i] == a[|a| - 1]
    ensures multiset(a[..|a| - 1]) == multiset(b[..i] + b[i + 1..])
  {
    var x := a[|a| - 1];
    var a', b1, b2 := a[..|a| - 1], b[..i], b[i + 1..];
    assert a == a' + [x];
    assert b == b1 + [x] + b2;
    var A, B := multiset(a'), multiset(b1 + b2);
    assert multiset(a) == A + multiset{x};
    assert multiset(b) == B + multiset{x};
    assert A == (A + multiset{x}) - multiset{x};
  }

  /** Grading splits off the last answer. */
  lemma GradeLast(user: string, a: seq<Judged>)
    requires |a| > 0
    ensures Grade(user, a) == Combine(Grade(user, a[..|a| - 1]), Grade(user, [a[|a| - 1]]))
  {
    assert a == a[..|a| - 1] + [a[|a| - 1]];
    GradeAppend(user, a[..|a| - 1], [a[|a| - 1]]);
  }

  /** Grading with one answer taken out of the middle. */
  lemma GradeMiddle(user: string, b1: seq<Judged>, x: Judged, b2: seq<Judged>)
    ensures Grade(user, b1 + [x] + b2) == Combine(Combine(Grade(user, b1), Grade(user, [x])), Grade(user, b2))
    ensures Grade(user, b1 + b2) == Combine(Grade(user, b1), Grade(user, b2))
  {
    GradeAppend(user, b1 + [x], b2);
    GradeAppend(user, b1, [x]);
    GradeAppend(user, b1, b2);
  }

  /**
   The iteration order of the answers does not matter: any reordering gives the
   same score and the same mistake records.
   */
  lemma {:induction false} GradeOrderIndependent(user: string, a: seq<Judged>, b: seq<Judged>)
    requires multiset(a) == multiset(b)
    ensures Grade(user, a).score == Grade(user, b).score
    ensures multiset(Grade(user, a).mistakes) == multiset(Grade(user, b).mistakes)
    decreases |a|
  {
    if |a| == 0 {
      assert |b| == |multiset(b)| == 0;
    } else {
      var n := |a| - 1;
      var x := a[n];
      assert x in multiset(b);
      var i :| 0 <= i < |b| && b[i] == x;
      var b1, b2 := b[..i], b[i + 1..];
      assert b == b1 + [x] + b2;
      PermutationRemove(a, b, i);
      GradeOrderIndependent(user, a[..n], b1 + b2);
      GradeLast(user, a);
      GradeMiddle(user, b1, x, b2);
    }
  }
}
