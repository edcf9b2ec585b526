/**
 * Grading of a submitted exam (the loop run when "完了して採点" is pressed):
 * question `i` scores when the sorted answer list equals the sorted list of
 * correct answers, and the exam is passed only with every question right.
 */
module Grading {
  import opened QuestionBank

  /** Python's `<=` on `str`: lexicographic by code point, a prefix coming first. */
  predicate StrLe(a: string, b: string)
    decreases |a|
  {
    a == [] || (b != [] && (a[0] < b[0] || (a[0] == b[0] && StrLe(a[1..], b[1..]))))
  }

  lemma {:induction false} StrLeReflexive(a: string)
    ensures StrLe(a, a)
    decreases |a|
  {
    if a != [] {
      StrLeReflexive(a[1..]);
    }
  }

  lemma {:induction false} StrLeTotal(a: string, b: string)
    ensures StrLe(a, b) || StrLe(b, a)
    decreases |a|
  {
    if a != [] && b != [] && a[0] == b[0] {
      StrLeTotal(a[1..], b[1..]);
    }
  }

  lemma {:induction false} StrLeAntisymmetric(a: string, b: string)
    requires StrLe(a, b) && StrLe(b, a)
    ensures a == b
    decreases |a|
  {
    if a != [] {
      StrLeAntisymmetric(a[1..], b[1..]);
      assert a == [a[0]] + a[1..] && b == [b[0]] + b[1..];
    }
  }

  lemma {:induction false} StrLeTransitive(a: string, b: string, c: string)
    requires StrLe(a, b) && StrLe(b, c)
    ensures StrLe(a, c)
    decreases |a|
  {
    if a != [] && a[0] == b[0] && b[0] == c[0] {
      StrLeTransitive(a[1..], b[1..], c[1..]);
    }
  }

  /** `le` is a total order: reflexive, total, antisymmetric and transitive. */
  ghost predicate TotalOrder(le: (string, string) -> bool)
  {
    && (forall a :: le(a, a))
    && (forall a, b :: le(a, b) || le(b, a))
    && (forall a, b :: le(a, b) && le(b, a) ==> a == b)
    && (forall a, b, c :: le(a, b) && le(b, c) ==> le(a, c))
  }

  /** Python's string comparison is a total order. */
  lemma StrLeTotalOrder()
    ensures TotalOrder(StrLe)
  {
    forall a { StrLeReflexive(a); }
    forall a, b { StrLeTotal(a, b); }
    forall a, b | StrLe(a, b) && StrLe(b, a) { StrLeAntisymmetric(a, b); }
    forall a, b, c | StrLe(a, b) && StrLe(b, c) { StrLeTransitive(a, b, c); }
  }

  /** Every element is at most every later one. */
  predicate SortedBy(s: seq<string>, le: (string, string) -> bool)
  {
    forall i, j :: 0 <= i < j < |s| ==> le(s[i], s[j])
  }

  /** Inserts `x` before the first element it does not exceed. */
  function Insert(x: string, s: seq<string>, le: (string, string) -> bool): seq<string>
    decreases |s|
  {
    if s == [] then [x]
    else if le(x, s[0]) then [x] + s
    else [s[0]] + Insert(x, s[1..], le)
  }

  /** Insertion adds exactly one copy of `x`. */
  lemma {:induction false} InsertAdds(x: string, s: seq<string>, le: (string, string) -> bool)
    ensures multiset(Insert(x, s, le)) == multiset(s) + multiset{x}
    decreases |s|
  {
    if s != [] && !le(x, s[0]) {
      InsertAdds(x, s[1..], le);
      assert s == [s[0]] + s[1..];
    }
  }

  /** Inserting into a sorted list keeps it sorted. */
  lemma {:induction false} InsertSorted(x: string, s: seq<string>, le: (string, string) -> bool)
    requires TotalOrder(le) && SortedBy(s, le)
    ensures SortedBy(Insert(x, s, le), le)
    decreases |s|
  {
    if s == [] {
    } else if le(x, s[0]) {
      var r := [x] + s;
      forall i, j | 0 <= i < j < |r| ensures le(r[i], r[j]) {
        if i == 0 && j > 1 {
          assert le(s[0], s[j - 1]);
        }
      }
    } else {
      var rest := Insert(x, s[1..], le);
      InsertSorted(x, s[1..], le);
      var r := [s[0]] + rest;
      forall y | y in rest ensures le(s[0], y) {
        InsertFrom(x, s[1..], le, y);
        if y != x {
          var k :| 0 <= k < |s[1..]| && s[1..][k] == y;
          assert s[k + 1] == y;
        }
      }
      forall i, j | 0 <= i < j < |r| ensures le(r[i], r[j]) {
        if i == 0 {
          assert rest[j - 1] in rest;
        } else {
          assert r[i] == rest[i - 1] && r[j] == rest[j - 1];
        }
      }
    }
  }

  /** Every element of an insertion result is `x` or comes from `s`. */
  lemma InsertFrom(x: string, s: seq<string>, le: (string, string) -> bool, y: string)
    requires y in Insert(x, s, le)
    ensures y == x || y in s
  {
    InsertAdds(x, s, le);
    assert y in multiset(Insert(x, s, le));
  }

  /** Insertion sort under `le`. */
  function SortBy(s: seq<string>, le: (string, string) -> bool): seq<string>
    decreases |s|
  {
    if s == [] then [] else Insert(s[0], SortBy(s[1..], le), le)
  }

  /** Insertion sort returns a sorted rearrangement of its input. */
  lemma {:induction false} SortBySorts(s: seq<string>, le: (string, string) -> bool)
    requires TotalOrder(le)
    ensures SortedBy(SortBy(s, le), le)
    ensures multiset(SortBy(s, le)) == multiset(s)
    decreases |s|
  {
    if s != [] {
      SortBySorts(s[1..], le);
      InsertSorted(s[0], SortBy(s[1..], le), le);
      InsertAdds(s[0], SortBy(s[1..], le), le);
      assert s == [s[0]] + s[1..];
    }
  }

  /** The first element of a sorted list is at most each of its elements. */
  lemma SortedHeadLeast(s: seq<string>, le: (string, string) -> bool, y: string)
    requires TotalOrder(le) && SortedBy(s, le) && y in multiset(s)
    ensures le(s[0], y)
  {
    var i :| 0 <= i < |s| && s[i] == y;
  }

  /** Dropping the head keeps a list sorted. */
  lemma SortedTail(s: seq<string>, le: (string, string) -> bool)
    requires s != [] && SortedBy(s, le)
    ensures SortedBy(s[1..], le)
  {
    forall i, j | 0 <= i < j < |s| - 1 ensures le(s[1..][i], s[1..][j]) {
      assert s[1..][i] == s[i + 1] && s[1..][j] == s[j + 1];
    }
  }

  /** Two non-empty lists with the same head and the same elements have tails with the same elements. */
  lemma SameTails(a: seq<string>, b: seq<string>)
    requires a != [] && b != [] && a[0] == b[0] && multiset(a) == multiset(b)
    ensures multiset(a[1..]) == multiset(b[1..])
  {
    assert a == [a[0]] + a[1..] && b == [b[0]] + b[1..];
    assert multiset(a) == multiset{a[0]} + multiset(a[1..]);
    assert multiset(b) == multiset{a[0]} + multiset(b[1..]);
    forall y ensures multiset(a[1..])[y] == multiset(b[1..])[y] {
      assert multiset(a)[y] == multiset{a[0]}[y] + multiset(a[1..])[y];
      assert multiset(b)[y] == multiset{a[0]}[y] + multiset(b[1..])[y];
    }
  }

  /** Two sorted lists with the same elements, counted with multiplicity, are equal. */
  lemma {:induction false} SortedUnique(a: seq<string>, b: seq<string>, le: (string, string) -> bool)
    requires TotalOrder(le) && SortedBy(a, le) && SortedBy(b, le)
    requires multiset(a) == multiset(b)
    ensures a == b
    decreases |a|
  {
    if a != [] {
      assert |b| == |a| by {
        assert |b| == |multiset(b)| && |a| == |multiset(a)|;
      }
      SortedHeadLeast(a, le, b[0]);
      SortedHeadLeast(b, le, a[0]);
      assert a[0] == b[0];
      SameTails(a, b);
      SortedTail(a, le);
      SortedTail(b, le);
      SortedUnique(a[1..], b[1..], le);
      assert a == [a[0]] + a[1..] && b == [b[0]] + b[1..];
    }
  }

  /** Python's `sorted()` on a list of strings. */
  function Sort(s: seq<string>): seq<string>
  {
    SortBy(s, StrLe)
  }

  /** `sorted()` returns a list in ascending string order holding the input's elements. */
  lemma SortSorts(s: seq<string>)
    ensures SortedBy(Sort(s), StrLe)
    ensures multiset(Sort(s)) == multiset(s)
  {
    StrLeTotalOrder();
    SortBySorts(s, StrLe);
  }

  /** Sorting two lists gives the same list exactly when they hold the same elements, counted with multiplicity. */
  lemma SortEqualIffSameElements(a: seq<string>, b: seq<string>)
    ensures Sort(a) == Sort(b) <==> multiset(a) == multiset(b)
  {
    SortSorts(a);
    SortSorts(b);
    if multiset(a) == multiset(b) {
      StrLeTotalOrder();
      SortedUnique(Sort(a), Sort(b), StrLe);
    }
  }

  /** The option letters the exam page offers for every question. */
  const Letters: set<string> := {"A", "B", "C", "D", "E"}

  /** `answers.get(i, [])`: the selection recorded for question `i`, none if absent. */
  function AnswerOf(answers: map<nat, seq<string>>, i: nat): seq<string>
  {
    if i in answers then answers[i] else []
  }

  /** The comparison the grading loop makes for one question. */
  predicate IsCorrect(answer: seq<string>, q: Question)
  {
    Sort(answer) == Sort(q.correct)
  }

  /** A question is answered correctly exactly when the selection holds the correct answers, each as often. */
  lemma IsCorrectIffSameElements(answer: seq<string>, q: Question)
    ensures IsCorrect(answer, q) <==> multiset(answer) == multiset(q.correct)
  {
    SortEqualIffSameElements(answer, q.correct);
  }

  /** No partial credit: a selection that misses a correct answer, or adds one, scores nothing. */
  lemma PartialSelectionIsWrong(answer: seq<string>, q: Question)
    requires multiset(answer) < multiset(q.correct) || multiset(q.correct) < multiset(answer)
    ensures !IsCorrect(answer, q)
  {
    IsCorrectIffSameElements(answer, q);
  }

  /** An unanswered question scores only when its answer column is absent. */
  lemma UnansweredIsCorrectIffNoKey(q: Question)
    ensures IsCorrect([], q) <==> q.correct == []
  {
    IsCorrectIffSameElements([], q);
  }

  /** A question whose answer column is present but blank cannot be answered correctly from the letters. */
  lemma BlankKeyUnreachable(answer: seq<string>, q: Question)
    requires q.correct == [""]
    requires forall x :: x in answer ==> x in Letters
    ensures !IsCorrect(answer, q)
  {
    IsCorrectIffSameElements(answer, q);
    assert "" in multiset(q.correct);
    assert "" !in answer;
  }

  /** The number of correctly answered questions among the first `n`. */
  function CountCorrect(answers: map<nat, seq<string>>, qs: seq<Question>, n: nat): (c: nat)
    requires n <= |qs|
    ensures c <= n
  {
    if n == 0 then 0
    else CountCorrect(answers, qs, n - 1) + (if IsCorrect(AnswerOf(answers, n - 1), qs[n - 1]) then 1 else 0)
  }

  /** The number of indices below `n` that `ok` accepts, counted one at a time. */
  function CountWhere(ok: nat -> bool, n: nat): nat
  {
    if n == 0 then 0 else CountWhere(ok, n - 1) + (if ok(n - 1) then 1 else 0)
  }

  /** The indices below `n` that `ok` accepts. */
  ghost function Where(ok: nat -> bool, n: nat): set<nat>
  {
    set i: nat | i < n && ok(i)
  }

  /** Counting one at a time gives the size of the accepted set. */
  lemma {:induction false} CountWhereIsSize(ok: nat -> bool, n: nat)
    ensures CountWhere(ok, n) == |Where(ok, n)|
  {
    if n > 0 {
      CountWhereIsSize(ok, n - 1);
      var before := Where(ok, n - 1);
      assert n - 1 !in before;
      if ok(n - 1) {
        assert Where(ok, n) == before + {n - 1};
      } else {
        assert Where(ok, n) == before;
      }
    }
  }

  /** Whether question `i` is answered correctly; false past the last question. */
  function Verdict(answers: map<nat, seq<string>>, qs: seq<Question>): nat -> bool
  {
    (i: nat) => i < |qs| && IsCorrect(AnswerOf(answers, i), qs[i])
  }

  /** The grading count is the count of correct verdicts. */
  lemma {:induction false} CountCorrectByVerdict(answers: map<nat, seq<string>>, qs: seq<Question>, n: nat)
    requires n <= |qs|
    ensures CountCorrect(answers, qs, n) == CountWhere(Verdict(answers, qs), n)
  {
    if n > 0 {
      CountCorrectByVerdict(answers, qs, n - 1);
    }
  }

  /** The indices of the correctly answered questions among the first `n`. */
  ghost function CorrectIndices(answers: map<nat, seq<string>>, qs: seq<Question>, n: nat): set<nat>
    requires n <= |qs|
  {
    set i: nat | i < n && IsCorrect(AnswerOf(answers, i), qs[i])
  }

  /** The count is the number of correctly answered questions. */
  lemma CountIsNumberCorrect(answers: map<nat, seq<string>>, qs: seq<Question>, n: nat)
    requires n <= |qs|
    ensures CountCorrect(answers, qs, n) == |CorrectIndices(answers, qs, n)|
  {
    CountCorrectByVerdict(answers, qs, n);
    CountWhereIsSize(Verdict(answers, qs), n);
    assert CorrectIndices(answers, qs, n) == Where(Verdict(answers, qs), n);
  }

  /** Full marks exactly when every question is answered correctly. */
  lemma {:induction false} FullMarksIffAllCorrect(answers: map<nat, seq<string>>, qs: seq<Question>, n: nat)
    requires n <= |qs|
    ensures CountCorrect(answers, qs, n) == n <==> forall i :: 0 <= i < n ==> IsCorrect(AnswerOf(answers, i), qs[i])
  {
    if n > 0 {
      FullMarksIffAllCorrect(answers, qs, n - 1);
    }
  }

  /** Reordering the options inside any submitted answer leaves the score unchanged. */
  lemma {:induction false} ScoreIgnoresAnswerOrder(a: map<nat, seq<string>>, b: map<nat, seq<string>>, qs: seq<Question>, n: nat)
    requires n <= |qs|
    requires forall i :: 0 <= i < n ==> multiset(AnswerOf(a, i)) == multiset(AnswerOf(b, i))
    ensures CountCorrect(a, qs, n) == CountCorrect(b, qs, n)
  {
    if n > 0 {
      ScoreIgnoresAnswerOrder(a, b, qs, n - 1);
      SortEqualIffSameElements(AnswerOf(a, n - 1), AnswerOf(b, n - 1));
    }
  }

  /**
   * The grading loop: `score` counts the questions answered correctly,
   * `passed` holds exactly with full marks.
   */
  method Grade(answers: map<nat, seq<string>>, questions: seq<Question>)
    returns (score: nat, passed: bool, total: nat)
    ensures total == |questions|
    ensures score == CountCorrect(answers, questions, total)
    ensures passed <==> forall i :: 0 <= i < total ==> IsCorrect(AnswerOf(answers, i), questions[i])
    ensures passed <==> score == total
  {
    total := |questions|;
    score := 0;
    var i := 0;
    while i < |questions|
      invariant 0 <= i <= |questions|
      invariant score == CountCorrect(answers, questions, i)
    {
      var userAns := Sort(AnswerOf(answers, i));
      var correctAns := Sort(questions[i].correct);
      if userAns == correctAns {
        score := score + 1;
      }
      i := i + 1;
    }
    passed := score == total;
    FullMarksIffAllCorrect(answers, questions, total);
  }
}
