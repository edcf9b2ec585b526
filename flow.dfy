/**
 * The page flow of one browser session: the `page` field of the session
 * state selects the home, exam or result page, and the buttons on those
 * pages move it home -> exam -> result -> home (or exam -> home on "戻る").
 */
module Flow {
  import opened Sheet
  import opened Directory
  import opened QuestionBank
  import opened Targeting
  import opened Grading

  datatype Option<T> = None | Some(value: T)

  /** The three pages the dispatcher at the end of the app renders. */
  datatype Page = Home | Exam | Result

  /** The test-taker chosen on the home page, as the session stores them. */
  datatype Taker = Taker(name: string, email: string, dept: string, role: string)

  class Session {
    var page: Page
    /** `user_name`, `user_email`, `user_dept`, `user_role`; all `None` until an exam starts. */
    var taker: Option<Taker>
    var answers: map<nat, seq<string>>
    var score: nat
    var passed: bool
    var total: nat

    /** Off the home page a test-taker is chosen, and the result page shows a verdict that matches its score. */
    ghost predicate Valid()
      reads this
    {
      && (page != Home ==> taker.Some?)
      && score <= total
      && (page == Result ==> (passed <==> score == total))
    }

    /** The defaults a fresh session starts from. */
    constructor ()
      ensures Valid()
      ensures page == Home && taker == None && answers == map[]
      ensures score == 0 && !passed && total == 0
    {
      page := Home;
      taker := None;
      answers := map[];
      score := 0;
      passed := false;
      total := 0;
    }

    /** "学習を開始": records the chosen person, clears the answers and opens the exam page. */
    method StartExam(users: map<string, UserInfo>, selected: string)
      requires Valid() && page == Home
      requires selected in users
      modifies this
      ensures Valid()
      ensures page == Exam && answers == map[]
      ensures taker == Some(Taker(selected, users[selected].email, users[selected].deptStr, users[selected].role))
      ensures score == old(score) && passed == old(passed) && total == old(total)
    {
      var info := users[selected];
      taker := Some(Taker(selected, info.email, info.deptStr, info.role));
      page := Exam;
      answers := map[];
    }

    /** A widget on the exam page stores the selection for question `i`. */
    method RecordAnswer(i: nat, selection: seq<string>)
      requires Valid() && page == Exam
      modifies this
      ensures Valid()
      ensures answers == old(answers)[i := selection]
      ensures page == Exam && taker == old(taker)
      ensures score == old(score) && passed == old(passed) && total == old(total)
    {
      answers := answers[i := selection];
    }

    /** "戻る": back to the home page; answers, score and verdict stay as they were. */
    method Back()
      requires Valid() && page == Exam
      modifies this
      ensures Valid()
      ensures page == Home
      ensures taker == old(taker) && answers == old(answers)
      ensures score == old(score) && passed == old(passed) && total == old(total)
    {
      page := Home;
    }

    /**
     * "完了して採点": grades the recorded answers, computes who is notified
     * (with the department string the home page stored) and opens the
     * result page. The exam page fails on an empty question bank before
     * this button is drawn, so the bank is non-empty here.
     */
    method Submit(questions: seq<Question>, users: map<string, UserInfo>, matrix: seq<Row>)
      returns (notified: seq<string>)
      requires Valid() && page == Exam
      requires |questions| > 0
      modifies this
      ensures Valid()
      ensures page == Result && taker == old(taker) && answers == old(answers)
      ensures total == |questions|
      ensures score == CountCorrect(answers, questions, total)
      ensures passed <==> score == total
      ensures passed <==> forall i :: 0 <= i < total ==> IsCorrect(AnswerOf(answers, i), questions[i])
      ensures taker.value.role != "" ==> notified == []
      ensures NoDuplicates(notified)
      ensures forall e :: e in notified <==>
                && taker.value.role == "" && |matrix| >= 2
                && exists name :: name in users && users[name].email == e
                                  && Eligible(users[name], matrix, taker.value.dept, taker.value.email)
    {
      var s, p, t := Grade(answers, questions);
      var who := taker.value;
      notified := GetNotifyTargets(who.dept, who.role, who.email, users, matrix);
      score, passed, total := s, p, t;
      page := Result;
    }

    /** "終了": back to the home page from the result page. */
    method Finish()
      requires Valid() && page == Result
      modifies this
      ensures Valid()
      ensures page == Home
      ensures taker == old(taker) && answers == old(answers)
      ensures score == old(score) && passed == old(passed) && total == old(total)
    {
      page := Home;
    }
  }

  /** The answer map holding `picks[i]` for question `i`. */
  function AnswerMap(picks: seq<seq<string>>): map<nat, seq<string>>
  {
    map i: nat | i < |picks| :: picks[i]
  }

  /**
   * One visit: the home page starts the exam, the exam page stores one
   * selection per question, "完了して採点" grades them and "終了" returns
   * home; the score and verdict shown are those of the selections made.
   */
  method Round(users: map<string, UserInfo>, selected: string, questions: seq<Question>,
               matrix: seq<Row>, picks: seq<seq<string>>)
    returns (score: nat, passed: bool)
    requires selected in users
    requires |questions| > 0
    requires |picks| == |questions|
    ensures score == CountCorrect(AnswerMap(picks), questions, |questions|)
    ensures passed <==> score == |questions|
  {
    var session := new Session();
    session.StartExam(users, selected);
    var i := 0;
    while i < |questions|
      invariant 0 <= i <= |questions|
      invariant session.Valid() && session.page == Exam
      invariant session.answers == AnswerMap(picks[..i])
    {
      session.RecordAnswer(i, picks[i]);
      assert AnswerMap(picks[..i + 1]) == AnswerMap(picks[..i])[i := picks[i]];
      i := i + 1;
    }
    assert picks[..i] == picks;
    var _ := session.Submit(questions, users, matrix);
    session.Finish();
    score, passed := session.score, session.passed;
  }
}
