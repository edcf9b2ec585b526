/**
 * The question bank ("問題マスター" worksheet): columns [id, question,
 * option A .. option E, correct letters (comma-separated), selection mode],
 * row 0 being the header.
 */
module QuestionBank {
  import opened Text
  import opened Sheet

  /** The selection-mode cell that marks a multiple-answer question. */
  const MultipleMark: string := "複数選択"

  /** The number of option columns, A to E. */
  const OptionCount: nat := 5

  /**
   * One question. `options` always has five entries, an empty one being an
   * unused slot; `correct` holds the trimmed comma pieces of the answer column.
   */
  datatype Question = Question(id: string, text: string, options: seq<string>, correct: seq<string>, isMultiple: bool)

  /** The correct-answer column: trimmed comma pieces, or nothing when the column is absent. */
  function CorrectAnswers(row: Row): (r: seq<string>)
    ensures |row| <= 7 ==> r == []
    ensures |row| > 7 ==> |r| == |Split(row[7], ',')| >= 1
  {
    if |row| > 7 then
      var pieces := Split(row[7], ',');
      seq(|pieces|, k requires 0 <= k < |pieces| => Strip(pieces[k]))
    else []
  }

  /** Each correct answer is trimmed and free of commas. */
  lemma CorrectAnswersEntries(row: Row, k: nat)
    requires k < |CorrectAnswers(row)|
    ensures ',' !in CorrectAnswers(row)[k] && Stripped(CorrectAnswers(row)[k])
  {
    var pieces := Split(row[7], ',');
    StripIsStripped(pieces[k]);
    SplitNoSep(row[7], ',');
    assert pieces[k] in pieces;
    if ',' in CorrectAnswers(row)[k] {
      StripKeepsOnly(pieces[k], ',');
    }
  }

  /** An answer column that is present but blank yields one empty answer, not none. */
  lemma BlankAnswerColumn(row: Row)
    requires |row| > 7 && row[7] == ""
    ensures CorrectAnswers(row) == [""]
  {
    assert Split(row[7], ',') == [""];
  }

  /** The record built from one kept row; absent columns read as empty. */
  function ParseQuestion(row: Row): (q: Question)
    requires |row| > 0
    ensures q.id == row[0] && q.text == Cell(row, 1)
    ensures |q.options| == OptionCount
    ensures forall k :: 0 <= k < OptionCount ==> q.options[k] == Cell(row, k + 2)
    ensures q.isMultiple <==> |row| > 8 && row[8] == MultipleMark
    ensures q.correct == CorrectAnswers(row)
  {
    Question(row[0], Cell(row, 1),
             seq(OptionCount, k requires 0 <= k < OptionCount => Cell(row, k + 2)),
             CorrectAnswers(row),
             |row| > 8 && row[8] == MultipleMark)
  }

  /** The indices of the kept rows before `n`: ascending, header excluded, none missed. */
  function KeptUpTo(rows: seq<Row>, n: nat): (r: seq<nat>)
    requires n <= 1 || n <= |rows|
    ensures forall k :: 0 <= k < |r| ==> 1 <= r[k] < n && HasKey(rows[r[k]])
    ensures forall k, l :: 0 <= k < l < |r| ==> r[k] < r[l]
    ensures forall i :: 1 <= i < n && HasKey(rows[i]) ==> i in r
  {
    if n <= 1 then []
    else
      var r := KeptUpTo(rows, n - 1);
      if HasKey(rows[n - 1]) then r + [n - 1] else r
  }

  /** The indices of all kept rows. */
  function Kept(rows: seq<Row>): seq<nat>
  {
    KeptUpTo(rows, |rows|)
  }

  /** The questions of the kept rows before `n`, in row order. */
  function QuestionsUpTo(rows: seq<Row>, n: nat): seq<Question>
    requires n <= 1 || n <= |rows|
  {
    if n <= 1 then []
    else
      var qs := QuestionsUpTo(rows, n - 1);
      if HasKey(rows[n - 1]) then qs + [ParseQuestion(rows[n - 1])] else qs
  }

  /** The `k`-th question comes from the `k`-th kept row. */
  lemma {:induction false} QuestionsFromKeptRows(rows: seq<Row>, n: nat)
    requires n <= 1 || n <= |rows|
    ensures |QuestionsUpTo(rows, n)| == |KeptUpTo(rows, n)|
    ensures forall k :: 0 <= k < |KeptUpTo(rows, n)| ==>
              QuestionsUpTo(rows, n)[k] == ParseQuestion(rows[KeptUpTo(rows, n)[k]])
  {
    if n > 1 {
      QuestionsFromKeptRows(rows, n - 1);
    }
  }

  /** Reads the worksheet rows into the question list, one question per kept row, in row order. */
  method GetQuestions(rows: seq<Row>) returns (qs: seq<Question>)
    ensures |qs| == |Kept(rows)|
    ensures forall k :: 0 <= k < |qs| ==> qs[k] == ParseQuestion(rows[Kept(rows)[k]])
  {
    qs := [];
    var i := 1;
    while i < |rows|
      invariant 1 <= i && (i == 1 || i <= |rows|)
      invariant qs == QuestionsUpTo(rows, i)
    {
      var row := rows[i];
      if |row| > 0 && row[0] != "" {
        qs := qs + [ParseQuestion(row)];
      }
      i := i + 1;
    }
    QuestionsFromKeptRows(rows, i);
    assert i == 1 ==> KeptUpTo(rows, i) == [] == Kept(rows);
  }

  /** Questions keep the order of their rows: an earlier kept row gives an earlier question. */
  lemma QuestionOrder(rows: seq<Row>, qs: seq<Question>, i: nat, j: nat)
    requires |qs| == |Kept(rows)|
    requires forall k :: 0 <= k < |qs| ==> qs[k] == ParseQuestion(rows[Kept(rows)[k]])
    requires 1 <= i < j < |rows| && HasKey(rows[i]) && HasKey(rows[j])
    ensures exists p, q :: 0 <= p < q < |qs| && qs[p] == ParseQuestion(rows[i]) && qs[q] == ParseQuestion(rows[j])
  {
    var ks := Kept(rows);
    var p :| 0 <= p < |ks| && ks[p] == i;
    var q :| 0 <= q < |ks| && ks[q] == j;
    assert qs[p] == ParseQuestion(rows[i]) && qs[q] == ParseQuestion(rows[j]);
  }
}
