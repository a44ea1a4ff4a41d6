/** The data model of the `stackoverflow_analyzer` package: question types,
    questions and the survey container with its lookups. */
module Models {
  import opened Wrappers
  import opened Seqs
  import opened Frames

  datatype QuestionType = SingleChoice | MultipleChoice | Text | Numeric

  /** The enum member's `.value`. */
  function TypeValue(t: QuestionType): string
  {
    match t
    case SingleChoice => "SC"
    case MultipleChoice => "MC"
    case Text => "TEXT"
    case Numeric => "NUMERIC"
  }

  /** `QuestionType(v)`: the member with value `v`, if any. */
  function TypeOfValue(v: string): (r: Option<QuestionType>)
    ensures r.Some? ==> TypeValue(r.value) == v
    ensures (exists t :: TypeValue(t) == v) ==> r.Some?
  {
    if v == "SC" then Some(SingleChoice)
    else if v == "MC" then Some(MultipleChoice)
    else if v == "TEXT" then Some(Text)
    else if v == "NUMERIC" then Some(Numeric)
    else None
  }

  /** Distinct types have distinct values: the value names the type. */
  lemma TypeValueRoundTrip(t: QuestionType)
    ensures TypeOfValue(TypeValue(t)) == Some(t)
  {
  }

  datatype Question = Question(
    columnName: string,
    questionText: string,
    questionType: QuestionType,
    options: Option<seq<string>>,
    description: Option<string>)

  /** `str(question)`: "<column>: <text> (<type value>)". */
  function QuestionString(q: Question): (r: string)
    ensures |r| == |q.columnName| + |q.questionText| + |TypeValue(q.questionType)| + 5
    ensures r[..|q.columnName|] == q.columnName
    ensures r[|q.columnName|..|q.columnName| + 2] == ": "
    ensures r[|q.columnName| + 2..|q.columnName| + 2 + |q.questionText|] == q.questionText
    ensures r[|r| - |TypeValue(q.questionType)| - 3..] == " (" + TypeValue(q.questionType) + ")"
  {
    q.columnName + ": " + q.questionText + " (" + TypeValue(q.questionType) + ")"
  }

  datatype SurveyData = SurveyData(data: Table, questions: seq<Question>)

  /** `{q.column_name: q for q in questions}`: a later question with the same
      column name overwrites an earlier one. */
  function QuestionMap(qs: seq<Question>): map<string, Question>
    decreases |qs|
  {
    if |qs| == 0 then map[]
    else QuestionMap(qs[..|qs| - 1])[qs[|qs| - 1].columnName := qs[|qs| - 1]]
  }

  /** The position of the last question named `c`, or -1 when there is none. */
  function LastIndex(qs: seq<Question>, c: string): (i: int)
    ensures -1 <= i < |qs|
    ensures i >= 0 ==> qs[i].columnName == c
    ensures forall j :: i < j < |qs| ==> qs[j].columnName != c
    decreases |qs|
  {
    if |qs| == 0 then -1
    else if qs[|qs| - 1].columnName == c then |qs| - 1
    else LastIndex(qs[..|qs| - 1], c)
  }

  /** The map holds, under each name, the last question with that name. */
  lemma {:induction false} QuestionMapLast(qs: seq<Question>, c: string)
    ensures c in QuestionMap(qs) <==> LastIndex(qs, c) >= 0
    ensures c in QuestionMap(qs) ==> QuestionMap(qs)[c] == qs[LastIndex(qs, c)]
    decreases |qs|
  {
    if |qs| > 0 {
      QuestionMapLast(qs[..|qs| - 1], c);
    }
  }

  /** `survey.get_question(c)`: the last question named `c`, or `None` when
      no question has that name. */
  function GetQuestion(sd: SurveyData, c: string): (r: Option<Question>)
    ensures r.None? <==> forall i :: 0 <= i < |sd.questions| ==> sd.questions[i].columnName != c
    ensures r.Some? ==> (LastIndex(sd.questions, c) >= 0
      && r.value == sd.questions[LastIndex(sd.questions, c)]
      && r.value.columnName == c)
  {
    var m := QuestionMap(sd.questions);
    QuestionMapLast(sd.questions, c);
    if c in m then Some(m[c]) else None
  }

  /** With distinct column names, the question at position `i` is the one
      found under its own name. */
  lemma GetQuestionDistinct(sd: SurveyData, i: int)
    requires 0 <= i < |sd.questions|
    requires forall a, b :: 0 <= a < b < |sd.questions| ==>
      sd.questions[a].columnName != sd.questions[b].columnName
    ensures GetQuestion(sd, sd.questions[i].columnName) == Some(sd.questions[i])
  {
    var k := LastIndex(sd.questions, sd.questions[i].columnName);
  }

  function TypeMask(qs: seq<Question>, t: QuestionType): (keep: seq<bool>)
    ensures |keep| == |qs|
  {
    seq(|qs|, i requires 0 <= i < |qs| => qs[i].questionType == t)
  }

  /** `survey.get_questions_by_type(t)`: the questions of type `t`, in their
      catalog order. */
  function GetQuestionsByType(sd: SurveyData, t: QuestionType): (r: seq<Question>)
    ensures forall q :: q in r <==> q in sd.questions && q.questionType == t
    ensures |r| == |TruePositions(TypeMask(sd.questions, t))|
    ensures forall k :: 0 <= k < |r| ==> r[k] == sd.questions[TruePositions(TypeMask(sd.questions, t))[k]]
  {
    var qs := sd.questions;
    var keep := TypeMask(qs, t);
    SelectAt(qs, keep);
    forall q
      ensures q in Select(qs, keep) <==> q in qs && q.questionType == t
    {
      SelectMembership(qs, keep, q);
    }
    Select(qs, keep)
  }

  /** `survey.respondent_count`. */
  function RespondentCount(sd: SurveyData): nat
  {
    |sd.data.rows|
  }

  /** `survey.question_count`. */
  function QuestionCount(sd: SurveyData): nat
  {
    |sd.questions|
  }

  /** The number of questions of type `t` among `qs`, counted one question at
      a time. */
  function CountOfType(qs: seq<Question>, t: QuestionType): (n: nat)
    ensures n <= |qs|
    decreases |qs|
  {
    if |qs| == 0 then 0
    else CountOfType(qs[..|qs| - 1], t) + (if qs[|qs| - 1].questionType == t then 1 else 0)
  }

  /** Counting agrees with the length of the by-type list. */
  lemma {:induction false} CountOfTypeIsByType(qs: seq<Question>, t: QuestionType)
    ensures CountOfType(qs, t) == |GetQuestionsByType(SurveyData(Table([], {}, []), qs), t)|
    decreases |qs|
  {
    var sd := SurveyData(Table([], {}, []), qs);
    var keep := TypeMask(qs, t);
    if |qs| > 0 {
      var init := qs[..|qs| - 1];
      CountOfTypeIsByType(init, t);
      assert TypeMask(init, t) == keep[..|qs| - 1];
      SelectAt(init, TypeMask(init, t));
      SelectAt(qs, keep);
    } else {
      SelectAt(qs, keep);
    }
  }

  /** Every question has exactly one of the four types. */
  lemma {:induction false} TypeCountsPartition(qs: seq<Question>)
    ensures CountOfType(qs, SingleChoice) + CountOfType(qs, MultipleChoice)
      + CountOfType(qs, Text) + CountOfType(qs, Numeric) == |qs|
    decreases |qs|
  {
    if |qs| > 0 {
      TypeCountsPartition(qs[..|qs| - 1]);
    }
  }
}
