/** `stackoverflow_analyzer/analyzer.py`: the `StackOverflowAnalyzer` class.
    Its fields are set once by the constructor and never reassigned, so the
    analyzer is a value holding the loaded survey. */
module Analyzer {
  import opened Wrappers
  import opened Seqs
  import opened Strings
  import opened Frames
  import opened Models
  import opened Utils

  /** The analyzer; `self.data` and `self.questions` are the two parts of
      `surveyData`. */
  datatype Analyzer = Analyzer(surveyData: SurveyData)

  /** `StackOverflowAnalyzer(file_paths)`, given the frames that could be read. */
  method CreateAnalyzer(parts: seq<Table>) returns (r: Result<Analyzer, Error>)
    ensures |parts| == 0 ==> r == Err(NoDataLoaded)
    ensures |parts| > 0 ==> r == Ok(Analyzer(SurveyData(Concat(parts), Catalog(Concat(parts)))))
  {
    var loaded := LoadSurveyData(parts);
    match loaded
    case Err(e) => r := Err(e);
    case Ok(sd) => r := Ok(Analyzer(sd));
  }

  /** `search_question(search_term)`. */
  method SearchQuestion(a: Analyzer, term: string) returns (r: seq<Question>)
    ensures forall q :: q in r <==> q in a.surveyData.questions && QuestionMatches(q, term)
    ensures r == Select(a.surveyData.questions, SearchMask(a.surveyData.questions, term))
  {
    r := SearchQuestions(a.surveyData.questions, term);
    forall q
      ensures q in r <==> q in a.surveyData.questions && QuestionMatches(q, term)
    {
      SearchQuestionsMembership(a.surveyData.questions, term, q);
    }
  }

  /** `search_option(search_term)`. */
  function SearchOption(a: Analyzer, term: string): (r: seq<(Question, seq<string>)>)
    ensures forall k :: 0 <= k < |r| ==> r[k].0 in a.surveyData.questions && OptionMatches(r[k].0, term)
    ensures forall q :: q in a.surveyData.questions && OptionMatches(q, term) ==> exists k :: 0 <= k < |r| && r[k].0 == q
  {
    SearchOptions(a.surveyData.questions, term)
  }

  // ---------------------------------------------------------------------
  // create_subset

  /** A multiple-choice answer is selected when it is present and one of its
      stripped `;`-pieces is among the wanted values. */
  predicate TokenSelected(v: Cell, optionValues: seq<string>)
  {
    v != Null && AnyWanted(StrippedTokens(CellText(v)), optionValues)
  }

  /** `any(opt in option_values for opt in pieces)`. */
  predicate AnyWanted(pieces: seq<string>, optionValues: seq<string>)
  {
    exists t | t in pieces :: t in optionValues
  }

  /** `isin(option_values)` with a list of strings: only a string value equal
      to one of them is selected. */
  predicate ValueSelected(v: Cell, optionValues: seq<string>)
  {
    v.Str? && v.s in optionValues
  }

  /** The rows `create_subset` keeps for a question of type `qt`. */
  function SubsetMask(t: Table, column: string, qt: QuestionType, optionValues: seq<string>): (keep: seq<bool>)
    ensures |keep| == |t.rows|
  {
    seq(|t.rows|, i requires 0 <= i < |t.rows| =>
      var v := Get(t.rows[i], column);
      if qt == MultipleChoice then TokenSelected(v, optionValues) else ValueSelected(v, optionValues))
  }

  /** `create_subset(question_column, option_values)`. */
  method CreateSubset(a: Analyzer, column: string, optionValues: seq<string>) returns (r: Result<Table, Error>)
    ensures GetQuestion(a.surveyData, column).None? ==> r == Err(QuestionNotFound(column))
    ensures GetQuestion(a.surveyData, column).Some? && column !in a.surveyData.data.columns ==>
      r == Err(ColumnNotFound(column))
    ensures GetQuestion(a.surveyData, column).Some? && column in a.surveyData.data.columns ==>
      r == Ok(SelectRows(a.surveyData.data,
        SubsetMask(a.surveyData.data, column, GetQuestion(a.surveyData, column).value.questionType, optionValues)))
  {
    var question := GetQuestion(a.surveyData, column);
    if question.None? {
      return Err(QuestionNotFound(column));
    }
    var data := a.surveyData.data;
    if column !in data.columns {
      return Err(ColumnNotFound(column));
    }
    if question.value.questionType == MultipleChoice {
      var mask := MultipleChoiceMask(data, column, optionValues);
      r := Ok(SelectRows(data, mask));
    } else {
      r := Ok(SelectRows(data, SubsetMask(data, column, question.value.questionType, optionValues)));
    }
  }

  /** The multiple-choice mask, set one row at a time. */
  method MultipleChoiceMask(t: Table, column: string, optionValues: seq<string>) returns (keep: seq<bool>)
    ensures keep == SubsetMask(t, column, MultipleChoice, optionValues)
  {
    ghost var want := SubsetMask(t, column, MultipleChoice, optionValues);
    var mask := new bool[|t.rows|](_ => false);
    for idx := 0 to |t.rows|
      invariant mask[..idx] == want[..idx]
      invariant forall j :: idx <= j < |t.rows| ==> !mask[j]
    {
      var selected := RowSelected(Get(t.rows[idx], column), optionValues);
      ghost var before := mask[..idx];
      if selected {
        mask[idx] := true;
      }
      assert mask[..idx + 1] == before + [selected];
      MaskStep(t, column, optionValues, idx, selected);
    }
    keep := mask[..];
    assert keep == mask[..|t.rows|];
    assert want == want[..|t.rows|];
  }

  /** The mask of the first `i + 1` rows extends that of the first `i` by the
      test of row `i`. */
  lemma MaskStep(t: Table, column: string, optionValues: seq<string>, i: int, selected: bool)
    requires 0 <= i < |t.rows|
    requires selected == TokenSelected(Get(t.rows[i], column), optionValues)
    ensures SubsetMask(t, column, MultipleChoice, optionValues)[..i + 1]
      == SubsetMask(t, column, MultipleChoice, optionValues)[..i] + [selected]
  {
    var want := SubsetMask(t, column, MultipleChoice, optionValues);
    assert want[i] == selected;
  }

  /** One row's test in the multiple-choice mask. */
  method RowSelected(value: Cell, optionValues: seq<string>) returns (selected: bool)
    ensures selected == TokenSelected(value, optionValues)
  {
    selected := false;
    if value != Null {
      var responseOptions := StrippedTokens(CellText(value));
      if AnyWanted(responseOptions, optionValues) {
        selected := true;
      }
    }
  }

  /** The subset keeps every column, and its rows are the selected rows of
      the data in their original order. */
  lemma SubsetRows(t: Table, column: string, qt: QuestionType, optionValues: seq<string>)
    ensures var keep := SubsetMask(t, column, qt, optionValues);
      var s := SelectRows(t, keep);
      && s.columns == t.columns
      && |s.rows| == |TruePositions(keep)| <= |t.rows|
      && (forall k :: 0 <= k < |s.rows| ==> s.rows[k] == t.rows[TruePositions(keep)[k]])
      && (forall i :: 0 <= i < |t.rows| && keep[i] ==> t.rows[i] in s.rows)
  {
    var keep := SubsetMask(t, column, qt, optionValues);
    SelectAt(t.rows, keep);
    forall i | 0 <= i < |t.rows| && keep[i]
      ensures t.rows[i] in SelectRows(t, keep).rows
    {
      SelectMembership(t.rows, keep, t.rows[i]);
    }
  }

  /** The rows kept for a multiple-choice question are those whose answer
      has a stripped piece among the wanted values; for any other question,
      those whose answer is one of the wanted strings. */
  lemma SubsetSelection(t: Table, column: string, qt: QuestionType, optionValues: seq<string>, row: Row)
    ensures row in SelectRows(t, SubsetMask(t, column, qt, optionValues)).rows <==>
      exists i :: 0 <= i < |t.rows| && t.rows[i] == row
        && (if qt == MultipleChoice then TokenSelected(Get(row, column), optionValues)
            else ValueSelected(Get(row, column), optionValues))
  {
    SelectMembership(t.rows, SubsetMask(t, column, qt, optionValues), row);
  }

  /** In an analyzer built from frames, every question names a column of the
      data, so a subset request fails only for an unknown question. */
  lemma LoadedSubsetFailsOnlyForUnknownQuestion(parts: seq<Table>, column: string)
    ensures var sd := SurveyData(Concat(parts), Catalog(Concat(parts)));
      GetQuestion(sd, column).Some? ==> column in sd.data.columns
  {
    LoadedSurvey(parts, column);
  }

  // ---------------------------------------------------------------------
  // get_answer_distribution

  /** The dictionary `get_answer_distribution` returns. */
  datatype AnswerDistribution = AnswerDistribution(
    question: Question,
    totalResponses: nat,
    validResponses: nat,
    responseRate: real,
    distribution: map<Cell, nat>,
    percentages: map<Cell, real>)

  /** `count / valid_responses * 100`; never reached with no valid answer,
      since then there is nothing to count. */
  function Percentage(count: nat, valid: nat): real
  {
    if valid == 0 then 0.0 else (count as real) / (valid as real) * 100.0
  }

  /** Every counted answer's share of the valid answers, in percent. */
  function Percentages(counts: map<Cell, nat>, valid: nat): map<Cell, real>
  {
    map k | k in counts :: Percentage(counts[k], valid)
  }

  /** `valid_responses / total_responses * 100`, or 0 for an empty frame. */
  function ResponseRate(valid: nat, total: nat): real
  {
    if total > 0 then (valid as real) / (total as real) * 100.0 else 0.0
  }

  /** The counts of a column's answers: stripped pieces of the values holding
      a `;` for a multiple-choice question, whole present values otherwise. */
  function AnswerCounts(cells: seq<Cell>, qt: QuestionType): map<Cell, nat>
  {
    if qt == MultipleChoice then CountMap(StrCells(MultipleChoiceTokens(NonNull(cells))))
    else CountMap(NonNull(cells))
  }

  /** The statistics of `column` of `t` for question `q`. */
  function DistributionOf(q: Question, t: Table, column: string): AnswerDistribution
  {
    var cells := Column(t, column).cells;
    var total := |t.rows|;
    var valid := |NonNull(cells)|;
    var counts := AnswerCounts(cells, q.questionType);
    AnswerDistribution(q, total, valid, ResponseRate(valid, total), counts, Percentages(counts, valid))
  }

  /** `get_answer_distribution(question_column, subset_df)`. */
  method GetAnswerDistribution(a: Analyzer, column: string, subset: Option<Table>) returns (r: Result<AnswerDistribution, Error>)
    ensures var data := if subset.Some? then subset.value else a.surveyData.data;
      && (GetQuestion(a.surveyData, column).None? ==> r == Err(QuestionNotFound(column)))
      && (GetQuestion(a.surveyData, column).Some? && column !in data.columns ==> r == Err(ColumnNotFound(column)))
      && (GetQuestion(a.surveyData, column).Some? && column in data.columns ==>
            r == Ok(DistributionOf(GetQuestion(a.surveyData, column).value, data, column)))
  {
    var question := GetQuestion(a.surveyData, column);
    if question.None? {
      return Err(QuestionNotFound(column));
    }
    var q := question.value;
    var data := if subset.Some? then subset.value else a.surveyData.data;
    if column !in data.columns {
      return Err(ColumnNotFound(column));
    }
    var cells := Column(data, column).cells;
    var total := |data.rows|;
    var values := NonNull(cells);
    var valid := |values|;
    var counts: map<Cell, nat>;
    if q.questionType == MultipleChoice {
      var allOptions := CollectTokens(values);
      counts := CountMap(StrCells(allOptions));
    } else {
      counts := CountMap(values);
    }
    var percentages := Percentages(counts, valid);
    var rate := ResponseRate(valid, total);
    r := Ok(AnswerDistribution(q, total, valid, rate, counts, percentages));
  }

  /** The loop gathering the stripped pieces of the values that hold a `;`. */
  method CollectTokens(values: seq<Cell>) returns (allOptions: seq<string>)
    ensures allOptions == MultipleChoiceTokens(values)
  {
    allOptions := [];
    for i := 0 to |values|
      invariant allOptions == MultipleChoiceTokens(values[..i])
    {
      assert values[..i + 1][..i] == values[..i];
      var value := values[i];
      if ';' in CellText(value) {
        allOptions := allOptions + StrippedTokens(CellText(value));
      }
    }
    assert values[..|values|] == values;
  }

  /** A part of a whole, as a percentage, lies between 0 and 100. */
  lemma PercentBounds(v: nat, n: nat)
    requires 0 < n && v <= n
    ensures 0.0 <= (v as real) / (n as real) * 100.0 <= 100.0
    ensures v == n ==> (v as real) / (n as real) * 100.0 == 100.0
  {
    RatioBounds(v as real, n as real);
  }

  /** `a / d` lies in [0, 1] when `0 <= a <= d`, and is 1 when `a == d`. */
  lemma RatioBounds(a: real, d: real)
    requires 0.0 < d && 0.0 <= a <= d
    ensures 0.0 <= a / d <= 1.0
    ensures a == d ==> a / d == 1.0
  {
    var x := a / d;
    assert x * d == a;
    assert (x - 1.0) * d == a - d;
  }

  /** `count / valid * 100` is `count` times `100 / valid`. */
  lemma PercentageScale(c: nat, v: nat)
    requires v > 0
    ensures Percentage(c, v) == c as real * (100.0 / v as real)
  {
    var x, y := (c as real) / (v as real), 100.0 / (v as real);
    assert x * (v as real) == c as real;
    assert y * (v as real) == 100.0;
    assert x * 100.0 == x * (y * (v as real));
    assert c as real * y == x * (v as real) * y;
  }

  /** Total and valid responses, and a response rate between 0 and 100. */
  lemma DistributionTotals(q: Question, t: Table, column: string)
    ensures var d := DistributionOf(q, t, column);
      && d.totalResponses == |t.rows|
      && d.validResponses == |NonNull(Column(t, column).cells)| <= d.totalResponses
      && 0.0 <= d.responseRate <= 100.0
      && (d.totalResponses == 0 ==> d.responseRate == 0.0)
      && (d.validResponses == d.totalResponses > 0 ==> d.responseRate == 100.0)
  {
    var d := DistributionOf(q, t, column);
    if d.totalResponses > 0 {
      PercentBounds(d.validResponses, d.totalResponses);
    }
  }

  /** No valid answer means nothing counted, so every percentage divides by
      a positive number of valid answers. */
  lemma CountedOnlyWithValidAnswers(q: Question, t: Table, column: string)
    ensures var d := DistributionOf(q, t, column);
      d.validResponses == 0 ==> d.distribution == map[] && d.percentages == map[]
  {
    var cells := Column(t, column).cells;
    if |NonNull(cells)| == 0 {
      assert NonNull(cells) == [];
      assert MultipleChoiceTokens(NonNull(cells)) == [];
    }
  }

  /** The percentages of a count map add up to 100 times the counted total
      over the valid answers. */
  lemma PercentagesSum(counts: map<Cell, nat>, valid: nat)
    requires valid > 0
    ensures MapSumReal(Percentages(counts, valid))
      == MapSum(counts) as real * (100.0 / valid as real)
  {
    var p := Percentages(counts, valid);
    assert ScaledBy(counts, p, 100.0 / valid as real) by {
      forall k | k in counts
        ensures p[k] == counts[k] as real * (100.0 / valid as real)
      {
        PercentageScale(counts[k], valid);
      }
    }
    ScaledSum(counts, p, 100.0 / valid as real);
  }

  /** When the counts add up to the valid answers, the percentages add up
      to 100. */
  lemma PercentagesTotal(counts: map<Cell, nat>, valid: nat)
    requires valid > 0 && MapSum(counts) == valid
    ensures MapSumReal(Percentages(counts, valid)) == 100.0
  {
    PercentagesSum(counts, valid);
    assert valid as real * (100.0 / valid as real) == 100.0;
  }

  /** For a question other than multiple choice, each present value is
      counted once: the counts are the occurrence counts, they add up to the
      valid responses and the percentages add up to 100. */
  lemma SingleValueDistribution(q: Question, t: Table, column: string)
    requires q.questionType != MultipleChoice
    ensures var d := DistributionOf(q, t, column);
      var values := NonNull(Column(t, column).cells);
      && (forall k :: k in d.distribution <==> k in values)
      && (forall k :: k in d.distribution ==> d.distribution[k] == multiset(values)[k])
      && MapSum(d.distribution) == d.validResponses
      && (d.validResponses > 0 ==> MapSumReal(d.percentages) == 100.0)
  {
    var d := DistributionOf(q, t, column);
    var values := NonNull(Column(t, column).cells);
    assert d.distribution == CountMap(values);
    CountMapSum(values);
    if d.validResponses > 0 {
      PercentagesTotal(d.distribution, d.validResponses);
    }
  }

  /** For a multiple-choice question each stripped piece is counted as often
      as it occurs among the values holding a `;`; the counts add up to the
      number of pieces and each percentage is relative to the valid answers. */
  lemma MultipleChoiceDistribution(q: Question, t: Table, column: string)
    requires q.questionType == MultipleChoice
    ensures var d := DistributionOf(q, t, column);
      var tokens := MultipleChoiceTokens(NonNull(Column(t, column).cells));
      && (forall x :: Str(x) in d.distribution <==> x in tokens)
      && (forall k :: k in d.distribution ==> k.Str? && d.distribution[k] == multiset(StrCells(tokens))[k])
      && MapSum(d.distribution) == |tokens|
      && (forall k :: k in d.distribution ==>
            d.percentages[k] == (d.distribution[k] as real) / (d.validResponses as real) * 100.0)
  {
    var d := DistributionOf(q, t, column);
    var tokens := MultipleChoiceTokens(NonNull(Column(t, column).cells));
    assert d.distribution == CountMap(StrCells(tokens));
    StrCounts(tokens);
    CountedOnlyWithValidAnswers(q, t, column);
  }

  /** Counting strings as cells: exactly the strings of `tokens` are keys,
      each with its number of occurrences, and the counts add up to the
      number of strings. */
  lemma StrCounts(tokens: seq<string>)
    ensures var m := CountMap(StrCells(tokens));
      && (forall x :: Str(x) in m <==> x in tokens)
      && (forall k :: k in m ==> k.Str? && m[k] == multiset(StrCells(tokens))[k])
      && MapSum(m) == |tokens|
  {
    var cells := StrCells(tokens);
    CountMapSum(cells);
    forall x
      ensures Str(x) in cells <==> x in tokens
    {
      if x in tokens {
        var i :| 0 <= i < |tokens| && tokens[i] == x;
        assert cells[i] == Str(x);
      }
    }
  }

  // ---------------------------------------------------------------------
  // get_question_summary

  /** `summary` counts the questions of each type in `qs`, keyed by the
      type's value, and holds no other key. */
  ghost predicate SummaryOf(summary: map<string, nat>, qs: seq<Question>)
  {
    && (forall t :: TypeValue(t) in summary <==> CountOfType(qs, t) > 0)
    && (forall t :: TypeValue(t) in summary ==> summary[TypeValue(t)] == CountOfType(qs, t))
    && (forall k :: k in summary ==> exists t :: TypeValue(t) == k)
  }

  /** Counting one more question bumps the entry of its type. */
  lemma SummaryStep(summary: map<string, nat>, qs: seq<Question>, i: int)
    requires 0 <= i < |qs| && SummaryOf(summary, qs[..i])
    ensures var v := TypeValue(qs[i].questionType);
      SummaryOf(summary[v := (if v in summary then summary[v] else 0) + 1], qs[..i + 1])
  {
    var q := qs[i];
    var v := TypeValue(q.questionType);
    var next := summary[v := (if v in summary then summary[v] else 0) + 1];
    assert qs[..i + 1][..i] == qs[..i];
    forall t
      ensures TypeValue(t) == v <==> t == q.questionType
    {
      TypeValueRoundTrip(t);
      TypeValueRoundTrip(q.questionType);
    }
    forall k | k in next
      ensures exists t :: TypeValue(t) == k
    {
      if k == v {
        assert TypeValue(q.questionType) == k;
      }
    }
  }

  /** `get_question_summary()`: the number of questions of each type, keyed by
      the type's value. */
  method GetQuestionSummary(a: Analyzer) returns (summary: map<string, nat>)
    ensures forall t :: TypeValue(t) in summary <==> CountOfType(a.surveyData.questions, t) > 0
    ensures forall t :: TypeValue(t) in summary ==> summary[TypeValue(t)] == CountOfType(a.surveyData.questions, t)
    ensures forall k :: k in summary ==> exists t :: TypeValue(t) == k
    ensures MapSum(summary) == |a.surveyData.questions|
  {
    var qs := a.surveyData.questions;
    summary := map[];
    for i := 0 to |qs|
      invariant SummaryOf(summary, qs[..i])
      invariant MapSum(summary) == i
    {
      var qtype := TypeValue(qs[i].questionType);
      var previous := if qtype in summary then summary[qtype] else 0;
      SummaryBump(summary, qs, i);
      summary := summary[qtype := previous + 1];
    }
    SummaryWhole(summary, qs);
  }

  /** One loop step keeps the summary of the questions counted so far, and
      its total. */
  lemma SummaryBump(summary: map<string, nat>, qs: seq<Question>, i: int)
    requires 0 <= i < |qs| && SummaryOf(summary, qs[..i]) && MapSum(summary) == i
    ensures var v := TypeValue(qs[i].questionType);
      var next := summary[v := (if v in summary then summary[v] else 0) + 1];
      SummaryOf(next, qs[..i + 1]) && MapSum(next) == i + 1
  {
    var v := TypeValue(qs[i].questionType);
    MapSumUpdate(summary, v, (if v in summary then summary[v] else 0) + 1);
    SummaryStep(summary, qs, i);
  }

  lemma SummaryWhole(summary: map<string, nat>, qs: seq<Question>)
    requires SummaryOf(summary, qs[..|qs|])
    ensures SummaryOf(summary, qs)
  {
    assert qs[..|qs|] == qs;
  }
}
