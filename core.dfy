/** `src/stacksurvey/core.py`: the second, simpler implementation. Its
    module globals `_survey_data` and `_questions_data` are the fields of a
    `Session`; `load_data` sets both, every other operation reads them. */
module Core {
  import opened Wrappers
  import opened Seqs
  import opened Strings
  import opened Ordering
  import opened Frames

  /** The exceptions: `ValueError` for no file paths or an unknown question,
      `RuntimeError` before any data is loaded, `KeyError` for an unknown
      column in an option lookup. */
  datatype CoreError = NoFilePaths | NotLoaded | QuestionNotFound(question: string) | UnknownColumn(column: string)

  /** The two question kinds, `'SC'` and `'MC'`. */
  datatype Kind = SC | MC

  predicate HasSemicolon(c: Cell)
  {
    ';' in CellText(c)
  }

  /** `_get_question_type(df, column)`, given `df[column]`. */
  function QuestionKind(column: Series): Kind
  {
    var values := NonNull(column.cells);
    if |values| == 0 then SC
    else if exists v | v in values :: HasSemicolon(v) then MC
    else SC
  }

  /** A column is multiple choice iff some present value, at any position,
      holds a `;`; its dtype plays no part. */
  lemma QuestionKindSpec(column: Series)
    ensures QuestionKind(column) == MC <==>
      exists i :: 0 <= i < |column.cells| && column.cells[i] != Null && HasSemicolon(column.cells[i])
    ensures QuestionKind(column) == QuestionKind(Series(column.cells, !column.numeric))
  {
    var values := NonNull(column.cells);
    if i :| 0 <= i < |column.cells| && column.cells[i] != Null && HasSemicolon(column.cells[i]) {
      assert column.cells[i] in values;
    }
    if QuestionKind(column) == MC {
      var v :| v in values && HasSemicolon(v);
      assert v in column.cells;
    }
  }

  /** The catalog `load_data` stores: the kind of every column. */
  function QuestionKinds(t: Table): (m: map<string, Kind>)
    ensures forall c :: c in m <==> c in t.columns
  {
    map c | c in t.columns :: QuestionKind(Column(t, c))
  }

  /** `_questions_data.get(column) == 'MC'`: a column the catalog lacks
      counts as single choice. */
  function KindOf(kinds: map<string, Kind>, c: string): Kind
  {
    if c in kinds then kinds[c] else SC
  }

  // ---------------------------------------------------------------------
  // Options

  /** The raw, untrimmed `;`-pieces of every string value, in order; other
      values contribute nothing. */
  function Selections(values: seq<Cell>): seq<string>
    decreases |values|
  {
    if |values| == 0 then []
    else
      var last := values[|values| - 1];
      Selections(values[..|values| - 1]) + (if last.Str? then Split(last.s, ';') else [])
  }

  lemma {:induction false} SelectionsMembership(values: seq<Cell>, x: string)
    ensures x in Selections(values) <==> exists s :: Str(s) in values && x in Split(s, ';')
    decreases |values|
  {
    if |values| > 0 {
      var init, last := values[..|values| - 1], values[|values| - 1];
      SelectionsMembership(init, x);
      assert values == init + [last];
      if s :| Str(s) in values && x in Split(s, ';') {
        if Str(s) != last {
          assert Str(s) in init;
        }
      }
    }
  }

  /** The loop that extends `all_options` / `all_selections` with the pieces
      of every string value. */
  method CollectSelections(values: seq<Cell>) returns (all: seq<string>)
    ensures all == Selections(values)
  {
    all := [];
    for i := 0 to |values|
      invariant all == Selections(values[..i])
    {
      assert values[..i + 1][..i] == values[..i];
      var val := values[i];
      if val.Str? {
        all := all + Split(val.s, ';');
      }
    }
    assert values[..|values|] == values;
  }

  /** `str(val)` of every value. */
  function Texts(values: seq<Cell>): (r: seq<string>)
    ensures |r| == |values|
  {
    seq(|values|, i requires 0 <= i < |values| => CellText(values[i]))
  }

  /** What `_get_unique_options(column)` returns for a column of `t`. */
  function UniqueOptionsOf(t: Table, kinds: map<string, Kind>, column: string): seq<string>
  {
    var values := NonNull(Column(t, column).cells);
    if KindOf(kinds, column) == MC then SortedDistinct(Selections(values))
    else SortedDistinct(Texts(values))
  }

  /** The options are strictly sorted. For a multiple-choice column they are
      the untrimmed pieces of its string values; otherwise the texts of its
      present values. */
  lemma UniqueOptionsSpec(t: Table, kinds: map<string, Kind>, column: string)
    ensures StrictlySorted(UniqueOptionsOf(t, kinds, column))
    ensures KindOf(kinds, column) == MC ==> forall x :: x in UniqueOptionsOf(t, kinds, column) <==>
      exists s :: Str(s) in Column(t, column).cells && x in Split(s, ';')
    ensures KindOf(kinds, column) != MC ==> forall x :: x in UniqueOptionsOf(t, kinds, column) <==>
      exists c :: c in Column(t, column).cells && c != Null && CellText(c) == x
  {
    var cells := Column(t, column).cells;
    var values := NonNull(cells);
    SortedDistinctSpec(Selections(values));
    SortedDistinctSpec(Texts(values));
    forall x
      ensures KindOf(kinds, column) == MC ==> (x in UniqueOptionsOf(t, kinds, column) <==>
        exists s :: Str(s) in cells && x in Split(s, ';'))
      ensures KindOf(kinds, column) != MC ==> (x in UniqueOptionsOf(t, kinds, column) <==>
        exists c :: c in cells && c != Null && CellText(c) == x)
    {
      SelectionsMembership(values, x);
      if x in Texts(values) {
        var i :| 0 <= i < |values| && Texts(values)[i] == x;
        assert values[i] in values;
      }
      if c :| c in cells && c != Null && CellText(c) == x {
        assert c in values;
        var i :| 0 <= i < |values| && values[i] == c;
        assert Texts(values)[i] == x;
      }
    }
  }

  /** `_get_unique_options(column)` once the data is known to be loaded and
      to hold the column. */
  method UniqueOptions(t: Table, kinds: map<string, Kind>, column: string) returns (r: seq<string>)
    ensures r == UniqueOptionsOf(t, kinds, column)
  {
    var values := NonNull(Column(t, column).cells);
    var all: seq<string>;
    if KindOf(kinds, column) == MC {
      all := CollectSelections(values);
    } else {
      all := Texts(values);
    }
    var distinct := SetToSeq(set x | x in all);
    SortNoDupStrict(distinct);
    SortedDistinctSpec(all);
    StrictlySortedUnique(SortStrings(distinct), SortedDistinct(all));
    r := SortStrings(distinct);
  }

  // ---------------------------------------------------------------------
  // Search

  /** The columns whose name holds the term, ignoring case, in order. */
  function ColumnHits(cols: seq<string>, term: string): seq<string>
  {
    Select(cols, seq(|cols|, i requires 0 <= i < |cols| => ContainsIgnoreCase(cols[i], term)))
  }

  lemma ColumnHitsMembership(cols: seq<string>, term: string, c: string)
    ensures c in ColumnHits(cols, term) <==> c in cols && ContainsIgnoreCase(c, term)
  {
    SelectMembership(cols, seq(|cols|, i requires 0 <= i < |cols| => ContainsIgnoreCase(cols[i], term)), c);
  }

  /** `[(val, i) for i, val in enumerate(unique_values) if ...]`. */
  function IndexedMatches(unique: seq<string>, term: string): seq<(string, nat)>
  {
    Select(seq(|unique|, i requires 0 <= i < |unique| => (unique[i], i as nat)),
           seq(|unique|, i requires 0 <= i < |unique| => ContainsIgnoreCase(unique[i], term)))
  }

  /** Each match names the option at its index, and every matching option
      appears with its index. */
  lemma IndexedMatchesSpec(unique: seq<string>, term: string)
    ensures forall m :: m in IndexedMatches(unique, term) ==>
      m.1 < |unique| && unique[m.1] == m.0 && ContainsIgnoreCase(m.0, term)
    ensures forall i :: 0 <= i < |unique| && ContainsIgnoreCase(unique[i], term) ==>
      (unique[i], i as nat) in IndexedMatches(unique, term)
  {
    var pairs := seq(|unique|, i requires 0 <= i < |unique| => (unique[i], i as nat));
    var keep := seq(|unique|, i requires 0 <= i < |unique| => ContainsIgnoreCase(unique[i], term));
    forall m | m in IndexedMatches(unique, term)
      ensures m.1 < |unique| && unique[m.1] == m.0 && ContainsIgnoreCase(m.0, term)
    {
      SelectMembership(pairs, keep, m);
    }
    forall i | 0 <= i < |unique| && ContainsIgnoreCase(unique[i], term)
      ensures (unique[i], i as nat) in IndexedMatches(unique, term)
    {
      SelectMembership(pairs, keep, pairs[i]);
    }
  }

  /** The triples `(col, val, i)` of one column. */
  function Tagged(c: string, matches: seq<(string, nat)>): (r: seq<(string, string, nat)>)
    ensures |r| == |matches|
  {
    seq(|matches|, k requires 0 <= k < |matches| => (c, matches[k].0, matches[k].1))
  }

  /** The option hits of the columns `cols`, column by column. */
  function OptionHits(t: Table, kinds: map<string, Kind>, cols: seq<string>, term: string): seq<(string, string, nat)>
    decreases |cols|
  {
    if |cols| == 0 then []
    else
      var c := cols[|cols| - 1];
      OptionHits(t, kinds, cols[..|cols| - 1], term) + Tagged(c, IndexedMatches(UniqueOptionsOf(t, kinds, c), term))
  }

  /** Every option hit `(c, v, i)` names a searched column whose `i`-th
      option is `v`, and `v` holds the term. */
  lemma {:induction false} OptionHitsSound(t: Table, kinds: map<string, Kind>, cols: seq<string>, term: string)
    ensures forall h :: h in OptionHits(t, kinds, cols, term) ==>
      && h.0 in cols
      && h.2 < |UniqueOptionsOf(t, kinds, h.0)|
      && UniqueOptionsOf(t, kinds, h.0)[h.2] == h.1
      && ContainsIgnoreCase(h.1, term)
    decreases |cols|
  {
    if |cols| > 0 {
      var c := cols[|cols| - 1];
      var init := cols[..|cols| - 1];
      OptionHitsSound(t, kinds, init, term);
      var matches := IndexedMatches(UniqueOptionsOf(t, kinds, c), term);
      IndexedMatchesSpec(UniqueOptionsOf(t, kinds, c), term);
      forall h | h in OptionHits(t, kinds, cols, term)
        ensures h.0 in cols
      {
        if h in OptionHits(t, kinds, init, term) {
          assert h.0 in init;
        }
      }
      forall h | h in Tagged(c, matches)
        ensures h.0 == c && (h.1, h.2) in matches
      {
        var k :| 0 <= k < |matches| && Tagged(c, matches)[k] == h;
        assert matches[k] == (h.1, h.2);
      }
    }
  }

  /** Every matching option of every searched column is reported with its
      index. */
  lemma {:induction false} OptionHitsComplete(t: Table, kinds: map<string, Kind>, cols: seq<string>, term: string, c: string, i: int)
    requires c in cols && 0 <= i < |UniqueOptionsOf(t, kinds, c)|
    requires ContainsIgnoreCase(UniqueOptionsOf(t, kinds, c)[i], term)
    ensures (c, UniqueOptionsOf(t, kinds, c)[i], i as nat) in OptionHits(t, kinds, cols, term)
    decreases |cols|
  {
    var last := cols[|cols| - 1];
    var init := cols[..|cols| - 1];
    if c == last {
      var unique := UniqueOptionsOf(t, kinds, c);
      var matches := IndexedMatches(unique, term);
      IndexedMatchesSpec(unique, term);
      var k :| 0 <= k < |matches| && matches[k] == (unique[i], i as nat);
      assert Tagged(c, matches)[k] == (c, unique[i], i as nat);
    } else {
      assert c in init;
      OptionHitsComplete(t, kinds, init, term, c, i);
    }
  }

  /** The dictionary `search` returns. */
  datatype SearchResults = SearchResults(questions: seq<string>, options: seq<(string, string, nat)>)

  /** `if question:` skips a search mode for None and for the empty string. */
  predicate Given(term: Option<string>)
  {
    term.Some? && term.value != ""
  }

  /** The question loop of `search`. */
  method SearchColumns(cols: seq<string>, question: string) returns (hits: seq<string>)
    ensures hits == ColumnHits(cols, question)
  {
    var term := Lower(question);
    ghost var keep := seq(|cols|, i requires 0 <= i < |cols| => ContainsIgnoreCase(cols[i], question));
    hits := [];
    for i := 0 to |cols|
      invariant hits == Select(cols[..i], keep[..i])
    {
      SelectStep(cols, keep, i);
      if Contains(Lower(cols[i]), term) {
        hits := hits + [cols[i]];
      }
    }
    assert cols[..|cols|] == cols && keep[..|cols|] == keep;
  }

  /** The option loop of `search`. */
  method SearchColumnOptions(t: Table, kinds: map<string, Kind>, option: string) returns (options: seq<(string, string, nat)>)
    ensures options == OptionHits(t, kinds, t.columns, option)
  {
    var cols := t.columns;
    options := [];
    for i := 0 to |cols|
      invariant options == OptionHits(t, kinds, cols[..i], option)
    {
      var col := cols[i];
      var unique := UniqueOptions(t, kinds, col);
      var matches := IndexedMatches(unique, option);
      options := AppendTagged(options, col, matches);
      OptionHitsStep(t, kinds, cols, option, i);
    }
    assert cols[..|cols|] == cols;
  }

  lemma OptionHitsStep(t: Table, kinds: map<string, Kind>, cols: seq<string>, term: string, i: int)
    requires 0 <= i < |cols|
    ensures OptionHits(t, kinds, cols[..i + 1], term)
      == OptionHits(t, kinds, cols[..i], term) + Tagged(cols[i], IndexedMatches(UniqueOptionsOf(t, kinds, cols[i]), term))
  {
    assert cols[..i + 1][..i] == cols[..i] && cols[..i + 1][i] == cols[i];
  }

  /** `for match in matches: results['options'].append((col, match[0], match[1]))`. */
  method AppendTagged(options: seq<(string, string, nat)>, col: string, matches: seq<(string, nat)>)
    returns (r: seq<(string, string, nat)>)
    ensures r == options + Tagged(col, matches)
  {
    r := options;
    for k := 0 to |matches|
      invariant r == options + Tagged(col, matches[..k])
    {
      assert Tagged(col, matches[..k + 1]) == Tagged(col, matches[..k]) + [(col, matches[k].0, matches[k].1)];
      r := r + [(col, matches[k].0, matches[k].1)];
    }
    assert matches[..|matches|] == matches;
  }

  // ---------------------------------------------------------------------
  // Filtering and distributions

  /** The row test of `filter_respondents`: for a multiple-choice question,
      a string answer one of whose untrimmed pieces is the option; otherwise
      an answer equal to the option. */
  predicate RespondentSelected(k: Kind, v: Cell, option: string)
  {
    if k == MC then v.Str? && option in Split(v.s, ';') else v == Str(option)
  }

  function RespondentMask(t: Table, kinds: map<string, Kind>, question: string, option: string): (keep: seq<bool>)
    ensures |keep| == |t.rows|
  {
    seq(|t.rows|, i requires 0 <= i < |t.rows| =>
      RespondentSelected(KindOf(kinds, question), Get(t.rows[i], question), option))
  }

  /** The rows of `filter_respondents` are the selected rows in their order,
      with every column. */
  lemma RespondentRows(t: Table, kinds: map<string, Kind>, question: string, option: string)
    ensures var keep := RespondentMask(t, kinds, question, option);
      var s := SelectRows(t, keep);
      && s.columns == t.columns
      && |s.rows| == |TruePositions(keep)|
      && (forall k :: 0 <= k < |s.rows| ==> s.rows[k] == t.rows[TruePositions(keep)[k]])
  {
    SelectAt(t.rows, RespondentMask(t, kinds, question, option));
  }

  /** `value_counts(normalize=True)`: each count over the number counted. */
  function Shares(counts: map<Cell, nat>, total: nat): map<Cell, real>
  {
    map k | k in counts :: if total == 0 then 0.0 else (counts[k] as real) / (total as real)
  }

  /** What `compute_distribution(question)` returns: for a multiple-choice
      question the share of each untrimmed piece among all pieces, otherwise
      the share of each present value among the present values. */
  function SharesOf(t: Table, kinds: map<string, Kind>, question: string): map<Cell, real>
  {
    var counted := CountedValues(t, kinds, question);
    Shares(CountMap(counted), |counted|)
  }

  /** `count / total` is `count` times `1 / total`. */
  lemma ShareScale(c: nat, total: nat)
    requires total > 0
    ensures (c as real) / (total as real) == c as real * (1.0 / total as real)
  {
    var x, f := (c as real) / (total as real), 1.0 / (total as real);
    assert x * (total as real) == c as real;
    assert f * (total as real) == 1.0;
    assert c as real * f == x * (total as real) * f;
  }

  /** The shares of a count map whose counts add up to `total` add up to 1. */
  lemma SharesSum(counts: map<Cell, nat>, total: nat)
    requires total > 0 && MapSum(counts) == total
    ensures MapSumReal(Shares(counts, total)) == 1.0
  {
    var f := 1.0 / (total as real);
    var p := Shares(counts, total);
    SharesScaled(counts, total, p, f);
    ScaledSum(counts, p, f);
    Reciprocal(total);
  }

  lemma SharesScaled(counts: map<Cell, nat>, total: nat, p: map<Cell, real>, f: real)
    requires total > 0 && f == 1.0 / (total as real) && p == Shares(counts, total)
    ensures ScaledBy(counts, p, f)
  {
    forall k | k in counts
      ensures p[k] == counts[k] as real * f
    {
      ShareScale(counts[k], total);
    }
  }

  lemma Reciprocal(total: nat)
    requires total > 0
    ensures total as real * (1.0 / (total as real)) == 1.0
  {
  }

  /** `shares` is the normalised count of `counted`: one entry per distinct
      element, its count over the length, adding up to 1 when anything was
      counted. */
  ghost predicate Distribution(shares: map<Cell, real>, counted: seq<Cell>)
  {
    && (forall k :: k in shares <==> k in counted)
    && (forall k :: k in shares ==> shares[k] == (multiset(counted)[k] as real) / (|counted| as real))
    && (|counted| > 0 ==> MapSumReal(shares) == 1.0)
  }

  lemma SharesOfCounted(counted: seq<Cell>)
    ensures Distribution(Shares(CountMap(counted), |counted|), counted)
  {
    CountMapSum(counted);
    if |counted| > 0 {
      SharesSum(CountMap(counted), |counted|);
    }
  }

  /** What `compute_distribution(question)` counts: the untrimmed pieces of a
      multiple-choice question, otherwise the present values. */
  function CountedValues(t: Table, kinds: map<string, Kind>, question: string): seq<Cell>
  {
    var values := NonNull(Column(t, question).cells);
    if KindOf(kinds, question) == MC then StrCells(Selections(values)) else values
  }

  /** The shares of a distribution add up to 1 whenever anything was counted,
      and each share is its count over everything counted. */
  lemma SharesOfSpec(t: Table, kinds: map<string, Kind>, question: string)
    ensures Distribution(SharesOf(t, kinds, question), CountedValues(t, kinds, question))
  {
    SharesOfCounted(CountedValues(t, kinds, question));
  }

  // ---------------------------------------------------------------------
  // The session

  class Session {
    /** `_survey_data`. */
    var surveyData: Option<Table>
    /** `_questions_data`. */
    var questionsData: Option<map<string, Kind>>

    /** Both globals are set together, and the catalog describes the data. */
    ghost predicate Valid()
      reads this
    {
      && (surveyData.None? <==> questionsData.None?)
      && (surveyData.Some? ==> questionsData.value == QuestionKinds(surveyData.value))
    }

    /** The state when the module is imported: nothing loaded. */
    constructor ()
      ensures Valid() && surveyData == None && questionsData == None
    {
      surveyData := None;
      questionsData := None;
    }

    /** `load_data(file_paths)`, given the frames read from the paths. No
        path is an error and leaves the session as it was. */
    method LoadData(parts: seq<Table>) returns (r: Result<Table, CoreError>)
      requires Valid()
      modifies this
      ensures Valid()
      ensures |parts| == 0 ==> r == Err(NoFilePaths) && surveyData == old(surveyData) && questionsData == old(questionsData)
      ensures |parts| > 0 ==> (r == Ok(Concat(parts)) && surveyData == Some(Concat(parts))
        && questionsData == Some(QuestionKinds(Concat(parts))))
    {
      if |parts| == 0 {
        return Err(NoFilePaths);
      }
      var combined := Concat(parts);
      surveyData := Some(combined);
      questionsData := Some(QuestionKinds(combined));
      r := Ok(combined);
    }

    /** `list_questions()`: the kind of every column. */
    function ListQuestions(): (r: Result<map<string, Kind>, CoreError>)
      reads this
      requires Valid()
      ensures surveyData.None? ==> r == Err(NotLoaded)
      ensures surveyData.Some? ==> (r.Ok?
        && (forall c :: c in r.value <==> c in surveyData.value.columns)
        && (forall c :: c in r.value ==> r.value[c] == QuestionKind(Column(surveyData.value, c))))
    {
      if surveyData.None? then Err(NotLoaded) else Ok(questionsData.value)
    }

    /** `search(question, option)`. */
    method Search(question: Option<string>, option: Option<string>) returns (r: Result<SearchResults, CoreError>)
      requires Valid()
      ensures surveyData.None? ==> r == Err(NotLoaded)
      ensures surveyData.Some? ==> r == Ok(SearchResults(
        if Given(question) then ColumnHits(surveyData.value.columns, question.value) else [],
        if Given(option) then OptionHits(surveyData.value, questionsData.value, surveyData.value.columns, option.value) else []))
    {
      if surveyData.None? {
        return Err(NotLoaded);
      }
      var t := surveyData.value;
      var hits: seq<string> := [];
      if Given(question) {
        hits := SearchColumns(t.columns, question.value);
      }
      var options: seq<(string, string, nat)> := [];
      if Given(option) {
        options := SearchColumnOptions(t, questionsData.value, option.value);
      }
      r := Ok(SearchResults(hits, options));
    }

    /** `_get_unique_options(column)`. */
    method GetUniqueOptions(column: string) returns (r: Result<seq<string>, CoreError>)
      requires Valid()
      ensures surveyData.None? ==> r == Err(NotLoaded)
      ensures surveyData.Some? && column !in surveyData.value.columns ==> r == Err(UnknownColumn(column))
      ensures surveyData.Some? && column in surveyData.value.columns ==>
        r == Ok(UniqueOptionsOf(surveyData.value, questionsData.value, column))
    {
      if surveyData.None? {
        return Err(NotLoaded);
      }
      if column !in surveyData.value.columns {
        return Err(UnknownColumn(column));
      }
      var options := UniqueOptions(surveyData.value, questionsData.value, column);
      r := Ok(options);
    }

    /** `filter_respondents(question, option)`. */
    function FilterRespondents(question: string, option: string): (r: Result<Table, CoreError>)
      reads this
      requires Valid()
      ensures surveyData.None? ==> r == Err(NotLoaded)
      ensures surveyData.Some? && question !in surveyData.value.columns ==> r == Err(QuestionNotFound(question))
      ensures surveyData.Some? && question in surveyData.value.columns ==>
        r == Ok(SelectRows(surveyData.value, RespondentMask(surveyData.value, questionsData.value, question, option)))
      ensures surveyData.Some? && question in surveyData.value.columns ==> (r.Ok?
        && r.value.columns == surveyData.value.columns
        && (forall row :: row in r.value.rows <==> (row in surveyData.value.rows
              && RespondentSelected(KindOf(questionsData.value, question), Get(row, question), option))))
    {
      if surveyData.None? then Err(NotLoaded)
      else if question !in surveyData.value.columns then Err(QuestionNotFound(question))
      else
        var t := surveyData.value;
        var keep := RespondentMask(t, questionsData.value, question, option);
        assert forall row :: row in Select(t.rows, keep) <==> (row in t.rows
          && RespondentSelected(KindOf(questionsData.value, question), Get(row, question), option)) by {
          forall row
            ensures row in Select(t.rows, keep) <==> (row in t.rows
              && RespondentSelected(KindOf(questionsData.value, question), Get(row, question), option))
          {
            SelectMembership(t.rows, keep, row);
          }
        }
        Ok(SelectRows(t, keep))
    }

    /** `compute_distribution(question)`. */
    method ComputeDistribution(question: string) returns (r: Result<map<Cell, real>, CoreError>)
      requires Valid()
      ensures surveyData.None? ==> r == Err(NotLoaded)
      ensures surveyData.Some? && question !in surveyData.value.columns ==> r == Err(QuestionNotFound(question))
      ensures surveyData.Some? && question in surveyData.value.columns ==>
        r == Ok(SharesOf(surveyData.value, questionsData.value, question))
    {
      if surveyData.None? {
        return Err(NotLoaded);
      }
      var t := surveyData.value;
      if question !in t.columns {
        return Err(QuestionNotFound(question));
      }
      var values := NonNull(Column(t, question).cells);
      if KindOf(questionsData.value, question) == MC {
        var selections := CollectSelections(values);
        r := Ok(Shares(CountMap(StrCells(selections)), |selections|));
      } else {
        r := Ok(Shares(CountMap(values), |values|));
      }
    }
  }
}
