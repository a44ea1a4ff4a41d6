/** `stackoverflow_analyzer/utils.py`: the question-type heuristic, option
    extraction, column-name cleaning, question and option search, and the
    part of loading that follows reading the files. */
module Utils {
  import opened Wrappers
  import opened Seqs
  import opened Strings
  import opened Ordering
  import opened Frames
  import opened Models

  /** The exceptions of this package: `ValueError` with one of three messages. */
  datatype Error = NoDataLoaded | QuestionNotFound(column: string) | ColumnNotFound(column: string)

  /** Values inspected for the separator: `dropna().head(100)`. */
  const SampleSize: nat := 100
  /** A column is single choice when its distinct values are fewer than this
      share of its present values ... */
  const SingleChoiceRatio: real := 0.2
  /** ... and fewer than this many. */
  const MaxSingleChoiceValues: nat := 50

  /** `series.head(n)`. */
  function Head<T>(s: seq<T>, n: nat): (r: seq<T>)
    ensures |r| <= n && |r| <= |s| && r == s[..|r|]
    ensures |s| <= n ==> r == s
    ensures |s| >= n ==> |r| == n
  {
    if |s| <= n then s else s[..n]
  }

  /** `series.nunique()`: the number of distinct present values. */
  function DistinctCount(cells: seq<Cell>): nat
  {
    |set c | c in NonNull(cells)|
  }

  predicate HasSeparator(c: Cell)
  {
    ';' in CellText(c)
  }

  /** `detect_question_type(column_data, column_name)`. */
  function DetectQuestionType(column: Series, columnName: string): QuestionType
  {
    if column.numeric then Numeric
    else if exists c | c in Head(NonNull(column.cells), SampleSize) :: HasSeparator(c) then MultipleChoice
    else
      var u := DistinctCount(column.cells);
      var n := |NonNull(column.cells)|;
      if n > 0 && (u as real) / (n as real) < SingleChoiceRatio && u < MaxSingleChoiceValues
      then SingleChoice
      else Text
  }

  /** The column name plays no part in the classification. */
  lemma DetectIgnoresName(column: Series, a: string, b: string)
    ensures DetectQuestionType(column, a) == DetectQuestionType(column, b)
  {
  }

  /** A numeric dtype decides first, whatever the cells hold. */
  lemma DetectNumericFirst(column: Series, columnName: string)
    ensures DetectQuestionType(column, columnName) == Numeric <==> column.numeric
  {
  }

  /** The number of present cells before position `i`. */
  function PresentBefore(cells: seq<Cell>, i: int): nat
    requires 0 <= i <= |cells|
  {
    |NonNull(cells[..i])|
  }

  /** A present cell at position `i` is element `PresentBefore(cells, i)` of
      the present cells. */
  lemma {:induction false} NonNullIndex(cells: seq<Cell>, i: int)
    requires 0 <= i < |cells| && cells[i] != Null
    ensures PresentBefore(cells, i) < |NonNull(cells)|
    ensures NonNull(cells)[PresentBefore(cells, i)] == cells[i]
  {
    assert cells == cells[..i] + [cells[i]] + cells[i + 1..];
    NonNullAppend(cells[..i], [cells[i]]);
    assert NonNull([cells[i]]) == [cells[i]] by {
      assert [cells[i]][..0] == [];
    }
    NonNullAppend(cells[..i] + [cells[i]], cells[i + 1..]);
  }

  /** Element `k` of the present cells stands at some position `i` of the
      column with exactly `k` present cells before it. */
  lemma {:induction false} NonNullPosition(cells: seq<Cell>, k: int)
    requires 0 <= k < |NonNull(cells)|
    ensures exists i :: (0 <= i < |cells| && cells[i] != Null && PresentBefore(cells, i) == k
      && NonNull(cells)[k] == cells[i])
    decreases |cells|
  {
    var n := |cells|;
    var init := cells[..n - 1];
    assert cells[..n] == cells;
    if k < |NonNull(init)| {
      NonNullPosition(init, k);
      var i :| 0 <= i < |init| && init[i] != Null && PresentBefore(init, i) == k && NonNull(init)[k] == init[i];
      assert init[..i] == cells[..i];
    } else {
      assert cells[n - 1] != Null;
      assert cells[..n - 1] == init;
    }
  }

  /** A non-numeric column is multiple choice iff one of its first 100
      present values holds a `;`. */
  lemma MultipleChoiceWithinSample(column: Series, columnName: string)
    requires !column.numeric
    ensures DetectQuestionType(column, columnName) == MultipleChoice <==>
      exists i :: 0 <= i < |column.cells| && column.cells[i] != Null
        && PresentBefore(column.cells, i) < SampleSize && HasSeparator(column.cells[i])
  {
    var cells := column.cells;
    var sample := Head(NonNull(cells), SampleSize);
    if exists c | c in sample :: HasSeparator(c) {
      var c :| c in sample && HasSeparator(c);
      var k :| 0 <= k < |sample| && sample[k] == c;
      NonNullPosition(cells, k);
    }
    if i :| 0 <= i < |cells| && cells[i] != Null && PresentBefore(cells, i) < SampleSize && HasSeparator(cells[i]) {
      NonNullIndex(cells, i);
      assert sample[PresentBefore(cells, i)] == cells[i];
    }
  }

  /** Cells after the 100th present value never change whether a column is
      multiple choice. */
  lemma LaterValuesIgnored(a: seq<Cell>, b: seq<Cell>, columnName: string)
    requires |NonNull(a)| >= SampleSize
    ensures (DetectQuestionType(Series(a + b, false), columnName) == MultipleChoice)
        == (DetectQuestionType(Series(a, false), columnName) == MultipleChoice)
  {
    NonNullAppend(a, b);
    assert Head(NonNull(a + b), SampleSize) == Head(NonNull(a), SampleSize);
  }

  /** Past the first two rules, the 0.2 ratio test reads as `5u < n` on
      integers: single choice iff some value is present, `5u < n` and `u < 50`. */
  lemma SingleChoiceCriterion(column: Series, columnName: string)
    requires DetectQuestionType(column, columnName) !in {Numeric, MultipleChoice}
    ensures var u, n := DistinctCount(column.cells), |NonNull(column.cells)|;
      DetectQuestionType(column, columnName) == SingleChoice <==> n > 0 && 5 * u < n && u < 50
  {
    var u, n := DistinctCount(column.cells), |NonNull(column.cells)|;
    if n > 0 {
      RatioBelowFifth(u, n);
    }
  }

  lemma RatioBelowFifth(u: nat, n: nat)
    requires n > 0
    ensures (u as real) / (n as real) < 0.2 <==> 5 * u < n
  {
    var q, d := (u as real) / (n as real), n as real;
    assert q * d == u as real;
    ScaleLess(q, 0.2, d);
    assert 0.2 * d * 5.0 == d;
  }

  /** Multiplying by a positive factor keeps a strict order. */
  lemma ScaleLess(x: real, y: real, d: real)
    requires d > 0.0
    ensures x < y <==> x * d < y * d
  {
    if x < y {
      assert (y - x) * d > 0.0;
    } else {
      assert (x - y) * d >= 0.0;
    }
  }

  lemma {:induction false} NonePresent(cells: seq<Cell>)
    requires forall i :: 0 <= i < |cells| ==> cells[i] == Null
    ensures NonNull(cells) == []
  {
    if |cells| > 0 {
      NonePresent(cells[..|cells| - 1]);
    }
  }

  /** A non-numeric column with no present value is free text. */
  lemma AllMissingIsText(column: Series, columnName: string)
    requires !column.numeric
    requires forall i :: 0 <= i < |column.cells| ==> column.cells[i] == Null
    ensures DetectQuestionType(column, columnName) == Text
  {
    NonePresent(column.cells);
  }

  // ---------------------------------------------------------------------
  // Column names and question texts

  /** `re.sub(r'[^\w\s]', ' ', s)`: every character that is neither a word
      character nor whitespace becomes a space. */
  function ReplaceSpecial(s: string): (r: string)
    ensures |r| == |s|
    ensures forall i :: 0 <= i < |r| ==> IsWordChar(r[i]) || IsSpace(r[i])
  {
    seq(|s|, i requires 0 <= i < |s| => if IsWordChar(s[i]) || IsSpace(s[i]) then s[i] else ' ')
  }

  /** `re.sub(r'\s+', ' ', s)`: every run of whitespace becomes one space. */
  function CollapseSpaces(s: string): (r: string)
    ensures forall i :: 0 <= i < |r| ==> r[i] == ' ' || (!IsSpace(r[i]) && r[i] in s)
    ensures forall i :: 0 <= i < |r| - 1 ==> !(r[i] == ' ' && r[i + 1] == ' ')
    ensures |s| > 0 ==> |r| > 0 && (IsSpace(s[0]) ==> r[0] == ' ') && (!IsSpace(s[0]) ==> r[0] == s[0])
    decreases |s|
  {
    if |s| == 0 then ""
    else if IsSpace(s[0]) then
      var n := LeadingSpaces(s);
      var t := s[n..];
      assert forall k :: 0 <= k < |t| ==> t[k] == s[n + k];
      var rest := CollapseSpaces(t);
      assert |rest| > 0 ==> rest[0] != ' ';
      " " + rest
    else
      var rest := CollapseSpaces(s[1..]);
      assert forall k :: 0 <= k < |s| - 1 ==> s[1..][k] == s[k + 1];
      [s[0]] + rest
  }

  /** Only word characters and plain spaces. */
  predicate WordsAndSpaces(s: string)
  {
    forall i :: 0 <= i < |s| ==> IsWordChar(s[i]) || s[i] == ' '
  }

  /** No two spaces in a row. */
  predicate SingleSpaced(s: string)
  {
    forall i :: 0 <= i < |s| - 1 ==> !(s[i] == ' ' && s[i + 1] == ' ')
  }

  /** What a cleaned name looks like: word characters and single inner spaces. */
  predicate IsCleanName(s: string)
  {
    WordsAndSpaces(s) && SingleSpaced(s) && (|s| > 0 ==> s[0] != ' ' && s[|s| - 1] != ' ')
  }

  lemma CollapsedReplaced(name: string)
    ensures WordsAndSpaces(CollapseSpaces(ReplaceSpecial(name)))
    ensures SingleSpaced(CollapseSpaces(ReplaceSpecial(name)))
  {
    var replaced := ReplaceSpecial(name);
    var r := CollapseSpaces(replaced);
    forall i | 0 <= i < |r|
      ensures IsWordChar(r[i]) || r[i] == ' '
    {
      if r[i] != ' ' {
        var k :| 0 <= k < |replaced| && replaced[k] == r[i];
      }
    }
  }

  lemma SliceClean(s: string, i: int, j: int)
    requires 0 <= i <= j <= |s|
    requires WordsAndSpaces(s) && SingleSpaced(s)
    ensures WordsAndSpaces(s[i..j]) && SingleSpaced(s[i..j])
  {
    var t := s[i..j];
    assert forall k :: 0 <= k < |t| ==> t[k] == s[i + k];
  }

  /** `clean_column_name(column_name)`. */
  function CleanColumnName(name: string): (r: string)
    ensures IsCleanName(r)
  {
    var collapsed := CollapseSpaces(ReplaceSpecial(name));
    var r := Strip(collapsed);
    CollapsedReplaced(name);
    var i, j :| TrimmedSlice(collapsed, r, i, j);
    SliceClean(collapsed, i, j);
    r
  }

  /** The word characters of `s`, in order. */
  function WordChars(s: string): string
    decreases |s|
  {
    if |s| == 0 then "" else (if IsWordChar(s[0]) then [s[0]] else "") + WordChars(s[1..])
  }

  lemma {:induction false} WordCharsAppend(a: string, b: string)
    ensures WordChars(a + b) == WordChars(a) + WordChars(b)
    decreases |a|
  {
    if |a| == 0 {
      assert a + b == b;
    } else {
      var head: string := if IsWordChar(a[0]) then [a[0]] else "";
      assert (a + b)[0] == a[0];
      assert (a + b)[1..] == a[1..] + b;
      assert WordChars(a + b) == head + WordChars(a[1..] + b);
      WordCharsAppend(a[1..], b);
      assert head + (WordChars(a[1..]) + WordChars(b)) == (head + WordChars(a[1..])) + WordChars(b);
    }
  }

  lemma {:induction false} WordCharsOfSpaces(s: string)
    requires forall k :: 0 <= k < |s| ==> IsSpace(s[k])
    ensures WordChars(s) == ""
    decreases |s|
  {
    if |s| > 0 {
      WordCharsOfSpaces(s[1..]);
    }
  }

  /** Replacing special characters keeps every word character. */
  lemma {:induction false} ReplaceKeepsWords(s: string)
    ensures WordChars(ReplaceSpecial(s)) == WordChars(s)
    decreases |s|
  {
    if |s| > 0 {
      assert ReplaceSpecial(s)[1..] == ReplaceSpecial(s[1..]);
      ReplaceKeepsWords(s[1..]);
    }
  }

  /** Collapsing whitespace keeps every word character. */
  lemma {:induction false} CollapseKeepsWords(s: string)
    ensures WordChars(CollapseSpaces(s)) == WordChars(s)
    decreases |s|
  {
    if |s| > 0 {
      if IsSpace(s[0]) {
        var n := LeadingSpaces(s);
        assert s == s[..n] + s[n..];
        WordCharsAppend(s[..n], s[n..]);
        WordCharsOfSpaces(s[..n]);
        CollapseKeepsWords(s[n..]);
        assert (" " + CollapseSpaces(s[n..]))[1..] == CollapseSpaces(s[n..]);
      } else {
        CollapseKeepsWords(s[1..]);
        assert ([s[0]] + CollapseSpaces(s[1..]))[1..] == CollapseSpaces(s[1..]);
      }
    }
  }

  /** Stripping keeps every word character. */
  lemma StripKeepsWords(s: string)
    ensures WordChars(Strip(s)) == WordChars(s)
  {
    var i, j :| TrimmedSlice(s, Strip(s), i, j);
    TrimmedSliceWords(s, Strip(s), i, j);
  }

  lemma TrimmedSliceWords(s: string, r: string, i: int, j: int)
    requires TrimmedSlice(s, r, i, j)
    ensures WordChars(r) == WordChars(s)
  {
    assert s == s[..i] + s[i..j] + s[j..];
    WordCharsAppend(s[..i] + s[i..j], s[j..]);
    WordCharsAppend(s[..i], s[i..j]);
    WordCharsOfSpaces(s[..i]);
    WordCharsOfSpaces(s[j..]);
  }

  /** Cleaning keeps the word characters of the name, in their order, and
      gives the empty string exactly for a name without any. */
  lemma CleanKeepsWords(name: string)
    ensures WordChars(CleanColumnName(name)) == WordChars(name)
    ensures CleanColumnName(name) == "" <==> WordChars(name) == ""
  {
    var collapsed := CollapseSpaces(ReplaceSpecial(name));
    ReplaceKeepsWords(name);
    CollapseKeepsWords(ReplaceSpecial(name));
    StripKeepsWords(collapsed);
    var r := CleanColumnName(name);
    if r != "" {
      assert IsWordChar(r[0]);
    }
  }

  /** A clean name passes through whitespace collapsing unchanged. */
  lemma {:induction false} CollapseClean(s: string)
    requires forall i :: 0 <= i < |s| ==> IsWordChar(s[i]) || s[i] == ' '
    requires forall i :: 0 <= i < |s| - 1 ==> !(s[i] == ' ' && s[i + 1] == ' ')
    ensures CollapseSpaces(s) == s
    decreases |s|
  {
    if |s| > 0 {
      if IsSpace(s[0]) {
        assert LeadingSpaces(s) == 1 by {
          if |s| > 1 {
            assert !IsSpace(s[1]);
          }
        }
      }
      CollapseClean(s[1..]);
      assert s == [s[0]] + s[1..];
    }
  }

  /** A clean name is its own cleaning. */
  lemma CleanFixesClean(s: string)
    requires IsCleanName(s)
    ensures CleanColumnName(s) == s
  {
    assert ReplaceSpecial(s) == s;
    CollapseClean(s);
    StripStripped(s);
  }

  /** Cleaning twice is cleaning once. */
  lemma CleanIdempotent(name: string)
    ensures CleanColumnName(CleanColumnName(name)) == CleanColumnName(name)
  {
    CleanFixesClean(CleanColumnName(name));
  }

  /** A cleaned name does not end with a question mark. */
  lemma CleanNameEnd(s: string)
    requires IsCleanName(s)
    ensures |s| > 0 ==> s[|s| - 1] != '?'
  {
  }

  /** `generate_question_text(column_name)`: a cleaned name never ends with
      `?`, so the mark is always appended. */
  function GenerateQuestionText(name: string): (r: string)
    ensures r == CleanColumnName(name) + "?"
    ensures |r| > 0 && r[|r| - 1] == '?'
  {
    var text := CleanColumnName(name);
    CleanNameEnd(text);
    if |text| > 0 && text[|text| - 1] == '?' then assert false; text else text + "?"
  }

  // ---------------------------------------------------------------------
  // Options of a question

  /** The texts of the distinct present values other than the empty string,
      in order of first occurrence. */
  function SingleChoiceTexts(cells: seq<Cell>): seq<string>
  {
    var kept := SingleChoiceValues(cells);
    seq(|kept|, i requires 0 <= i < |kept| => CellText(kept[i]))
  }

  /** The distinct present values other than the empty string. */
  function SingleChoiceValues(cells: seq<Cell>): seq<Cell>
  {
    var d := Dedup(NonNull(cells));
    Select(d, NotEmptyMask(d))
  }

  function NotEmptyMask(d: seq<Cell>): (keep: seq<bool>)
    ensures |keep| == |d|
  {
    seq(|d|, i requires 0 <= i < |d| => d[i] != Str(""))
  }

  /** The stripped `;`-pieces of every value that holds a `;`, in order. */
  function MultipleChoiceTokens(values: seq<Cell>): seq<string>
    decreases |values|
  {
    if |values| == 0 then []
    else
      var last := values[|values| - 1];
      MultipleChoiceTokens(values[..|values| - 1])
        + (if HasSeparator(last) then StrippedTokens(CellText(last)) else [])
  }

  /** A piece is collected exactly when some value holding a `;` has it
      among its stripped pieces. */
  lemma MultipleChoiceTokensMembership(values: seq<Cell>, x: string)
    ensures x in MultipleChoiceTokens(values) <==>
      exists c :: c in values && HasSeparator(c) && x in StrippedTokens(CellText(c))
  {
    if x in MultipleChoiceTokens(values) {
      MultipleChoiceTokensOrigin(values, x);
    }
    if c :| c in values && HasSeparator(c) && x in StrippedTokens(CellText(c)) {
      MultipleChoiceTokensHas(values, c, x);
    }
  }

  lemma {:induction false} MultipleChoiceTokensOrigin(values: seq<Cell>, x: string)
    requires x in MultipleChoiceTokens(values)
    ensures exists c :: c in values && HasSeparator(c) && x in StrippedTokens(CellText(c))
    decreases |values|
  {
    var init, last := values[..|values| - 1], values[|values| - 1];
    var front := MultipleChoiceTokens(init);
    var back := if HasSeparator(last) then StrippedTokens(CellText(last)) else [];
    assert MultipleChoiceTokens(values) == front + back;
    if x in front {
      MultipleChoiceTokensOrigin(init, x);
      var c :| c in init && HasSeparator(c) && x in StrippedTokens(CellText(c));
      InitOrLast(values, c);
    } else {
      assert x in back;
      InitOrLast(values, last);
    }
  }

  lemma {:induction false} MultipleChoiceTokensHas(values: seq<Cell>, c: Cell, x: string)
    requires c in values && HasSeparator(c) && x in StrippedTokens(CellText(c))
    ensures x in MultipleChoiceTokens(values)
    decreases |values|
  {
    var init, last := values[..|values| - 1], values[|values| - 1];
    if c != last {
      InitOrLast(values, c);
      MultipleChoiceTokensHas(init, c, x);
    }
  }

  /** The options `extract_question_options` returns for a column classified
      as `t`: the sorted texts above for single choice, the sorted distinct
      pieces for multiple choice, nothing otherwise. */
  function OptionsOf(column: Series, t: QuestionType): Option<seq<string>>
  {
    match t
    case SingleChoice => Some(SortStrings(SingleChoiceTexts(column.cells)))
    case MultipleChoice => Some(SortedDistinct(MultipleChoiceTokens(NonNull(column.cells))))
    case _ => None
  }

  /** Only choice questions have options. */
  lemma OptionsOnlyForChoices(column: Series, t: QuestionType)
    ensures OptionsOf(column, t).Some? <==> t == SingleChoice || t == MultipleChoice
  {
  }

  /** A value is kept iff it is present and not the empty string. */
  lemma SingleChoiceValuesMembership(cells: seq<Cell>, c: Cell)
    ensures c in SingleChoiceValues(cells) <==> c in cells && c != Null && c != Str("")
  {
    var d := Dedup(NonNull(cells));
    SelectMembership(d, NotEmptyMask(d), c);
    if c in d && c != Str("") {
      var i :| 0 <= i < |d| && d[i] == c;
      assert NotEmptyMask(d)[i];
    }
  }

  /** A text is offered iff some present value other than the empty string
      shows as that text. */
  lemma SingleChoiceTextsMembership(cells: seq<Cell>, x: string)
    ensures x in SingleChoiceTexts(cells) <==>
      exists c :: c in cells && c != Null && c != Str("") && CellText(c) == x
  {
    var kept := SingleChoiceValues(cells);
    var texts := SingleChoiceTexts(cells);
    if x in texts {
      var k :| 0 <= k < |texts| && texts[k] == x;
      assert kept[k] in kept;
      SingleChoiceValuesMembership(cells, kept[k]);
    }
    if c :| c in cells && c != Null && c != Str("") && CellText(c) == x {
      SingleChoiceValuesMembership(cells, c);
      var k :| 0 <= k < |kept| && kept[k] == c;
      assert texts[k] == x;
    }
  }

  /** With no number among the values, distinct values give distinct texts. */
  lemma SingleChoiceTextsDistinct(cells: seq<Cell>)
    requires forall c :: c in cells ==> !c.Num?
    ensures NoDup(SingleChoiceTexts(cells))
  {
    var d := Dedup(NonNull(cells));
    var kept := SingleChoiceValues(cells);
    var texts := SingleChoiceTexts(cells);
    SelectNoDup(d, NotEmptyMask(d));
    assert forall c :: c in kept ==> c.Str?;
    forall a, b | 0 <= a < b < |texts|
      ensures texts[a] != texts[b]
    {
      assert kept[a] in kept && kept[b] in kept;
      assert texts[a] == kept[a].s && texts[b] == kept[b].s;
    }
  }

  /** Single-choice options are sorted and are exactly the texts of the
      present values other than the empty string; when no present value is
      a number they are also free of repeats. */
  lemma SingleChoiceOptions(column: Series)
    ensures Sorted(OptionsOf(column, SingleChoice).value)
    ensures forall x :: x in OptionsOf(column, SingleChoice).value <==>
      exists c :: c in column.cells && c != Null && c != Str("") && CellText(c) == x
    ensures (forall c :: c in column.cells ==> !c.Num?) ==> StrictlySorted(OptionsOf(column, SingleChoice).value)
  {
    var texts := SingleChoiceTexts(column.cells);
    var r := OptionsOf(column, SingleChoice).value;
    SortStringsSpec(texts);
    SortStringsMembers(texts);
    forall x
      ensures x in r <==> exists c :: c in column.cells && c != Null && c != Str("") && CellText(c) == x
    {
      SingleChoiceTextsMembership(column.cells, x);
    }
    if forall c :: c in column.cells ==> !c.Num? {
      SingleChoiceTextsDistinct(column.cells);
      SortNoDupStrict(texts);
    }
  }

  /** Multiple-choice options are strictly sorted, are exactly the stripped
      pieces of the values that hold a `;`, and carry no `;` and no
      surrounding whitespace. */
  lemma MultipleChoiceOptions(column: Series)
    ensures StrictlySorted(OptionsOf(column, MultipleChoice).value)
    ensures forall x :: x in OptionsOf(column, MultipleChoice).value <==>
      exists c :: c in column.cells && c != Null && HasSeparator(c) && x in StrippedTokens(CellText(c))
    ensures forall x :: x in OptionsOf(column, MultipleChoice).value ==>
      ';' !in x && (|x| > 0 ==> !IsSpace(x[0]) && !IsSpace(x[|x| - 1]))
  {
    var values := NonNull(column.cells);
    SortedDistinctSpec(MultipleChoiceTokens(values));
    forall x
      ensures x in OptionsOf(column, MultipleChoice).value <==>
        exists c :: c in column.cells && c != Null && HasSeparator(c) && x in StrippedTokens(CellText(c))
      ensures x in OptionsOf(column, MultipleChoice).value ==>
        ';' !in x && (|x| > 0 ==> !IsSpace(x[0]) && !IsSpace(x[|x| - 1]))
    {
      MultipleChoiceTokensMembership(values, x);
      if x in OptionsOf(column, MultipleChoice).value {
        var c :| c in values && HasSeparator(c) && x in StrippedTokens(CellText(c));
        StrippedTokensClean(CellText(c));
      }
    }
  }

  /** `extract_question_options(column_data, question_type)`. */
  method ExtractQuestionOptions(column: Series, t: QuestionType) returns (r: Option<seq<string>>)
    ensures r == OptionsOf(column, t)
  {
    if t == SingleChoice {
      r := Some(SortStrings(SingleChoiceTexts(column.cells)));
    } else if t == MultipleChoice {
      var values := NonNull(column.cells);
      var all: set<string> := {};
      for i := 0 to |values|
        invariant forall x :: x in all <==> x in MultipleChoiceTokens(values[..i])
      {
        var v := values[i];
        assert values[..i + 1][..i] == values[..i];
        if HasSeparator(v) {
          var pieces := StrippedTokens(CellText(v));
          all := all + set p | p in pieces;
        }
      }
      assert values[..|values|] == values;
      var listed := SetToSeq(all);
      SortNoDupStrict(listed);
      SortedDistinctSpec(MultipleChoiceTokens(values));
      StrictlySortedUnique(SortStrings(listed), SortedDistinct(MultipleChoiceTokens(values)));
      r := Some(SortStrings(listed));
    } else {
      r := None;
    }
  }

  // ---------------------------------------------------------------------
  // Search

  /** Some option of the question matches the term. */
  predicate OptionMatches(q: Question, term: string)
  {
    q.options.Some? && exists o | o in q.options.value :: ContainsIgnoreCase(o, term)
  }

  /** The question text, the column name or an option matches the term. */
  predicate QuestionMatches(q: Question, term: string)
  {
    ContainsIgnoreCase(q.questionText, term) || ContainsIgnoreCase(q.columnName, term) || OptionMatches(q, term)
  }

  function SearchMask(qs: seq<Question>, term: string): (keep: seq<bool>)
    ensures |keep| == |qs|
  {
    seq(|qs|, i requires 0 <= i < |qs| => QuestionMatches(qs[i], term))
  }

  /** `search_questions(questions, search_term)`: the matching questions in
      their original order. */
  method SearchQuestions(qs: seq<Question>, term: string) returns (r: seq<Question>)
    ensures r == Select(qs, SearchMask(qs, term))
  {
    var t := Lower(term);
    ghost var keep := SearchMask(qs, term);
    r := [];
    for i := 0 to |qs|
      invariant r == Select(qs[..i], keep[..i])
    {
      SelectStep(qs, keep, i);
      var found := MatchesLowered(qs[i], t, term);
      if found {
        r := r + [qs[i]];
      }
    }
    assert qs[..|qs|] == qs && keep[..|qs|] == keep;
  }

  /** The body of the question loop: the text and column name first, then
      the options one by one until one matches. */
  method MatchesLowered(q: Question, t: string, ghost term: string) returns (found: bool)
    requires t == Lower(term)
    ensures found == QuestionMatches(q, term)
  {
    if Contains(Lower(q.questionText), t) || Contains(Lower(q.columnName), t) {
      return true;
    }
    found := false;
    if q.options.Some? && |q.options.value| > 0 {
      var opts := q.options.value;
      var j := 0;
      while j < |opts|
        invariant 0 <= j <= |opts|
        invariant forall k :: 0 <= k < j ==> !ContainsIgnoreCase(opts[k], term)
      {
        if Contains(Lower(opts[j]), t) {
          OptionFound(q, term, j);
          return true;
        }
        j := j + 1;
      }
      NoOptionFound(q, term);
    }
  }

  lemma OptionFound(q: Question, term: string, j: int)
    requires q.options.Some? && 0 <= j < |q.options.value|
    requires ContainsIgnoreCase(q.options.value[j], term)
    ensures OptionMatches(q, term)
  {
    assert q.options.value[j] in q.options.value;
  }

  lemma NoOptionFound(q: Question, term: string)
    requires q.options.Some?
    requires forall k :: 0 <= k < |q.options.value| ==> !ContainsIgnoreCase(q.options.value[k], term)
    ensures !OptionMatches(q, term)
  {
  }

  /** A question is found iff it matches the term. */
  lemma SearchQuestionsMembership(qs: seq<Question>, term: string, q: Question)
    ensures q in Select(qs, SearchMask(qs, term)) <==> q in qs && QuestionMatches(q, term)
  {
    SelectMembership(qs, SearchMask(qs, term), q);
  }

  /** The empty term matches every question. */
  lemma SearchEmptyTerm(qs: seq<Question>)
    ensures Select(qs, SearchMask(qs, "")) == qs
  {
    forall i | 0 <= i < |qs|
      ensures SearchMask(qs, "")[i]
    {
      ContainsEmpty(Lower(qs[i].questionText));
    }
  }

  /** The search ignores the case of the term. */
  lemma SearchIgnoresCase(qs: seq<Question>, term: string)
    ensures SearchMask(qs, Lower(term)) == SearchMask(qs, term)
  {
    LowerIdempotent(term);
  }

  /** The options of a list that match the term, in their order. */
  function MatchingOptions(opts: seq<string>, term: string): seq<string>
  {
    Select(opts, seq(|opts|, i requires 0 <= i < |opts| => ContainsIgnoreCase(opts[i], term)))
  }

  /** An option is kept iff it matches. */
  lemma MatchingOptionsMembership(opts: seq<string>, term: string, x: string)
    ensures x in MatchingOptions(opts, term) <==> x in opts && ContainsIgnoreCase(x, term)
  {
    SelectMembership(opts, seq(|opts|, i requires 0 <= i < |opts| => ContainsIgnoreCase(opts[i], term)), x);
  }

  /** The list of matching options is non-empty iff some option matches. */
  lemma OptionMatchesNonEmpty(q: Question, term: string)
    requires q.options.Some?
    ensures OptionMatches(q, term) <==> |MatchingOptions(q.options.value, term)| > 0
  {
    var m := MatchingOptions(q.options.value, term);
    if OptionMatches(q, term) {
      var o :| o in q.options.value && ContainsIgnoreCase(o, term);
      MatchingOptionsMembership(q.options.value, term, o);
    }
    if |m| > 0 {
      assert m[0] in m;
      MatchingOptionsMembership(q.options.value, term, m[0]);
    }
  }

  /** The questions with at least one matching option. */
  function OptionHits(qs: seq<Question>, term: string): (keep: seq<bool>)
    ensures |keep| == |qs|
  {
    seq(|qs|, i requires 0 <= i < |qs| =>
      qs[i].options.Some? && |MatchingOptions(qs[i].options.value, term)| > 0)
  }

  /** Every question paired with its matching options. */
  function OptionPairs(qs: seq<Question>, term: string): (pairs: seq<(Question, seq<string>)>)
    ensures |pairs| == |qs|
  {
    seq(|qs|, i requires 0 <= i < |qs| =>
      (qs[i], if qs[i].options.Some? then MatchingOptions(qs[i].options.value, term) else []))
  }

  /** `search_options(questions, search_term)`: in question order, each
      question with a matching option, paired with its matching options. */
  function SearchOptions(qs: seq<Question>, term: string): (r: seq<(Question, seq<string>)>)
    ensures |r| == |TruePositions(OptionHits(qs, term))|
    ensures forall k :: 0 <= k < |r| ==>
      (var i := TruePositions(OptionHits(qs, term))[k];
       r[k].0 == qs[i] && qs[i].options.Some? && OptionMatches(qs[i], term)
       && r[k].1 == MatchingOptions(qs[i].options.value, term))
    ensures forall q :: q in qs && OptionMatches(q, term) ==> exists k :: 0 <= k < |r| && r[k].0 == q
  {
    OptionPairsSelected(qs, term);
    Select(OptionPairs(qs, term), OptionHits(qs, term))
  }

  lemma OptionPairsSelected(qs: seq<Question>, term: string)
    ensures var r := Select(OptionPairs(qs, term), OptionHits(qs, term));
      && |r| == |TruePositions(OptionHits(qs, term))|
      && (forall k :: 0 <= k < |r| ==>
            (var i := TruePositions(OptionHits(qs, term))[k];
             r[k].0 == qs[i] && qs[i].options.Some? && OptionMatches(qs[i], term)
             && r[k].1 == MatchingOptions(qs[i].options.value, term)))
      && (forall q :: q in qs && OptionMatches(q, term) ==> exists k :: 0 <= k < |r| && r[k].0 == q)
  {
    var keep := OptionHits(qs, term);
    var pairs := OptionPairs(qs, term);
    var r := Select(pairs, keep);
    SelectAt(pairs, keep);
    var p := TruePositions(keep);
    forall k | 0 <= k < |r|
      ensures OptionMatches(qs[p[k]], term)
    {
      OptionMatchesNonEmpty(qs[p[k]], term);
    }
    forall q | q in qs && OptionMatches(q, term)
      ensures exists k :: 0 <= k < |r| && r[k].0 == q
    {
      var i :| 0 <= i < |qs| && qs[i] == q;
      OptionMatchesNonEmpty(q, term);
      assert keep[i];
      var k :| 0 <= k < |p| && p[k] == i;
      assert r[k].0 == q;
    }
  }

  lemma LowerExamples()
    ensures Lower("Java") == "java" && Lower("JavaScript") == "javascript" && Lower("Python") == "python"
  {
  }

  /** With options Python, JavaScript and Java, the term "Java" matches the
      last two, in that order. */
  lemma MatchingOptionsExample()
    ensures MatchingOptions(["Python", "JavaScript", "Java"], "Java") == ["JavaScript", "Java"]
  {
    LowerExamples();
    assert OccursAt("javascript", "java", 0);
    assert OccursAt("java", "java", 0);
    forall i | 0 <= i <= 2
      ensures !OccursAt("python", "java", i)
    {
      assert "python"[i] != 'j';
      assert "python"[i..i + 4][0] == "python"[i];
    }
    var opts := ["Python", "JavaScript", "Java"];
    var keep := seq(3, i requires 0 <= i < 3 => ContainsIgnoreCase(opts[i], "Java"));
    assert keep == [false, true, true];
    assert opts[..2][..1] == opts[..1] && keep[..2][..1] == keep[..1];
    assert Select(opts[..1], keep[..1]) == [] by {
      assert opts[..1][..0] == [] && keep[..1][..0] == [];
    }
    assert Select(opts[..2], keep[..2]) == ["JavaScript"];
    assert MatchingOptions(opts, "Java") == Select(opts, keep);
  }

  // ---------------------------------------------------------------------
  // Loading

  /** The question `load_survey_data` builds for column `c` of the combined
      frame. */
  function BuildQuestion(t: Table, c: string): Question
  {
    var column := Column(t, c);
    var qt := DetectQuestionType(column, c);
    Question(c, GenerateQuestionText(c), qt, OptionsOf(column, qt), None)
  }

  /** One question per column, in column order. */
  function Catalog(t: Table): (qs: seq<Question>)
    ensures |qs| == |t.columns|
  {
    seq(|t.columns|, i requires 0 <= i < |t.columns| => BuildQuestion(t, t.columns[i]))
  }

  /** The loop of `load_survey_data` that builds one question per column of
      the combined frame. */
  method BuildCatalog(t: Table) returns (questions: seq<Question>)
    ensures questions == Catalog(t)
  {
    questions := [];
    for i := 0 to |t.columns|
      invariant questions == Catalog(t)[..i]
    {
      var columnName := t.columns[i];
      var column := Column(t, columnName);
      var questionType := DetectQuestionType(column, columnName);
      var options := ExtractQuestionOptions(column, questionType);
      var questionText := GenerateQuestionText(columnName);
      var question := Question(columnName, questionText, questionType, options, None);
      CatalogStep(t, i, question);
      questions := questions + [question];
    }
  }

  lemma CatalogStep(t: Table, i: int, q: Question)
    requires 0 <= i < |t.columns| && q == BuildQuestion(t, t.columns[i])
    ensures Catalog(t)[..i + 1] == Catalog(t)[..i] + [q]
  {
    PrefixStep(Catalog(t), i);
  }

  /** `load_survey_data(file_paths)` after reading: `parts` holds the frames of
      the files that could be read, in order. No frame is an error;
      otherwise the frames are concatenated and every column gets a question. */
  method LoadSurveyData(parts: seq<Table>) returns (r: Result<SurveyData, Error>)
    ensures |parts| == 0 ==> r == Err(NoDataLoaded)
    ensures |parts| > 0 ==> r == Ok(SurveyData(Concat(parts), Catalog(Concat(parts))))
  {
    if |parts| == 0 {
      return Err(NoDataLoaded);
    }
    var combined := Concat(parts);
    var questions := BuildCatalog(combined);
    r := Ok(SurveyData(combined, questions));
  }

  /** Each question of the catalog is named after its column. */
  lemma CatalogNames(t: Table)
    ensures forall i :: 0 <= i < |Catalog(t)| ==> Catalog(t)[i].columnName == t.columns[i]
  {
  }

  /** Over distinct column names, `get_question` finds exactly the columns,
      each with the question built from it. */
  lemma CatalogLookup(t: Table, c: string)
    requires NoDup(t.columns)
    ensures GetQuestion(SurveyData(t, Catalog(t)), c).Some? <==> c in t.columns
    ensures c in t.columns ==> GetQuestion(SurveyData(t, Catalog(t)), c) == Some(BuildQuestion(t, c))
  {
    var sd := SurveyData(t, Catalog(t));
    CatalogNames(t);
    if c in t.columns {
      var i :| 0 <= i < |t.columns| && t.columns[i] == c;
      GetQuestionDistinct(sd, i);
    }
  }

  /** The loaded survey has one respondent per row of every frame, one
      question per distinct column, and `get_question` finds, for each
      column, the question built from it. */
  lemma LoadedSurvey(parts: seq<Table>, c: string)
    ensures var sd := SurveyData(Concat(parts), Catalog(Concat(parts)));
      && RespondentCount(sd) == TotalRows(parts)
      && QuestionCount(sd) == |UnionColumns(parts)|
      && (GetQuestion(sd, c).Some? <==> exists k :: 0 <= k < |parts| && c in parts[k].columns)
      && (GetQuestion(sd, c).Some? ==> GetQuestion(sd, c).value == BuildQuestion(Concat(parts), c))
  {
    ConcatRowCount(parts);
    CatalogLookup(Concat(parts), c);
  }
}
