/** Where the two implementations disagree on the same data: the package
    classifier looks at only the first 100 present values, `core.py` at all
    of them; the package trims multiple-choice pieces, `core.py` does not. */
module Contrast {
  import opened Strings
  import opened Frames
  import opened Models
  import Utils
  import Analyzer
  import Core

  /** One hundred answers "x". */
  function Repeated(): (cells: seq<Cell>)
    ensures |cells| == 100
  {
    seq(100, i requires 0 <= i < 100 => Str("x"))
  }

  /** One hundred answers "x" followed by one answer "a;b". */
  function LateSeparatorColumn(): (cells: seq<Cell>)
    ensures |cells| == 101
  {
    Repeated() + [Str("a;b")]
  }

  lemma RepeatedCells()
    ensures NonNull(Repeated()) == Repeated()
    ensures forall c :: c in Repeated() ==> c == Str("x")
  {
    NonNullAllPresent(Repeated());
  }

  lemma LateSeparatorCells()
    ensures NonNull(Repeated()) == Repeated()
    ensures NonNull(LateSeparatorColumn()) == LateSeparatorColumn()
    ensures forall c :: c in Repeated() ==> c == Str("x")
    ensures (set c | c in LateSeparatorColumn()) == {Str("x"), Str("a;b")}
  {
    var cells := LateSeparatorColumn();
    RepeatedCells();
    assert NonNull(cells) == cells by {
      NonNullAllPresent(cells);
    }
    assert cells[0] == Str("x") && cells[100] == Str("a;b");
    forall c
      ensures c in cells <==> c == Str("x") || c == Str("a;b")
    {
      assert c in cells <==> c in Repeated() || c == Str("a;b");
    }
  }

  /** The first hundred answers hold no `;`, so the package does not see
      multiple choice. */
  lemma PackageMissesLateSeparator()
    ensures Utils.DetectQuestionType(Series(LateSeparatorColumn(), false), "c") != MultipleChoice
  {
    LateSeparatorCells();
    assert CellText(Str("x")) == "x";
    assert Utils.Head(NonNull(Repeated()), Utils.SampleSize) == Repeated();
    assert Utils.DetectQuestionType(Series(Repeated(), false), "c") != MultipleChoice;
    Utils.LaterValuesIgnored(Repeated(), [Str("a;b")], "c");
  }

  /** On that column the package sees single choice (2 distinct values among
      101), `core.py` multiple choice. */
  lemma ClassifiersDisagree()
    ensures Utils.DetectQuestionType(Series(LateSeparatorColumn(), false), "c") == SingleChoice
    ensures Core.QuestionKind(Series(LateSeparatorColumn(), false)) == Core.MC
  {
    var cells := LateSeparatorColumn();
    LateSeparatorCells();
    PackageMissesLateSeparator();
    assert Utils.DistinctCount(cells) == 2;
    Utils.SingleChoiceCriterion(Series(cells, false), "c");
    assert Core.HasSemicolon(cells[100]) by {
      assert "a;b"[1] == ';';
    }
    Core.QuestionKindSpec(Series(cells, false));
  }

  lemma SplitExample()
    ensures Split("Python; Java", ';') == ["Python", " Java"]
  {
    SplitNoSep(" Java", ';');
    assert "Python; Java" == "Python" + [';'] + " Java";
    SplitPrefix("Python", " Java", ';');
  }

  lemma StripExample()
    ensures Strip(" Java") == "Java"
  {
    var s := " Java";
    assert LeadingSpaces(s) == 1 by {
      assert s[0] == ' ' && s[1] == 'J';
    }
    assert s[1..] == "Java";
    assert TextEnd("Java") == 4 by {
      assert "Java"[3] == 'a';
    }
  }

  /** The package's pieces of "Python; Java" are trimmed. */
  lemma TrimmedPieces()
    ensures "Java" in StrippedTokens("Python; Java")
  {
    SplitExample();
    StripExample();
    assert StrippedTokens("Python; Java")[1] == Strip(" Java");
  }

  /** `core.py`'s pieces of "Python; Java" are not. */
  lemma UntrimmedPieces()
    ensures "Java" !in Split("Python; Java", ';')
  {
    SplitExample();
    assert " Java" != "Java" by {
      assert |" Java"| != |"Java"|;
    }
  }

  /** The answer "Python; Java" selects option "Java" in the package's
      subset, whose pieces are trimmed, but not in `core.py`'s filter, whose
      second piece is " Java". */
  lemma TrimmingDisagrees()
    ensures Analyzer.TokenSelected(Str("Python; Java"), ["Java"])
    ensures !Core.RespondentSelected(Core.MC, Str("Python; Java"), "Java")
  {
    TrimmedPieces();
    UntrimmedPieces();
    assert CellText(Str("Python; Java")) == "Python; Java";
  }
}
