/**
  The cop's documented scenarios, one lemma each, on concrete files.
  A file is given by its comments, the line of its first AST node and its
  lines; `isMagic` is any magic-comment recogniser that agrees with the
  facts the scenarios rely on.
 */
module EmptyLineAfterSigilCases {
  import opened RubyCore
  import opened EmptyLineAfterTypeSigil

  const Untyped: string := "# typed: false"
  const Frozen: string := "# frozen_string_literal: true"
  const Typed: string := "# typed: true"
  const Plain: string := "# Some comment"
  const ClassLine: string := "class MyClass"
  const EndLine: string := "end"

  /** The message reported at column 0 of 1-based line `line`. */
  function OffenseAt(line: nat): Offense
  {
    Offense(Location(line, 0), MSG)
  }

  /**
    The general argument every scenario with an offense follows: position
    `j` of the header is the selected sigil and the line after it is not
    blank, so the offense sits right below the sigil and the correction
    inserts an empty line there.
   */
  lemma OffenseBelowSelected(src: ProcessedSource, isMagic: string -> bool, j: nat, line: nat)
    requires WellFormed(src) && src.astLine.Some?
    requires SelectedAt(HeaderComments(src.comments, src.astLine.value), j, isMagic)
    requires var sigil := HeaderComments(src.comments, src.astLine.value)[j];
             && line == sigil.line + 1
             && sigil.line < |src.lines| && !Blank(src.lines[sigil.line])
    ensures LastTypeSigil(src.comments, src.astLine.value, isMagic)
         == Some(HeaderComments(src.comments, src.astLine.value)[j])
    ensures OnNewInvestigation(src, isMagic) == Some(OffenseAt(line))
    ensures Autocorrect(src, isMagic) == InsertEmptyLineBefore(src.lines, line)
  {
    SelectSigilComplete(HeaderComments(src.comments, src.astLine.value), isMagic, j);
  }

  /** A sigil directly above the class: offense on the class line, fixed by an empty line. */
  lemma SigilDirectlyAboveCode(isMagic: string -> bool)
    requires MagicAsInScenarios(isMagic)
    ensures var src := ProcessedSource([Comment(1, Untyped)], Some(2), [Untyped, ClassLine, EndLine]);
            && OnNewInvestigation(src, isMagic) == Some(OffenseAt(2))
            && Autocorrect(src, isMagic) == [Untyped, "", ClassLine, EndLine]
  {
    var src := ProcessedSource([Comment(1, Untyped)], Some(2), [Untyped, ClassLine, EndLine]);
    assert HeaderComments(src.comments, 2) == src.comments;
    assert SelectedAt(src.comments, 0, isMagic) by {
      assert IsSigil(Untyped) by { assert Untyped[..|SigilPrefix|] == SigilPrefix; }
    }
    assert !Blank(ClassLine) by { assert !IsStripped(ClassLine[0]); }
    assert InsertEmptyLineBefore(src.lines, 2) == [Untyped, "", ClassLine, EndLine] by {
      var r := InsertEmptyLineBefore(src.lines, 2);
      assert r[..1] == src.lines[..1] && r[2..] == src.lines[1..];
      assert r[0] == Untyped && r[1] == "" && r[2] == ClassLine && r[3] == EndLine;
    }
    OffenseBelowSelected(src, isMagic, 0, 2);
  }

  /** A magic comment between the sigil and the code: no offense. */
  lemma MagicCommentAfterSigil(isMagic: string -> bool)
    requires MagicAsInScenarios(isMagic)
    ensures var src := ProcessedSource([Comment(1, Untyped), Comment(2, Frozen)], Some(3),
                                       [Untyped, Frozen, ClassLine, EndLine]);
            OnNewInvestigation(src, isMagic).None?
  {
    var header := [Comment(1, Untyped), Comment(2, Frozen)];
    assert HeaderComments(header, 3) == header;
    assert NonMagicRun(header, isMagic) == [];
  }

  /** A magic comment above the sigil: offense on the class line, fixed below the sigil. */
  lemma MagicCommentBeforeSigil(isMagic: string -> bool)
    requires MagicAsInScenarios(isMagic)
    ensures var src := ProcessedSource([Comment(1, Frozen), Comment(2, Untyped)], Some(3),
                                       [Frozen, Untyped, ClassLine, EndLine]);
            && OnNewInvestigation(src, isMagic) == Some(OffenseAt(3))
            && Autocorrect(src, isMagic) == [Frozen, Untyped, "", ClassLine, EndLine]
  {
    var src := ProcessedSource([Comment(1, Frozen), Comment(2, Untyped)], Some(3),
                               [Frozen, Untyped, ClassLine, EndLine]);
    assert HeaderComments(src.comments, 3) == src.comments;
    assert SelectedAt(src.comments, 1, isMagic) by {
      assert IsSigil(Untyped) by { assert Untyped[..|SigilPrefix|] == SigilPrefix; }
    }
    assert !Blank(ClassLine) by { assert !IsStripped(ClassLine[0]); }
    assert InsertEmptyLineBefore(src.lines, 3) == [Frozen, Untyped, "", ClassLine, EndLine] by {
      var r := InsertEmptyLineBefore(src.lines, 3);
      assert r[..2] == src.lines[..2] && r[3..] == src.lines[2..];
      assert r[0] == Frozen && r[1] == Untyped && r[2] == "" && r[3] == ClassLine && r[4] == EndLine;
    }
    OffenseBelowSelected(src, isMagic, 1, 3);
  }

  /** An empty line already follows the sigil: no offense. */
  lemma EmptyLineAfterSigil(isMagic: string -> bool)
    requires MagicAsInScenarios(isMagic)
    ensures var src := ProcessedSource([Comment(1, Untyped)], Some(3), [Untyped, "", ClassLine, EndLine]);
            OnNewInvestigation(src, isMagic).None?
  {
    var src := ProcessedSource([Comment(1, Untyped)], Some(3), [Untyped, "", ClassLine, EndLine]);
    assert HeaderComments(src.comments, 3) == src.comments;
    assert IsSigil(Untyped) by { assert Untyped[..|SigilPrefix|] == SigilPrefix; }
    assert SelectedAt(src.comments, 0, isMagic);
    SelectSigilComplete(src.comments, isMagic, 0);
  }

  /** An empty file has no AST and so no offense. */
  lemma EmptyFile(isMagic: string -> bool)
    ensures OnNewInvestigation(ProcessedSource([], None, []), isMagic).None?
  {
  }

  /** Two sigils: one offense, after the one nearer the code. */
  lemma TwoSigils(isMagic: string -> bool)
    requires MagicAsInScenarios(isMagic)
    ensures var src := ProcessedSource([Comment(1, Untyped), Comment(2, Typed)], Some(3),
                                       [Untyped, Typed, ClassLine, EndLine]);
            && OnNewInvestigation(src, isMagic) == Some(OffenseAt(3))
            && Autocorrect(src, isMagic) == [Untyped, Typed, "", ClassLine, EndLine]
  {
    var src := ProcessedSource([Comment(1, Untyped), Comment(2, Typed)], Some(3),
                               [Untyped, Typed, ClassLine, EndLine]);
    assert HeaderComments(src.comments, 3) == src.comments;
    assert SelectedAt(src.comments, 1, isMagic) by {
      assert IsSigil(Typed) by { assert Typed[..|SigilPrefix|] == SigilPrefix; }
    }
    assert !Blank(ClassLine) by { assert !IsStripped(ClassLine[0]); }
    assert InsertEmptyLineBefore(src.lines, 3) == [Untyped, Typed, "", ClassLine, EndLine] by {
      var r := InsertEmptyLineBefore(src.lines, 3);
      assert r[..2] == src.lines[..2] && r[3..] == src.lines[2..];
      assert r[0] == Untyped && r[1] == Typed && r[2] == "" && r[3] == ClassLine && r[4] == EndLine;
    }
    OffenseBelowSelected(src, isMagic, 1, 3);
  }

  /** A file without comments has no sigil and so no offense. */
  lemma NoSigil(isMagic: string -> bool)
    ensures OnNewInvestigation(ProcessedSource([], Some(1), [ClassLine, EndLine]), isMagic).None?
  {
  }

  /** A plain comment right after the sigil: offense on that comment's line. */
  lemma PlainCommentAfterSigil(isMagic: string -> bool)
    requires MagicAsInScenarios(isMagic)
    ensures var src := ProcessedSource([Comment(1, Untyped), Comment(2, Plain)], Some(3),
                                       [Untyped, Plain, ClassLine, EndLine]);
            && OnNewInvestigation(src, isMagic) == Some(OffenseAt(2))
            && Autocorrect(src, isMagic) == [Untyped, "", Plain, ClassLine, EndLine]
  {
    var src := ProcessedSource([Comment(1, Untyped), Comment(2, Plain)], Some(3),
                               [Untyped, Plain, ClassLine, EndLine]);
    assert HeaderComments(src.comments, 3) == src.comments;
    assert SelectedAt(src.comments, 0, isMagic) by {
      assert IsSigil(Untyped) by { assert Untyped[..|SigilPrefix|] == SigilPrefix; }
      assert !IsSigil(Plain) by { assert Plain[2] != SigilPrefix[2]; }
    }
    assert !Blank(Plain) by { assert !IsStripped(Plain[0]); }
    assert InsertEmptyLineBefore(src.lines, 2) == [Untyped, "", Plain, ClassLine, EndLine] by {
      var r := InsertEmptyLineBefore(src.lines, 2);
      assert r[..1] == src.lines[..1] && r[2..] == src.lines[1..];
      assert r[0] == Untyped && r[1] == "" && r[2] == Plain && r[3] == ClassLine && r[4] == EndLine;
    }
    OffenseBelowSelected(src, isMagic, 0, 2);
  }

  /** A file holding only a sigil has no AST and so no offense. */
  lemma SigilOnly(isMagic: string -> bool)
    ensures OnNewInvestigation(ProcessedSource([Comment(1, Typed)], None, [Typed]), isMagic).None?
  {
  }
}
