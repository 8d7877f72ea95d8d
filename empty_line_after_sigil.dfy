/**
  The `Sorbet/EmptyLineAfterTypeSigil` cop: a Sorbet type sigil
  (`# typed: ...`) in a file's leading comments must be followed by an
  empty line, and the autocorrection inserts that line.

  The host hands the cop a parsed file: its comments (1-based line and
  raw text, in file order), the line of the first AST node (`None` for a
  file without code) and the file's lines (0-based, without newlines).
  RuboCop's `MagicComment.parse(text).any?` is the parameter `isMagic`.
 */
module EmptyLineAfterTypeSigil {
  import opened RubyCore

  datatype Comment = Comment(line: nat, text: string)

  /** What `processed_source` offers the cop. */
  datatype ProcessedSource = ProcessedSource(
    comments: seq<Comment>,
    astLine: Option<nat>,
    lines: seq<string>)

  /** A source position at line (1-based) and column (0-based) granularity. */
  datatype Location = Location(line: nat, column: nat)

  datatype Offense = Offense(location: Location, message: string)

  const MSG: string := "Add an empty line after Sorbet sigils."

  const SigilPrefix: string := "# typed:"

  /** The raw-prefix sigil test: the text is not trimmed first. */
  predicate IsSigil(text: string)
    ensures IsSigil(text) <==> exists rest :: text == SigilPrefix + rest
  {
    StartsWith(text, SigilPrefix)
  }

  /**
    What the parser guarantees: the first AST node sits on a line of the
    file, so `processed_source[i]` is a line for every `i` below it.
   */
  predicate WellFormed(src: ProcessedSource)
  {
    src.astLine.Some? ==> 1 <= src.astLine.value <= |src.lines|
  }

  /** Comments in strictly increasing line order, as the parser lists them. */
  predicate Sorted(comments: seq<Comment>)
  {
    forall i, j :: 0 <= i < j < |comments| ==> comments[i].line < comments[j].line
  }

  /**
    The facts about `MagicComment.parse(text).any?` that the cop's tests
    depend on: the frozen-string-literal pragma is magic, a sigil and a
    plain comment are not.
   */
  ghost predicate MagicAsInScenarios(isMagic: string -> bool)
  {
    && isMagic("# frozen_string_literal: true")
    && !isMagic("# Some comment")
    && forall t :: IsSigil(t) ==> !isMagic(t)
  }

  /** The header: the leading comments that sit above the first AST node. */
  function HeaderComments(comments: seq<Comment>, astLine: nat): (h: seq<Comment>)
    ensures |h| <= |comments| && h == comments[..|h|]
    ensures forall c :: c in h ==> c.line < astLine
    ensures |h| < |comments| ==> comments[|h|].line >= astLine
  {
    TakeWhile(comments, (c: Comment) => c.line < astLine)
  }

  /**
    The header read backwards from the code, up to (not including) the
    first magic comment met: `.reverse.take_while { ... }`.
   */
  function NonMagicRun(header: seq<Comment>, isMagic: string -> bool): (run: seq<Comment>)
    ensures |run| <= |header|
    ensures forall i :: 0 <= i < |run| ==> run[i] == header[|header| - 1 - i] && !isMagic(run[i].text)
    ensures |run| < |header| ==> isMagic(header[|header| - 1 - |run|].text)
  {
    TakeWhile(Reverse(header), (c: Comment) => !isMagic(c.text))
  }

  /** The first sigil of the non-magic run: `.find { ... }`. */
  function SelectSigil(header: seq<Comment>, isMagic: string -> bool): (r: Option<Comment>)
    ensures r.Some? ==> r.value in header
    ensures r.Some? ==> IsSigil(r.value.text) && !isMagic(r.value.text)
  {
    Find(NonMagicRun(header, isMagic), (c: Comment) => IsSigil(c.text))
  }

  /**
    `last_type_sigil`: scanning the header backwards from the code, stop at
    the first magic comment and return the first sigil met before it.
   */
  function LastTypeSigil(comments: seq<Comment>, astLine: nat, isMagic: string -> bool): (r: Option<Comment>)
    ensures r.Some? ==> IsSigil(r.value.text) && !isMagic(r.value.text)
  {
    SelectSigil(HeaderComments(comments, astLine), isMagic)
  }

  /** The selected sigil is one of the header comments. */
  lemma SigilIsHeaderComment(comments: seq<Comment>, astLine: nat, isMagic: string -> bool)
    ensures var r := LastTypeSigil(comments, astLine, isMagic);
            r.Some? ==> r.value in HeaderComments(comments, astLine) && r.value in comments
  {
  }

  /**
    The selected sigil sits above the first AST node, so the line after it
    is a line of the file.
   */
  lemma SigilAboveCode(comments: seq<Comment>, astLine: nat, isMagic: string -> bool)
    ensures var r := LastTypeSigil(comments, astLine, isMagic);
            r.Some? ==> r.value.line < astLine
  {
    SigilIsHeaderComment(comments, astLine, isMagic);
  }

  /**
    Position `j` of the header holds the comment the cop selects: it is a
    sigil, and neither it nor anything after it in the header is magic, and
    nothing after it is another sigil.
   */
  ghost predicate SelectedAt(header: seq<Comment>, j: int, isMagic: string -> bool)
  {
    && 0 <= j < |header|
    && IsSigil(header[j].text)
    && (forall k :: j <= k < |header| ==> !isMagic(header[k].text))
    && (forall k :: j < k < |header| ==> !IsSigil(header[k].text))
  }

  /** Position `k` of the header, read from the end, is in the non-magic run. */
  lemma NonMagicRunAt(header: seq<Comment>, isMagic: string -> bool, k: int)
    requires |header| - |NonMagicRun(header, isMagic)| <= k < |header|
    ensures NonMagicRun(header, isMagic)[|header| - 1 - k] == header[k]
  {
  }

  /** Whatever `SelectSigil` returns sits at a selected header position. */
  lemma SelectSigilSound(header: seq<Comment>, isMagic: string -> bool)
    ensures var r := SelectSigil(header, isMagic);
            r.Some? ==> exists j :: SelectedAt(header, j, isMagic) && header[j] == r.value
  {
    var h := header;
    var run := NonMagicRun(h, isMagic);
    var r := SelectSigil(h, isMagic);
    if r.Some? {
      var i := FirstIndex(run, (c: Comment) => IsSigil(c.text)).value;
      var j := |h| - 1 - i;
      forall k | j <= k < |h| ensures !isMagic(h[k].text) && (j < k ==> !IsSigil(h[k].text)) {
        NonMagicRunAt(h, isMagic, k);
      }
      assert SelectedAt(h, j, isMagic) && h[j] == r.value;
    }
  }

  /** A selected header position is what `SelectSigil` returns. */
  lemma SelectSigilComplete(header: seq<Comment>, isMagic: string -> bool, j: int)
    requires SelectedAt(header, j, isMagic)
    ensures SelectSigil(header, isMagic) == Some(header[j])
  {
    var h := header;
    var run := NonMagicRun(h, isMagic);
    var i := |h| - 1 - j;
    assert |run| > i;
    assert run[i] == h[j];
    var f := FirstIndex(run, (c: Comment) => IsSigil(c.text));
    assert f.Some? && f.value == i;
  }

  /**
    `LastTypeSigil` returns exactly the comment at the selected position of
    the header, and nothing when no position is selected.
   */
  lemma LastTypeSigilSelects(comments: seq<Comment>, astLine: nat, isMagic: string -> bool)
    ensures var r := LastTypeSigil(comments, astLine, isMagic);
            var h := HeaderComments(comments, astLine);
            && (r.Some? ==> exists j :: SelectedAt(h, j, isMagic) && h[j] == r.value)
            && (forall j :: SelectedAt(h, j, isMagic) ==> r == Some(h[j]))
  {
    var h := HeaderComments(comments, astLine);
    SelectSigilSound(h, isMagic);
    forall j | SelectedAt(h, j, isMagic) ensures SelectSigil(h, isMagic) == Some(h[j]) {
      SelectSigilComplete(h, isMagic, j);
    }
  }

  /**
    With comments in line order, the header is exactly the set of comments
    above the first AST node.
   */
  lemma {:induction false} HeaderIsCommentsAboveCode(comments: seq<Comment>, astLine: nat, c: Comment)
    requires Sorted(comments)
    ensures c in HeaderComments(comments, astLine) <==> c in comments && c.line < astLine
  {
  }

  /** The header of a sorted comment list is sorted as well. */
  lemma HeaderSorted(comments: seq<Comment>, astLine: nat, a: int, b: int)
    requires Sorted(comments)
    requires 0 <= a < b < |HeaderComments(comments, astLine)|
    ensures HeaderComments(comments, astLine)[a].line < HeaderComments(comments, astLine)[b].line
  {
    var h := HeaderComments(comments, astLine);
    assert h[a] == comments[a] && h[b] == comments[b];
  }

  /**
    The sigil the cop picks lies below every magic comment of the header:
    a magic comment between a sigil and the code hides that sigil.
   */
  lemma MagicHidesEarlierSigils(comments: seq<Comment>, astLine: nat, isMagic: string -> bool, m: Comment)
    requires Sorted(comments)
    requires m in HeaderComments(comments, astLine) && isMagic(m.text)
    ensures var r := LastTypeSigil(comments, astLine, isMagic);
            r.Some? ==> m.line < r.value.line
  {
    var h := HeaderComments(comments, astLine);
    var r := LastTypeSigil(comments, astLine, isMagic);
    SelectSigilSound(h, isMagic);
    if r.Some? {
      var j :| SelectedAt(h, j, isMagic) && h[j] == r.value;
      var k :| 0 <= k < |h| && h[k] == m;
      assert k < j;
      HeaderSorted(comments, astLine, k, j);
    }
  }

  /**
    Between the chosen sigil and the code there is no other sigil and no
    magic comment: of several sigils the one nearest the code is chosen.
   */
  lemma SelectedSigilIsNearestCode(comments: seq<Comment>, astLine: nat, isMagic: string -> bool, d: Comment)
    requires Sorted(comments)
    requires LastTypeSigil(comments, astLine, isMagic).Some?
    requires d in comments && LastTypeSigil(comments, astLine, isMagic).value.line < d.line < astLine
    ensures !IsSigil(d.text) && !isMagic(d.text)
  {
    var h := HeaderComments(comments, astLine);
    var r := LastTypeSigil(comments, astLine, isMagic);
    SelectSigilSound(h, isMagic);
    HeaderIsCommentsAboveCode(comments, astLine, d);
    var j :| SelectedAt(h, j, isMagic) && h[j] == r.value;
    var k :| 0 <= k < |h| && h[k] == d;
    if k < j {
      HeaderSorted(comments, astLine, k, j);
    }
    assert j < k;
  }

  /** If no header comment is a sigil, nothing is selected. */
  lemma NoSigilNoSelection(comments: seq<Comment>, astLine: nat, isMagic: string -> bool)
    requires forall c :: c in HeaderComments(comments, astLine) ==> !IsSigil(c.text)
    ensures LastTypeSigil(comments, astLine, isMagic).None?
  {
    LastTypeSigilSelects(comments, astLine, isMagic);
  }

  /** `offending_range`: column 0 of the line right after the sigil. */
  function OffendingRange(sigil: Comment): Location
  {
    Location(sigil.line + 1, 0)
  }

  /**
    The offending range of the selected sigil is column 0 of the line right
    below it: a line of the file at or above the code, the one the cop
    checks for blankness, and the one the correction turns into an empty
    line.
   */
  lemma OffendingRangeBelowSigil(src: ProcessedSource, isMagic: string -> bool)
    requires WellFormed(src) && src.astLine.Some?
    requires LastTypeSigil(src.comments, src.astLine.value, isMagic).Some?
    ensures var sigil := LastTypeSigil(src.comments, src.astLine.value, isMagic).value;
            var loc := OffendingRange(sigil);
            && loc.column == 0
            && sigil.line < loc.line <= src.astLine.value <= |src.lines|
            && src.lines[loc.line - 1] == src.lines[sigil.line]
            && Autocorrect(src, isMagic)[loc.line - 1] == ""
  {
    SigilAboveCode(src.comments, src.astLine.value, isMagic);
  }

  /**
    `on_new_investigation`: no AST or no selected sigil means no offense;
    otherwise there is one exactly when the line after the sigil
    (`processed_source[sigil.line]`, 0-based) is not blank once stripped.
   */
  function OnNewInvestigation(src: ProcessedSource, isMagic: string -> bool): (r: Option<Offense>)
    requires WellFormed(src)
    ensures src.astLine.None? ==> r.None?
    ensures r.Some? <==>
              && src.astLine.Some?
              && var sigil := LastTypeSigil(src.comments, src.astLine.value, isMagic);
                 sigil.Some? && !Blank(src.lines[sigil.value.line])
    ensures r.Some? ==>
              && r.value.message == MSG
              && r.value.location.column == 0
              && r.value.location.line == LastTypeSigil(src.comments, src.astLine.value, isMagic).value.line + 1
              && r.value.location.line <= src.astLine.value
  {
    if src.astLine.None? then None
    else match LastTypeSigil(src.comments, src.astLine.value, isMagic)
      case None => None
      case Some(sigil) =>
        SigilAboveCode(src.comments, src.astLine.value, isMagic);
        if Strip(src.lines[sigil.line]) == [] then None
        else Some(Offense(OffendingRange(sigil), MSG))
  }

  /** A blank line right after the selected sigil means no offense, whatever follows. */
  lemma NoOffenseWhenBlankAfterSigil(comments: seq<Comment>, astLine: nat, lines: seq<string>,
                                     isMagic: string -> bool, sigil: Comment)
    requires 1 <= astLine <= |lines|
    requires LastTypeSigil(comments, astLine, isMagic) == Some(sigil)
    requires sigil.line < |lines| && Blank(lines[sigil.line])
    ensures OnNewInvestigation(ProcessedSource(comments, Some(astLine), lines), isMagic).None?
  {
  }

  /** The file without its 1-based line `line`. */
  function RemoveLine(lines: seq<string>, line: nat): seq<string>
    requires 1 <= line <= |lines|
  {
    lines[..line - 1] + lines[line..]
  }

  /**
    `corrector.insert_before(range, "\n")` at column 0 of 1-based line
    `line`: an empty line appears before it and every line keeps its
    content and order.
   */
  function InsertEmptyLineBefore(lines: seq<string>, line: nat): (r: seq<string>)
    requires 1 <= line <= |lines|
    ensures |r| == |lines| + 1
    ensures r[line - 1] == ""
    ensures r[..line - 1] == lines[..line - 1]
    ensures r[line..] == lines[line - 1..]
    ensures RemoveLine(r, line) == lines
  {
    var r := lines[..line - 1] + [""] + lines[line - 1..];
    assert r[..line - 1] + r[line..] == lines;
    r
  }

  /**
    `autocorrect`: insert one newline at the offending range, the start of
    the line after the selected sigil.
   */
  function Autocorrect(src: ProcessedSource, isMagic: string -> bool): (fixed: seq<string>)
    requires WellFormed(src) && src.astLine.Some?
    requires LastTypeSigil(src.comments, src.astLine.value, isMagic).Some?
    ensures var sigil := LastTypeSigil(src.comments, src.astLine.value, isMagic).value;
            && |fixed| == |src.lines| + 1
            && fixed[sigil.line] == ""
            && RemoveLine(fixed, sigil.line + 1) == src.lines
  {
    var sigil := LastTypeSigil(src.comments, src.astLine.value, isMagic).value;
    SigilAboveCode(src.comments, src.astLine.value, isMagic);
    InsertEmptyLineBefore(src.lines, OffendingRange(sigil).line)
  }

  /** Where a line number lands once an empty line is inserted before `line`. */
  function ShiftLine(n: nat, line: nat): nat
  {
    if n >= line then n + 1 else n
  }

  /** The comments, each moved to the line it lands on after the insertion. */
  function ShiftComments(comments: seq<Comment>, line: nat): seq<Comment>
  {
    seq(|comments|, i requires 0 <= i < |comments| => comments[i].(line := ShiftLine(comments[i].line, line)))
  }

  /**
    What the parser reports for the file once an empty line is inserted
    before 1-based line `line`: the same comments and AST, with everything
    from that line on moved down by one.
   */
  function Reparsed(src: ProcessedSource, line: nat): ProcessedSource
    requires 1 <= line <= |src.lines|
  {
    ProcessedSource(
      ShiftComments(src.comments, line),
      match src.astLine
        case None => None
        case Some(n) => Some(ShiftLine(n, line)),
      InsertEmptyLineBefore(src.lines, line))
  }

  /**
    Inserting a line at or above the code moves the header along with it:
    the new header is the old one, shifted.
   */
  lemma {:induction false} HeaderAfterInsert(comments: seq<Comment>, astLine: nat, line: nat)
    requires line <= astLine
    ensures HeaderComments(ShiftComments(comments, line), astLine + 1)
         == ShiftComments(HeaderComments(comments, astLine), line)
  {
    if |comments| > 0 {
      HeaderAfterInsert(comments[1..], astLine, line);
      assert ShiftComments(comments, line)[1..] == ShiftComments(comments[1..], line);
      if comments[0].line < astLine {
        assert HeaderComments(comments, astLine)
            == [comments[0]] + HeaderComments(comments[1..], astLine);
      }
    }
  }

  /** Moving comments to other lines does not change which position is selected. */
  lemma SelectedAtShifted(h: seq<Comment>, j: int, isMagic: string -> bool, line: nat)
    requires SelectedAt(h, j, isMagic)
    ensures SelectedAt(ShiftComments(h, line), j, isMagic)
  {
    var h' := ShiftComments(h, line);
    assert forall k :: 0 <= k < |h| ==> h'[k].text == h[k].text;
  }

  /** Moving the comments below the selected sigil keeps it selected. */
  lemma SelectSigilAfterShift(header: seq<Comment>, isMagic: string -> bool, line: nat)
    requires SelectSigil(header, isMagic).Some?
    requires SelectSigil(header, isMagic).value.line < line
    ensures SelectSigil(ShiftComments(header, line), isMagic) == SelectSigil(header, isMagic)
  {
    var sigil := SelectSigil(header, isMagic).value;
    SelectSigilSound(header, isMagic);
    var j :| SelectedAt(header, j, isMagic) && header[j] == sigil;
    SelectedAtShifted(header, j, isMagic, line);
    SelectSigilComplete(ShiftComments(header, line), isMagic, j);
  }

  /**
    After an empty line is inserted right below the selected sigil (so the
    AST moves from `astLine` to `newAst`), the cop still selects that sigil.
   */
  lemma SameSigilAfterInsert(comments: seq<Comment>, astLine: nat, isMagic: string -> bool, sigil: Comment,
                             line: nat, newAst: nat)
    requires LastTypeSigil(comments, astLine, isMagic) == Some(sigil)
    requires line == sigil.line + 1 && newAst == astLine + 1
    ensures LastTypeSigil(ShiftComments(comments, line), newAst, isMagic) == Some(sigil)
  {
    var header := HeaderComments(comments, astLine);
    assert HeaderComments(ShiftComments(comments, line), newAst) == ShiftComments(header, line) by {
      SigilAboveCode(comments, astLine, isMagic);
      HeaderAfterInsert(comments, astLine, line);
    }
    assert SelectSigil(ShiftComments(header, line), isMagic) == Some(sigil) by {
      SelectSigilAfterShift(header, isMagic, line);
    }
    assert LastTypeSigil(ShiftComments(comments, line), newAst, isMagic)
        == SelectSigil(HeaderComments(ShiftComments(comments, line), newAst), isMagic);
  }

  /**
    The file the parser reports after the autocorrection: the AST moved
    down by one line, the comments shifted, and its lines those the
    autocorrection produced, with an empty one right after the sigil.
   */
  lemma ReparsedAfterAutocorrect(src: ProcessedSource, isMagic: string -> bool, sigil: Comment,
                                 line: nat, newAst: nat)
    requires WellFormed(src) && src.astLine.Some?
    requires LastTypeSigil(src.comments, src.astLine.value, isMagic) == Some(sigil)
    requires line == OffendingRange(sigil).line && newAst == src.astLine.value + 1
    ensures sigil.line < src.astLine.value
    ensures Reparsed(src, line) == ProcessedSource(ShiftComments(src.comments, line), Some(newAst), Autocorrect(src, isMagic))
    ensures var fixed := Autocorrect(src, isMagic);
            1 <= newAst <= |fixed| && sigil.line < |fixed| && Blank(fixed[sigil.line])
  {
    SigilAboveCode(src.comments, src.astLine.value, isMagic);
    assert ShiftLine(src.astLine.value, line) == newAst;
    assert Autocorrect(src, isMagic) == InsertEmptyLineBefore(src.lines, line);
  }

  /** With a blank line inserted after the selected sigil, the re-parsed file has no offense. */
  lemma NoOffenseAfterInsert(comments: seq<Comment>, astLine: nat, isMagic: string -> bool, sigil: Comment,
                             lines: seq<string>, line: nat, newAst: nat)
    requires LastTypeSigil(comments, astLine, isMagic) == Some(sigil)
    requires line == sigil.line + 1 && newAst == astLine + 1
    requires 1 <= newAst <= |lines|
    requires sigil.line < |lines| && Blank(lines[sigil.line])
    ensures OnNewInvestigation(ProcessedSource(ShiftComments(comments, line), Some(newAst), lines), isMagic).None?
  {
    SameSigilAfterInsert(comments, astLine, isMagic, sigil, line, newAst);
    NoOffenseWhenBlankAfterSigil(ShiftComments(comments, line), newAst, lines, isMagic, sigil);
  }

  /**
    The autocorrection is idempotent: re-investigating the corrected file
    reports no offense, because the line after the sigil is now empty.
   */
  lemma AutocorrectIsIdempotent(src: ProcessedSource, isMagic: string -> bool)
    requires WellFormed(src) && src.astLine.Some?
    requires LastTypeSigil(src.comments, src.astLine.value, isMagic).Some?
    ensures var sigil := LastTypeSigil(src.comments, src.astLine.value, isMagic).value;
            && sigil.line < src.astLine.value
            && var fixed := Reparsed(src, OffendingRange(sigil).line);
               && fixed.lines == Autocorrect(src, isMagic)
               && WellFormed(fixed)
               && OnNewInvestigation(fixed, isMagic).None?
  {
    var sigil := LastTypeSigil(src.comments, src.astLine.value, isMagic).value;
    var line := OffendingRange(sigil).line;
    var newAst := src.astLine.value + 1;
    ReparsedAfterAutocorrect(src, isMagic, sigil, line, newAst);
    NoOffenseAfterInsert(src.comments, src.astLine.value, isMagic, sigil, Autocorrect(src, isMagic), line, newAst);
  }
}
