# Sorbet/EmptyLineAfterTypeSigil, modelled in Dafny

This project models the rubocop-sorbet cop `Sorbet/EmptyLineAfterTypeSigil`.
A Sorbet type sigil is a comment such as `# typed: true`. When a sigil sits
in a file's leading comments, the cop wants an empty line right after it,
and its autocorrection inserts that line.

The model is pure: datatypes, functions and lemmas, in three modules.

- `RubyCore` (`ruby_core.dfy`) holds the pieces of Ruby's core library the
  cop uses: `Array#take_while`, `Array#reverse`, `Enumerable#find`,
  `String#start_with?` and `String#strip`. Each is a total function on
  sequences and strings, and Ruby's `nil` is `None`.
- `EmptyLineAfterTypeSigil` (`empty_line_after_sigil.dfy`) is the cop itself.
  - The parsed file (`processed_source`) is a `ProcessedSource`. It holds
    the comments with their 1-based lines and raw texts, the line of the
    first AST node (`None` when the file has no code), and the file's lines.
  - `WellFormed` is what the parser guarantees: the first AST node lies on
    a line of the file. `Sorted` says the comments come in line order.
  - RuboCop's `MagicComment.parse(text).any?` is the parameter
    `isMagic: string -> bool`.
  - `last_type_sigil` is `LastTypeSigil`. It is built from
    `HeaderComments` (comments above the code), `NonMagicRun` (the header
    read backwards up to the first magic comment) and `SelectSigil` (the
    first `# typed:` comment in that run).
  - `SelectedAt` describes the chosen position independently: a sigil with
    nothing magic from it down to the code and no other sigil below it.
    `LastTypeSigilSelects` proves that `LastTypeSigil` returns exactly that
    position.
  - `on_new_investigation` is `OnNewInvestigation`. An offense is a
    `Location` (1-based line, 0-based column) plus the message.
  - The autocorrection is `Autocorrect`. It maps the file's lines to the
    corrected lines, with one empty line inserted before the offending line.
  - `Reparsed` describes the file the parser reports after that insertion:
    the same comments and AST, with everything at or below the inserted
    line moved down by one. Idempotence of the correction is proved
    against it (`AutocorrectIsIdempotent`).
- `EmptyLineAfterSigilCases` (`empty_line_after_sigil_cases.dfy`) gives one
  lemma for each documented scenario of the cop, on concrete files.
  `isMagic` there is any recogniser satisfying `MagicAsInScenarios`: the
  frozen-string-literal pragma is magic, while sigils and plain comments
  are not.

The model keeps these details of the code:

- A sigil is recognised by the raw prefix `# typed:` on the comment text.
  The marker and surrounding whitespace are not stripped first.
- A magic comment between a sigil and the code ends the backward scan.
  Sigils above it are not selected.
- The message is `Add an empty line after Sorbet sigils.`.
- The selected sigil always lies above the first AST node
  (`SigilAboveCode`). The line after it is therefore always a line of the
  file, and the case of a sigil on the file's last line with code present
  cannot arise. When the file has no code, there is no offense at all.

## Model

| member | source | states |
|---|---|---|
| RubyCore.StartsWith | lib/rubocop/cop/sorbet/sigils/empty_line_after_sigil.rb:63 | `start_with?(prefix)` holds exactly when the string is the prefix followed by some rest |
| RubyCore.TakeWhile | lib/rubocop/cop/sorbet/sigils/empty_line_after_sigil.rb:60 | the result is a prefix of the input, every element of it satisfies the block, and the next element (if any) does not |
| RubyCore.Reverse | lib/rubocop/cop/sorbet/sigils/empty_line_after_sigil.rb:61 | same length, element `i` is input element `n-1-i` |
| RubyCore.FirstIndex | lib/rubocop/cop/sorbet/sigils/empty_line_after_sigil.rb:63 | `None` exactly when no element satisfies the block; otherwise the index of the first element that does |
| RubyCore.Find | lib/rubocop/cop/sorbet/sigils/empty_line_after_sigil.rb:63 | `nil` exactly when no element satisfies the block; otherwise an element that does, with none before it |
| RubyCore.LStrip | lib/rubocop/cop/sorbet/sigils/empty_line_after_sigil.rb:33 | a suffix of the input; everything removed is whitespace or null, and the result does not start with either |
| RubyCore.RStrip | lib/rubocop/cop/sorbet/sigils/empty_line_after_sigil.rb:33 | a prefix of the input; everything removed is whitespace or null, and the result does not end with either |
| RubyCore.Strip | lib/rubocop/cop/sorbet/sigils/empty_line_after_sigil.rb:33 | at most as long as the input, neither end of a non-empty result is whitespace or null, and the result is empty exactly when every character of the line is whitespace or null (`strip.empty?`) |
| EmptyLineAfterTypeSigil.IsSigil | lib/rubocop/cop/sorbet/sigils/empty_line_after_sigil.rb:63 | a comment is a sigil exactly when its raw text is `# typed:` followed by anything |
| EmptyLineAfterTypeSigil.HeaderComments | lib/rubocop/cop/sorbet/sigils/empty_line_after_sigil.rb:58-60 | the header is a prefix of the comments, all of it above the first AST node, and the first comment after it is not above the node |
| EmptyLineAfterTypeSigil.NonMagicRun | lib/rubocop/cop/sorbet/sigils/empty_line_after_sigil.rb:61-62 | the run is the header read from its end, none of it magic, and it stops at a magic comment or at the header's start |
| EmptyLineAfterTypeSigil.SelectSigil | lib/rubocop/cop/sorbet/sigils/empty_line_after_sigil.rb:63 | a selected comment is a header comment that starts with `# typed:` and is not magic |
| EmptyLineAfterTypeSigil.LastTypeSigil | lib/rubocop/cop/sorbet/sigils/empty_line_after_sigil.rb:57-64 | any comment returned is a sigil and not magic |
| EmptyLineAfterTypeSigil.SigilIsHeaderComment | lib/rubocop/cop/sorbet/sigils/empty_line_after_sigil.rb:57-64 | the returned sigil is one of the file's comments, and one of the header |
| EmptyLineAfterTypeSigil.SigilAboveCode | lib/rubocop/cop/sorbet/sigils/empty_line_after_sigil.rb:60 | the returned sigil lies strictly above the first AST node |
| EmptyLineAfterTypeSigil.SelectSigilSound | lib/rubocop/cop/sorbet/sigils/empty_line_after_sigil.rb:61-63 | whatever the chain returns sits at a header position that is a sigil, with nothing magic from it to the end and no later sigil |
| EmptyLineAfterTypeSigil.SelectSigilComplete | lib/rubocop/cop/sorbet/sigils/empty_line_after_sigil.rb:61-63 | a header position with those three properties is exactly what the chain returns |
| EmptyLineAfterTypeSigil.LastTypeSigilSelects | lib/rubocop/cop/sorbet/sigils/empty_line_after_sigil.rb:53-64 | `last_type_sigil` returns the comment at the selected position when there is one, and only such a comment |
| EmptyLineAfterTypeSigil.HeaderIsCommentsAboveCode | lib/rubocop/cop/sorbet/sigils/empty_line_after_sigil.rb:60 | with comments in line order, a comment is in the header exactly when it lies above the first AST node |
| EmptyLineAfterTypeSigil.HeaderSorted | lib/rubocop/cop/sorbet/sigils/empty_line_after_sigil.rb:60 | the header of a line-ordered comment list is line-ordered |
| EmptyLineAfterTypeSigil.MagicHidesEarlierSigils | lib/rubocop/cop/sorbet/sigils/empty_line_after_sigil.rb:61-62 | a selected sigil lies below every magic comment of the header: a magic comment hides the sigils above it |
| EmptyLineAfterTypeSigil.SelectedSigilIsNearestCode | lib/rubocop/cop/sorbet/sigils/empty_line_after_sigil.rb:53-64 | no comment between the selected sigil and the code is a sigil or magic: of several sigils the one nearest the code wins |
| EmptyLineAfterTypeSigil.NoSigilNoSelection | lib/rubocop/cop/sorbet/sigils/empty_line_after_sigil.rb:55-56 | if no header comment starts with `# typed:`, nothing is returned |
| EmptyLineAfterTypeSigil.OffendingRangeBelowSigil | lib/rubocop/cop/sorbet/sigils/empty_line_after_sigil.rb:49-51 | the offending range is column 0 of the line right after the selected sigil: a line of the file at or above the code, the line checked for blankness, and the line the correction makes empty |
| EmptyLineAfterTypeSigil.OnNewInvestigation | lib/rubocop/cop/sorbet/sigils/empty_line_after_sigil.rb:28-38 | no AST means no offense; otherwise an offense exactly when a sigil is selected and the line after it is not blank; the offense carries `MSG` (`Add an empty line after Sorbet sigils.`) at column 0 of the line after the sigil, at or above the code |
| EmptyLineAfterTypeSigil.NoOffenseWhenBlankAfterSigil | lib/rubocop/cop/sorbet/sigils/empty_line_after_sigil.rb:33 | a blank line right after the selected sigil means no offense |
| EmptyLineAfterTypeSigil.InsertEmptyLineBefore | lib/rubocop/cop/sorbet/sigils/empty_line_after_sigil.rb:43 | one more line, an empty one at the insertion point, every other line kept in order; removing that line gives back the input |
| EmptyLineAfterTypeSigil.Autocorrect | lib/rubocop/cop/sorbet/sigils/empty_line_after_sigil.rb:40-45 | the corrected file has one more line, the line right after the sigil is empty, and removing it gives back the original file |
| EmptyLineAfterTypeSigil.HeaderAfterInsert | lib/rubocop/cop/sorbet/sigils/empty_line_after_sigil.rb:60 | inserting a line at or above the code shifts the header along: the new header is the old header, shifted |
| EmptyLineAfterTypeSigil.SelectedAtShifted | lib/rubocop/cop/sorbet/sigils/empty_line_after_sigil.rb:61-63 | moving comments to other lines keeps the selected position selected |
| EmptyLineAfterTypeSigil.SelectSigilAfterShift | lib/rubocop/cop/sorbet/sigils/empty_line_after_sigil.rb:61-63 | shifting the comments below the selected sigil keeps that sigil selected |
| EmptyLineAfterTypeSigil.SameSigilAfterInsert | lib/rubocop/cop/sorbet/sigils/empty_line_after_sigil.rb:42 | after an empty line is inserted right below the selected sigil, the same sigil is selected again |
| EmptyLineAfterTypeSigil.ReparsedAfterAutocorrect | lib/rubocop/cop/sorbet/sigils/empty_line_after_sigil.rb:40-45 | the re-parsed corrected file has the AST one line lower, the comments shifted and the corrected lines, with a blank line right after the sigil |
| EmptyLineAfterTypeSigil.NoOffenseAfterInsert | lib/rubocop/cop/sorbet/sigils/empty_line_after_sigil.rb:30-38 | once a blank line follows the selected sigil in the shifted file, the cop reports nothing |
| EmptyLineAfterTypeSigil.AutocorrectIsIdempotent | lib/rubocop/cop/sorbet/sigils/empty_line_after_sigil.rb:30-45 | investigating the corrected file again reports no offense: the autocorrection fixes what it was called for |
| EmptyLineAfterSigilCases.OffenseBelowSelected | lib/rubocop/cop/sorbet/sigils/empty_line_after_sigil.rb:30-51 | a selected sigil followed by a non-blank line gives one offense right below it, and the correction inserts an empty line there |
| EmptyLineAfterSigilCases.SigilDirectlyAboveCode | spec/rubocop/cop/sorbet/sigils/empty_line_after_sigil_spec.rb:8-22 | a sigil directly above `class MyClass` gives an offense on line 2 and the correction adds an empty line between them |
| EmptyLineAfterSigilCases.MagicCommentAfterSigil | spec/rubocop/cop/sorbet/sigils/empty_line_after_sigil_spec.rb:24-31 | a frozen-string-literal pragma between sigil and code: no offense |
| EmptyLineAfterSigilCases.MagicCommentBeforeSigil | spec/rubocop/cop/sorbet/sigils/empty_line_after_sigil_spec.rb:33-49 | a pragma above the sigil: offense on line 3, and the correction inserts the empty line below the sigil |
| EmptyLineAfterSigilCases.EmptyLineAfterSigil | spec/rubocop/cop/sorbet/sigils/empty_line_after_sigil_spec.rb:51-58 | an empty line already after the sigil: no offense |
| EmptyLineAfterSigilCases.EmptyFile | spec/rubocop/cop/sorbet/sigils/empty_line_after_sigil_spec.rb:60-62 | an empty file: no offense |
| EmptyLineAfterSigilCases.TwoSigils | spec/rubocop/cop/sorbet/sigils/empty_line_after_sigil_spec.rb:64-80 | two sigils: a single offense, below the second one, and one inserted line |
| EmptyLineAfterSigilCases.NoSigil | spec/rubocop/cop/sorbet/sigils/empty_line_after_sigil_spec.rb:82-87 | a file without comments: no offense |
| EmptyLineAfterSigilCases.PlainCommentAfterSigil | spec/rubocop/cop/sorbet/sigils/empty_line_after_sigil_spec.rb:89-105 | a plain comment right after the sigil: offense on that comment's line, and the empty line goes above it |
| EmptyLineAfterSigilCases.SigilOnly | spec/rubocop/cop/sorbet/sigils/empty_line_after_sigil_spec.rb:107-111 | a file holding only a sigil has no AST: no offense |

## Left out

- Parsing is not part of this model. The comments, their lines, the first
  AST node's line and the file's lines are inputs. `WellFormed` (the AST
  line is a line of the file) and `Sorted` (comments in line order) state
  what the parser guarantees, where a lemma needs it.
- `MagicComment.parse` is RuboCop's own code and is not part of this
  model. It is the parameter `isMagic`, and the scenarios pin only the
  facts they need about it (`MagicAsInScenarios`).
- `add_offense` and `source_range` work on byte ranges in the source
  buffer. The model keeps the line and column of the range's start
  (`OffendingRange`, `Location`).
- The corrector object and the lambda `autocorrect` returns are not
  modelled as objects. `Autocorrect` is the function from the file's lines
  to the corrected lines. Inserting `"\n"` at column 0 of a line is an
  empty line before it (`InsertEmptyLineBefore`).
- Autocorrect: requires a selected sigil. RuboCop only calls it for a
  reported offense, and an offense implies a selected sigil. The Ruby
  lambda would fail on `nil` otherwise, and that failure is not modelled.
- Re-parsing the corrected file is not modelled from the text.
  `Reparsed` states the parser's behaviour: the AST and the comments at or
  below the inserted line move down by one. `AutocorrectIsIdempotent`
  holds relative to that description.
- `String#strip` is modelled on characters. It removes null, tab, line
  feed, vertical tab, form feed, carriage return and space at both ends.
  Encodings and invalid byte sequences are not modelled.
- Cop registration, configuration, the `Cop` base class and the
  `RangeHelp` mix-in are not part of this model. Neither is the gem's
  loader `lib/rubocop_sorbet.rb`.
