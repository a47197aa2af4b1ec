# mdbook-cmdrun directive substitution, in Dafny

mdbook-cmdrun is an mdBook preprocessor. It replaces every
`<!-- cmdrun COMMAND -->` marker in a chapter with the output of running
COMMAND through the platform shell. This project models the substitution
pipeline of `src/cmdrun.rs` and proves properties of it:

- **scanner.dfy** (module `Scanner`): the two regular expressions
  `<!--[ ]*cmdrun (.*?)-->\r?\n` (line-consuming) and `<!--[ ]*cmdrun (.*?)-->`
  (inline), and the leftmost-first, non-overlapping search that
  `Regex::replace_all` runs with them. The match is defined twice:
  - `IsMatch` is the declarative reading (which text the pattern matches);
  - `FindFrom` and `AllMatches` model how the engine searches.

  The lemmas tie the two readings together: a lazy capture is the shortest,
  and a search finds the leftmost match.
- **formatter.dfy** (module `Formatter`): both `format_whitespace` variants.
  - Unix: `trim_end` for inline output.
  - Windows: `lines()` re-joined with `"\r\n"`, plus one final `"\r\n"` in line mode.
- **arguments.dfy** (module `Arguments`): single-quote wrapping of split words that contain whitespace, and the clap grammar `[--strict | --expect-return-code N] CMD...`:
  - `no_binary_name`, `trailing_var_arg`;
  - the conflict between the two flags;
  - `value_parser!(i32)`.
- **cmdrun.dfy** (module `CmdRun`): `run_cmdrun`: split, re-quote, parse, launch, format, and compose the result from the exit code and the expectation. It includes the `**cmdrun error**` banner.
- **substitution.dfy** (module `Substitution`): `run_on_content`.
  - Two `replace_all` passes with a shared `err` that every failing call overwrites.
  - The result is given as a recursive specification (`ReplaceFrom`, `Substituted`).
  - The loop that computes it is an imperative method (`ReplaceAll`, `RunOnContent`), proved equal to that specification.
- **base.dfy** (module `Base`): `Option`, the outcome of a fallible step (`Ok`, `Err` with an error class, or `Panic`), and string facts.

The world outside the program comes in as a `Context` value:
- the target platform;
- `shellwords::split` and `shellwords::join`;
- the `{:?}` rendering of a string;
- an oracle for the shell.

The oracle receives the launches already made, so a command may see the side effects of earlier ones. It returns `None` when the shell cannot be started, and otherwise the optional exit code, stdout and stderr.

Where the documented behaviour and the code disagree, the model follows the code:

- A directive with no command words, such as `<!-- cmdrun --strict -->`, is not an argument error. `cmd` is not a required argument, so clap accepts the words. The second `.expect` (src/cmdrun.rs:186) then panics. The model returns `Panic`, which stops the whole scan on the spot (`RunCmdrun`, `PassStopsAtPanic`).
- On Windows the inline output also has its line terminators rewritten to `"\r\n"`, not only its trailing whitespace removed (`FormatShape`, `WindowsInlineKeepsLines`).
- On Windows, line-consuming output made of a single empty line (`"\n"` or `"\r\n"`) becomes empty. The join of its lines is empty, so no terminator is appended (`WindowsExamples`, `WindowsKeepsLines`).
- A failed directive does not stop its pass. The closure stores the error and returns an empty replacement (src/cmdrun.rs:105-108), so `replace_all` goes on to the later markers and runs their commands. Only after pass 1 is the stored error returned, and pass 2 likewise runs to its end (`PassVisitsMatches`, `PassSplices`, `LastErrorIsLast`). Only a panic stops a pass on the spot.
- An option written after the first command word belongs to the command. This is `trailing_var_arg` (src/cmdrun.rs:257). So `<!-- cmdrun false --expect-return-code 0 -->` runs `false --expect-return-code 0` with nothing expected, and its stdout replaces the marker instead of a banner (`NoFlagsAllCommand`, `FlagsThenCommand`). Options take effect only when written before the command.
- On Unix, line-consuming output is spliced in exactly as the command printed it (src/cmdrun.rs:158). No terminator is appended, so output that does not end in a newline runs into the next line of the chapter (`FormatShape`).

## Model

| member | source | states |
|---|---|---|
| Base.IsWhitespace | src/cmdrun.rs:175 | `char::is_whitespace`, the Unicode White_Space set; `Formatter.TrimEnd` and `Arguments.Requote` are proved against it |
| Scanner.IsMatch | src/cmdrun.rs:26-28 | the declarative reading of either pattern: which spans and captures match; `MatchAtIsShortest`, `FindFromIsLeftmost` and `AllMatchesAreMatches` prove the search against it |
| Scanner.LazyClose | src/cmdrun.rs:26-28 | widens the lazy capture and reports a span that starts at the marker and ends after `-->`; `LazyCloseFinds` proves it finds the first fitting close |
| Scanner.MatchAt | src/cmdrun.rs:26-28 | a report at i is a well-formed span anchored at i; `MatchAtIsShortest` proves it is a match with the shortest capture |
| Scanner.FindFrom | src/cmdrun.rs:103-104 | a report is a well-formed span at or after p; `FindFromIsLeftmost` proves it is the leftmost match |
| Scanner.AllMatches | src/cmdrun.rs:103-110 | the matches `replace_all` visits, each search resuming at the previous end; `AllMatchesLeftmost`, `AllMatchesAreMatches` and `AllMatchesInOrder` prove what they are |
| Scanner.MarkersSpelled | src/cmdrun.rs:26-28 | the three character-wise marker tests are exactly the literals `<!--`, `cmdrun ` and `-->` |
| Scanner.TerminatorEnd | src/cmdrun.rs:26 | `\r?\n` after `-->`: a found end is a valid terminator; when none is found, no terminator fits there; inline needs none |
| Scanner.SkipSpaces | src/cmdrun.rs:26-28 | `[ ]*` takes every space and stops before a non-space |
| Scanner.LazyCloseFinds | src/cmdrun.rs:26-28 | the lazy `(.*?)` stops at the first index, reachable without crossing a newline, where `-->` and the terminator fit; when it finds nothing, no such index exists |
| Scanner.MatchAtIsShortest | src/cmdrun.rs:26-28 | the match reported at an index is a match of the pattern, with the shortest capture among those anchored there; no report means no match starts there |
| Scanner.FindFromIsLeftmost | src/cmdrun.rs:103-104 | the search from p reports the leftmost match at or after p, with the lazy capture; none reported means no match starts at or after p |
| Scanner.AllMatchesAreMatches | src/cmdrun.rs:103-110 | every match that `replace_all` visits is a match of the pattern, at or after the start |
| Scanner.AllMatchesInOrder | src/cmdrun.rs:103-110 | the visited matches come in text order and never overlap |
| Scanner.AllMatchesLeftmost | src/cmdrun.rs:103-110 | the search visits every marker: the first visited match is the leftmost match at or after the start, with the shortest capture; each next one is the leftmost at or after the previous match's end; and no match starts after the end of the last |
| Scanner.LineMatchIsInlineMatch | src/cmdrun.rs:26-28 | a line-consuming match without its terminator is an inline match |
| Scanner.NoInlineMatchNoLineMatch | src/cmdrun.rs:26-28 | when no inline marker starts at or after p, no line-consuming marker starts there either |
| Scanner.InlineCaptureHasNoClose | src/cmdrun.rs:28 | an inline capture never contains `-->` |
| Scanner.CapturesDiffer | src/cmdrun.rs:26-28 | on `<!--cmdrun x-->-->\n` the line-consuming capture is `x-->`, while the inline capture is `x` |
| Formatter.FormatWhitespace | src/cmdrun.rs:138-160 | both `format_whitespace` variants, selected by the platform value; their results are described by `FormatShape`, `WindowsLineEnds`, `WindowsKeepsLines`, `WindowsInlineKeepsLines` and `FormatIdempotent` |
| Formatter.Join | src/cmdrun.rs:145 | `join("\r\n")` of the lines; `JoinCrlf` and `LinesOfJoin` prove it leaves no bare `\n` and loses no line |
| Formatter.TrimEnd | src/cmdrun.rs:141 | `trim_end` gives the longest prefix that does not end in whitespace; everything dropped is whitespace |
| Formatter.Lines | src/cmdrun.rs:145 | `lines()` gives pieces without `\n`, and none at all only for empty text |
| Formatter.LinesConsLf | src/cmdrun.rs:145 | a line ended by a bare `\n` is the first line, terminator dropped, and the rest is split the same way; with `LinesCons` for `"\r\n"` and `LinesOfLine` for a last line without terminator, this fixes `lines()` on every text |
| Formatter.LinesOfLine | src/cmdrun.rs:145 | a non-empty text without `\n` is one line |
| Formatter.JoinCrlf | src/cmdrun.rs:145 | joining newline-free lines with `"\r\n"` leaves no bare `\n` |
| Formatter.FormatShape | src/cmdrun.rs:138-160 | empty output stays empty; inline output never ends in whitespace; on Unix the result is a prefix of the output, the output itself in line mode, and what inline drops is whitespace; on Windows every `\n` ends a `"\r\n"` |
| Formatter.WindowsLineEnds | src/cmdrun.rs:145-148 | non-empty Windows line-mode output is the non-empty join of the lines plus exactly one `"\r\n"` |
| Formatter.LinesOfTerminatedJoin | src/cmdrun.rs:145-148 | the lines of the join plus a final `"\r\n"` are the original lines |
| Formatter.LinesOfJoin | src/cmdrun.rs:145 | the lines of the join are the original lines when the last one is not empty |
| Formatter.WindowsKeepsLines | src/cmdrun.rs:145-148 | Windows line mode keeps the lines of the output, except that output made of one empty line becomes empty |
| Formatter.WindowsInlineKeepsLines | src/cmdrun.rs:139-145 | Windows inline output has the lines of the trimmed output |
| Formatter.FormatIdempotent | src/cmdrun.rs:138-160 | formatting an already formatted text again changes nothing, on both platforms and in both modes |
| Formatter.WindowsExamples | src/cmdrun.rs:145-148 | on Windows, `"\n"` formats to nothing and `"a\n"` formats to `"a\r\n"` |
| Formatter.WindowsLfExample | src/cmdrun.rs:131-148 | on Windows, the Unix line ends of `"a\nb\n"` become `"a\r\nb\r\n"` in line mode |
| Arguments.QuoteWord | src/cmdrun.rs:175-179 | wraps a word with whitespace in single quotes; `RequoteInvertible` and `RequotedWordIsNoFlag` prove what that keeps |
| Arguments.Finish | src/cmdrun.rs:233-242 | the end of the parse, where the mutual `conflicts_with` of the two options is checked; `FlagsThenCommand` and `StrictConflicts` prove the conflict |
| Arguments.Requote | src/cmdrun.rs:175-179 | re-quoting keeps the number and order of words, keeps words without whitespace, and wraps the others in single quotes |
| Arguments.RequoteInvertible | src/cmdrun.rs:175-179 | every original word can be recovered from its re-quoted form |
| Arguments.RequotedWordIsNoFlag | src/cmdrun.rs:171-180 | a re-quoted word that held whitespace is never taken for an option or for `--` |
| Arguments.DecimalRoundTrip | src/cmdrun.rs:237 | the decimal text of an exit code parses back through `value_parser!(i32)` to the same value |
| Arguments.ParseFrom | src/cmdrun.rs:226-258 | a successful parse never has both flags, keeps flags already seen, and gives a suffix of the words as `cmd`; every failure is an argument error |
| Arguments.FlagsThenCommand | src/cmdrun.rs:226-258 | for any sequence of options written in any order and spelling (an `--expect-return-code` value may be any text `value_parser!(i32)` accepts, such as `+5`, `05` or, attached with `=`, `-0`), followed by `--` or by a first command word: the parse fails exactly when `--strict` or `--expect-return-code` occurs twice, or both occur; otherwise `strict` says whether `--strict` was given, `code` is the value given to `--expect-return-code`, and `cmd` is every word after the options (after a leading `--`), later options included |
| Arguments.ParseFlagsFrom | src/cmdrun.rs:226-258 | the same reading from any position, with some options already seen |
| Arguments.FlagsThenRejected | src/cmdrun.rs:226-258 | valid options followed by a refused word fail with an argument error, whatever follows. Refused words are an unknown or short option, `--expect-return-code` with no value, with an option as its value or with no 32-bit numeral, and `--expect-return-code=` with no numeral |
| Arguments.Rejections | src/cmdrun.rs:226-258 | the refusals with nothing before them: `--expect-return-code` alone, with an option or a non-numeral after it, `--expect-return-code=` with a non-numeral, and an unknown option first |
| Arguments.ExpectIsRead | src/cmdrun.rs:230-237 | `--expect-return-code N CMD...` expects N for every N that is not negative, and `--expect-return-code=N CMD...` expects N for every 32-bit N |
| Arguments.ExpectNumeral | src/cmdrun.rs:230-237 | `--expect-return-code V CMD...` and `--expect-return-code=V CMD...` expect the value of V for every text V that `value_parser!(i32)` accepts and that does not look like an option |
| Arguments.ExpectAttachedNumeral | src/cmdrun.rs:230-237 | `--expect-return-code=V CMD...` expects the value of V for every accepted V, a negative one included |
| Arguments.PlusSignRead | src/cmdrun.rs:230-237 | `--expect-return-code +5 ls` expects 5 |
| Arguments.LeadingZeroRead | src/cmdrun.rs:230-237 | `--expect-return-code 05 ls` expects 5 |
| Arguments.MinusZeroRead | src/cmdrun.rs:230-237 | `--expect-return-code=-0 ls` expects 0 |
| Arguments.OneFlagThenCommand | src/cmdrun.rs:171-195 | one option in front of a command survives re-quoting: `cmd` is the re-quoted command words and the expected exit code is 0 for `--strict` or the value of the given numeral |
| Arguments.ParseI32 | src/cmdrun.rs:237 | `value_parser!(i32)`: a sign, digits and a 32-bit range; what it accepts is proved by `AcceptsOnlyNumerals`, `NumeralsAccepted` and `NonNumeralsRefused`, and the value read back from `Decimal` by `DecimalRoundTrip` |
| Arguments.AcceptsOnlyNumerals | src/cmdrun.rs:237 | an accepted value is an optional sign followed by ASCII digits, and the number returned is their signed value |
| Arguments.NumeralsAccepted | src/cmdrun.rs:237 | every optionally signed numeral whose value fits 32 bits is accepted with that value |
| Arguments.NonNumeralsRefused | src/cmdrun.rs:237 | the empty text, a lone sign, letters, trailing junk and a double sign are refused |
| Arguments.ParseArgs | src/cmdrun.rs:171-180 | `try_get_matches_from`: never both flags, `cmd` is a suffix of the words, and failures are argument errors; `FlagsThenCommand`, `ExpectNumeral` and `FlagsThenRejected` give its result on valid and on refused input |
| Arguments.Expectation | src/cmdrun.rs:191-195 | `--strict` expects 0; without it, the `--expect-return-code` value is expected, or nothing |
| Arguments.NoFlagsAllCommand | src/cmdrun.rs:253-258 | words that start with a non-option are all command words, later options included, and nothing is expected |
| Arguments.StrictConflicts | src/cmdrun.rs:229-244 | `--strict` together with `--expect-return-code`, in either order and in either spelling (`--expect-return-code N` or `--expect-return-code=N`), with any value and whatever follows, fails to parse |
| Arguments.StrictIsExpectZero | src/cmdrun.rs:191-195 | `--strict CMD` and `--expect-return-code 0 CMD` run the same command and expect the same code |
| CmdRun.ShellProgram | src/cmdrun.rs:32-40 | `sh` on Unix and `cmd` on Windows; `RunCmdrun` proves the launch uses it |
| CmdRun.ShellFlag | src/cmdrun.rs:32-40 | `-c` on Unix and `/C` on Windows; `RunCmdrun` proves the launch uses it |
| CmdRun.Launch | src/cmdrun.rs:198-204 | the shell launch with the joined command words in the working directory; `RunCmdrun` proves it is the one launch made |
| CmdRun.EndedMessage | src/cmdrun.rs:209 | the text for a command that ended without an exit code; `ComposeTable` proves when it is used |
| CmdRun.Banner | src/cmdrun.rs:214 | the mismatch banner; `BannerShowsEverything` proves what it contains |
| CmdRun.Compose | src/cmdrun.rs:208-221 | the `match` over exit code and expectation; `ComposeTable` proves each of its rows |
| CmdRun.ComposeTable | src/cmdrun.rs:208-221 | the exit-code table: no code gives the "ended" message; a matching code, or no expectation, gives stdout; a mismatch gives the banner |
| CmdRun.BannerShowsEverything | src/cmdrun.rs:214 | the banner starts with `**cmdrun error**: ` and contains the command, both codes, stdout and stderr |
| CmdRun.Interpret | src/cmdrun.rs:171-180 | the directive text fails only with a split error or an argument error, and never panics |
| CmdRun.RunCmdrun | src/cmdrun.rs:163-222 | a launch of `sh -c`/`cmd /C` with the joined command happens exactly when the words parse and name a command; errors arise exactly from split, parse or spawn failures; it panics exactly when no command word is given; a command that ran always gives text composed from its exit code, the expectation and the formatted stdout |
| CmdRun.MismatchIsNotFatal | src/cmdrun.rs:208-215 | a command that misses its expected code yields text, a banner with both codes, not an error |
| CmdRun.WrittenMismatchIsShown | src/cmdrun.rs:171-215 | for a directive written as `--strict` or one `--expect-return-code` followed by a command: the re-quoted command is launched, and an exit code other than the one asked for gives a banner that shows that code and the expected one |
| Substitution.Closure | src/cmdrun.rs:104-108 | the closure handed to `replace_all`: `run_cmdrun` on the capture with `inline` set for the inline pattern; `PassCallsInOrder` proves what it is called on |
| Substitution.ReplaceFrom | src/cmdrun.rs:103-110 | the recursive specification of one pass; `PassVisitsMatches`, `PassSplices`, `PassStopsAtPanic` and `LastErrorIsLast` prove what it does |
| Substitution.Substituted | src/cmdrun.rs:100-129 | the recursive specification of the whole transform; `OkIffEveryCallOk`, `PassOneErrorStops`, `SuccessIsTwoSplices` and `NoMarkerIsIdentity` prove what it gives |
| Substitution.ReplaceAll | src/cmdrun.rs:103-110 | the left-to-right `replace_all` loop with an overwritten `err` computes exactly the recursive scan `ReplaceFrom` |
| Substitution.RunOnContent | src/cmdrun.rs:100-129 | the two passes, with the early return after pass 1, compute exactly `Substituted` |
| Substitution.PassVisitsMatches | src/cmdrun.rs:103-110 | a pass calls its closure on the regex's matches in order, and on all of them when it completes |
| Substitution.PassStopsAtPanic | src/cmdrun.rs:104-108 | a completed pass met no panic; an aborted pass stopped at its first panic, which is its last call |
| Substitution.PassCallsInOrder | src/cmdrun.rs:104-105 | each call ran on its match's capture, after exactly the shell launches of the calls before it |
| Substitution.PassSplices | src/cmdrun.rs:103-110 | a completed pass is the input with each match replaced by its call's output (nothing for a failed call) and all other text copied; its `err` is the error of the last call that failed |
| Substitution.LastErrorIsLast | src/cmdrun.rs:105-107 | the stored error is absent exactly when no call failed, and otherwise is the error of the last failing call |
| Substitution.NoMarkerIsIdentity | src/cmdrun.rs:100-129 | text in which the inline pattern matches nowhere is returned unchanged and no command is run |
| Substitution.PassOneErrorStops | src/cmdrun.rs:112-114 | an error in pass 1 is the result, and pass 2 runs nothing |
| Substitution.OkIffEveryCallOk | src/cmdrun.rs:100-129 | the transform succeeds exactly when every call it made succeeded; a failure reports the error of the last failing call; a panic is the outcome of the last call |
| Substitution.SuccessIsTwoSplices | src/cmdrun.rs:103-123 | on success, pass 1 spliced the line-mode outputs into the chapter, pass 2 spliced the inline outputs into that text, and the result is pass 2's text |

## Left out

- Process spawning (src/cmdrun.rs:198-204) is an oracle in `Context`. Nothing is assumed about what a command prints or which exit code it returns.
- The exit code is an unbounded `int` from the oracle. The Rust `i32` range of `status.code()` is not imposed.
- The log file `cmdrun.log` opens and writes (src/cmdrun.rs:164-196). They are debug I/O with no effect on the result. The `unwrap` on creating it is not modelled.
- Internals of `shellwords::split` and `shellwords::join`. They belong to a foreign library and are function fields of `Context`. A split failure is one error class.
- `String::from_utf8_lossy`: stdout and stderr arrive as decoded text.
- Rust's `{:?}` escaping of the command in the "ended" message: it is a function field of `Context`.
- clap's own error texts and help output. Every clap rejection is `ArgumentError`, and `-h`/`--help` is one too, because `try_get_matches_from` returns help as an error. Error messages of all kinds are not modelled, and neither is `anyhow` context.
- `Arguments.ParseFrom`: it models only the grammar features this parser uses. It does not model clap features the parser leaves unset (abbreviated long options, negative numbers, values with hyphens).
- Reading `book.toml`, the `SRC_DIR` global and the working-directory derivation (src/cmdrun.rs:58-92). The working directory is a plain string parameter.
- The `Preprocessor` glue and `map_chapter` (src/cmdrun.rs:42-56). src/main.rs and src/lib.rs are not part of this model.
- The compile-time platform selection (`cfg_if!`, `#[cfg]`): the platform is a value, so both variants are modelled side by side.
