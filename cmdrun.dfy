/** `run_cmdrun` (src/cmdrun.rs:163-222): one directive, from its raw text to
    the text that replaces it. The shell, shellwords and Rust's Debug
    rendering are beyond the model; they come in through a Context. */
module CmdRun {
  import opened Base
  import opened Formatter
  import opened Arguments

  /** What the spawned shell leaves behind: its exit code (absent when a
      signal ended it) and its output, already decoded as text. */
  datatype ExecOutput = ExecOutput(code: Option<int>, stdout: string, stderr: string)

  /** One shell launch: `program flag command`, run in directory `dir`. */
  datatype Invocation = Invocation(program: string, flag: string, command: string, dir: string)

  /** The world outside: given the launches made so far (their side effects
      may matter) and the next one, what it yields; None when the shell
      cannot be started. */
  type Oracle = (seq<Invocation>, Invocation) -> Option<ExecOutput>

  datatype Context = Context(
    platform: Platform,
    split: string -> Option<seq<string>>,   // shellwords::split
    join: seq<string> -> string,            // shellwords::join
    debug: string -> string,                // `{:?}` of a String
    exec: Oracle)

  /** LAUNCH_SHELL_COMMAND and LAUNCH_SHELL_FLAG (src/cmdrun.rs:32-40). */
  function ShellProgram(p: Platform): string
  {
    match p
    case Unix => "sh"
    case Windows => "cmd"
  }

  function ShellFlag(p: Platform): string
  {
    match p
    case Unix => "-c"
    case Windows => "/C"
  }

  /** The result of one directive and the launch it made, if any. */
  datatype Step = Step(outcome: Outcome<string>, spawned: Option<Invocation>)

  const BannerHead: string := "**cmdrun error**: "
  const NoCommandMessage: string := "able to parse a command and not get None"

  function EndedMessage(debugCmd: string): string
  {
    "'" + debugCmd + "' was ended before completing."
  }

  /** The text of a failed expectation, piece by piece. */
  function BannerPieces(cmd: string, code: int, expected: int, stdout: string, stderr: string): seq<string>
  {
    [BannerHead, "'", cmd, "' returned exit code ", Decimal(code), " instead of ", Decimal(expected), ".\n",
     stdout, "\n", stderr]
  }

  function Banner(cmd: string, code: int, expected: int, stdout: string, stderr: string): string
  {
    Concat(BannerPieces(cmd, code, expected, stdout, stderr))
  }

  /** The final `match` over (exit code, expectation). */
  function Compose(cmd: string, debugCmd: string, code: Option<int>, expected: Option<i32>,
                   stdout: string, stderr: string): string
  {
    match (code, expected)
    case (None, _) => EndedMessage(debugCmd)
    case (Some(c), Some(e)) => if c != e then Banner(cmd, c, e, stdout, stderr) else stdout
    case (Some(_), None) => stdout
  }

  /** The exit-code table: no code gives the "ended" message whatever is
      expected; a code that meets the expectation, or no expectation, gives
      the output; a mismatch gives the banner. */
  lemma ComposeTable(cmd: string, debugCmd: string, code: Option<int>, expected: Option<i32>,
                     stdout: string, stderr: string)
    ensures var r := Compose(cmd, debugCmd, code, expected, stdout, stderr);
      && (code.None? ==> r == EndedMessage(debugCmd))
      && (code.Some? && (expected.None? || expected == Some(code.value)) ==> r == stdout)
      && (code.Some? && expected.Some? && expected != Some(code.value) ==>
            r == Banner(cmd, code.value, expected.value, stdout, stderr))
  {
  }

  /** The banner starts with its marker and shows the command, both exit
      codes, the output and the error output. */
  lemma BannerShowsEverything(cmd: string, code: int, expected: int, stdout: string, stderr: string)
    ensures StartsWith(Banner(cmd, code, expected, stdout, stderr), BannerHead)
    ensures Contains(Banner(cmd, code, expected, stdout, stderr), cmd)
    ensures Contains(Banner(cmd, code, expected, stdout, stderr), Decimal(code))
    ensures Contains(Banner(cmd, code, expected, stdout, stderr), Decimal(expected))
    ensures Contains(Banner(cmd, code, expected, stdout, stderr), stdout)
    ensures Contains(Banner(cmd, code, expected, stdout, stderr), stderr)
  {
    var ps := BannerPieces(cmd, code, expected, stdout, stderr);
    ConcatShowsPiece(ps, 0);
    assert ps[..0] == [];
    ConcatShowsPiece(ps, 2);
    ConcatShowsPiece(ps, 4);
    ConcatShowsPiece(ps, 6);
    ConcatShowsPiece(ps, 8);
    ConcatShowsPiece(ps, 10);
  }

  /** The directive's words after splitting, re-quoting and parsing. */
  function Interpret(raw: string, ctx: Context): (r: Outcome<Matches>)
    ensures r.Err? ==> r.error in {SplitError, ArgumentError}
    ensures !r.Panic?
  {
    match ctx.split(raw)
    case None => Err(SplitError)
    case Some(words) => ParseArgs(Requote(words))
  }

  /** The shell launch for the command words of m, in directory wd. */
  function Launch(m: Matches, wd: string, ctx: Context): Invocation
  {
    Invocation(ShellProgram(ctx.platform), ShellFlag(ctx.platform), ctx.join(m.cmd), wd)
  }

  /** `run_cmdrun(command, working_dir, inline)`, after the launches in
      `history`. */
  function RunCmdrun(raw: string, wd: string, inline: bool, ctx: Context, history: seq<Invocation>): (st: Step)
    // a launch happens exactly when the words parse and name a command
    ensures st.spawned.Some? <==> Interpret(raw, ctx).Ok? && Interpret(raw, ctx).value.cmd != []
    ensures st.spawned.Some? ==> st.spawned.value == Launch(Interpret(raw, ctx).value, wd, ctx)
    // the failures: splitting, parsing, or starting the shell
    ensures st.outcome.Err? <==>
              Interpret(raw, ctx).Err? || (st.spawned.Some? && ctx.exec(history, st.spawned.value).None?)
    ensures st.outcome.Err? && st.spawned.None? ==> st.outcome.error == Interpret(raw, ctx).error
    ensures st.outcome.Err? && st.spawned.Some? ==> st.outcome.error == SpawnError
    // no command words at all: the `expect` panics
    ensures st.outcome.Panic? <==> Interpret(raw, ctx).Ok? && Interpret(raw, ctx).value.cmd == []
    // a command that ran always gives text, whatever its exit code
    ensures st.spawned.Some? && ctx.exec(history, st.spawned.value).Some? ==>
              var out := ctx.exec(history, st.spawned.value).value;
              st.outcome == Ok(Compose(st.spawned.value.command, ctx.debug(st.spawned.value.command),
                                       out.code, Expectation(Interpret(raw, ctx).value),
                                       FormatWhitespace(ctx.platform, out.stdout, inline), out.stderr))
  {
    var parsed := Interpret(raw, ctx);
    if parsed.Err? then Step(Err(parsed.error), None)
    else if parsed.value.cmd == [] then Step(Panic(NoCommandMessage), None)
    else
      var m := parsed.value;
      var inv := Launch(m, wd, ctx);
      match ctx.exec(history, inv)
      case None => Step(Err(SpawnError), Some(inv))
      case Some(out) =>
        var stdout := FormatWhitespace(ctx.platform, out.stdout, inline);
        Step(Ok(Compose(inv.command, ctx.debug(inv.command), out.code, Expectation(m), stdout, out.stderr)),
             Some(inv))
  }

  /** A command that fails its `--expect-return-code` is reported in the
      text with the banner; the directive does not fail. */
  lemma MismatchIsNotFatal(raw: string, wd: string, inline: bool, ctx: Context, history: seq<Invocation>,
                           code: int)
    requires Interpret(raw, ctx).Ok? && Interpret(raw, ctx).value.cmd != []
    requires var m := Interpret(raw, ctx).value;
      var out := ctx.exec(history, Launch(m, wd, ctx));
      out.Some? && out.value.code == Some(code) && Expectation(m).Some? && Expectation(m).value != code
    ensures var st := RunCmdrun(raw, wd, inline, ctx, history);
      st.outcome.Ok? && StartsWith(st.outcome.value, BannerHead)
      && Contains(st.outcome.value, Decimal(code))
      && Contains(st.outcome.value, Decimal(Expectation(Interpret(raw, ctx).value).value))
  {
    var m := Interpret(raw, ctx).value;
    var inv := Launch(m, wd, ctx);
    var out := ctx.exec(history, inv).value;
    BannerShowsEverything(inv.command, code, Expectation(m).value,
                          FormatWhitespace(ctx.platform, out.stdout, inline), out.stderr);
  }

  /** MismatchIsNotFatal for a directive written as one option and a
      command, `<!-- cmdrun --expect-return-code=N CMD... -->` say: the
      command is launched, and an exit code other than the one asked for
      is shown in the banner next to the expected one. */
  lemma WrittenMismatchIsShown(raw: string, wd: string, inline: bool, ctx: Context, history: seq<Invocation>,
                               f: Flag, cmd: seq<string>, code: int)
    requires ValidFlag(f) && cmd != [] && !LooksLikeFlag(cmd[0]) && cmd[0] != "--"
    requires ctx.split(raw) == Some(FlagWords(f) + cmd)
    requires var inv := Invocation(ShellProgram(ctx.platform), ShellFlag(ctx.platform), ctx.join(Requote(cmd)), wd);
      var out := ctx.exec(history, inv);
      out.Some? && out.value.code == Some(code) && code != Wanted(f)
    ensures var st := RunCmdrun(raw, wd, inline, ctx, history);
      && st.spawned == Some(Invocation(ShellProgram(ctx.platform), ShellFlag(ctx.platform), ctx.join(Requote(cmd)), wd))
      && st.outcome.Ok? && StartsWith(st.outcome.value, BannerHead)
      && Contains(st.outcome.value, Decimal(code))
      && Contains(st.outcome.value, Decimal(Wanted(f)))
  {
    OneFlagThenCommand(f, cmd);
    MismatchIsNotFatal(raw, wd, inline, ctx, history, code);
  }
}
