/** The directive's own command line (src/cmdrun.rs:171-195, 226-259): the
    shell words are re-quoted, then read with the grammar

        [--strict | --expect-return-code N] CMD...

    that `make_cmdrun_parser` builds with clap. */
module Arguments {
  import opened Base

  type i32 = x: int | -0x8000_0000 <= x < 0x8000_0000

  // ----- re-quoting (src/cmdrun.rs:175-179) -----

  /** A word with whitespace in it is wrapped in single quotes. */
  function QuoteWord(w: string): string
  {
    if HasWhitespace(w) then "'" + w + "'" else w
  }

  function Requote(words: seq<string>): (r: seq<string>)
    ensures |r| == |words|
    ensures forall i :: 0 <= i < |words| && !HasWhitespace(words[i]) ==> r[i] == words[i]
    ensures forall i :: 0 <= i < |words| && HasWhitespace(words[i]) ==> r[i] == "'" + words[i] + "'"
  {
    seq(|words|, i requires 0 <= i < |words| => QuoteWord(words[i]))
  }

  /** Undoes QuoteWord. */
  function UnquoteWord(w: string): string
  {
    if HasWhitespace(w) && |w| >= 2 && w[0] == '\'' && w[|w| - 1] == '\'' then w[1..|w| - 1] else w
  }

  lemma QuoteWordHasWhitespace(w: string)
    requires HasWhitespace(w)
    ensures HasWhitespace(QuoteWord(w))
  {
    var i :| 0 <= i < |w| && IsWhitespace(w[i]);
    assert QuoteWord(w)[i + 1] == w[i];
  }

  /** Re-quoting loses nothing: every word can be recovered. */
  lemma RequoteInvertible(words: seq<string>)
    ensures var r := Requote(words);
      forall i :: 0 <= i < |words| ==> UnquoteWord(r[i]) == words[i]
  {
    var r := Requote(words);
    forall i | 0 <= i < |words| ensures UnquoteWord(r[i]) == words[i] {
      if HasWhitespace(words[i]) {
        QuoteWordHasWhitespace(words[i]);
        assert r[i][1..|r[i]| - 1] == words[i];
      }
    }
  }

  // ----- the i32 value of --expect-return-code -----

  predicate IsDigit(c: char) { '0' <= c <= '9' }

  predicate AllDigits(ds: string) { forall i :: 0 <= i < |ds| ==> IsDigit(ds[i]) }

  function DigitsValue(ds: string): (n: nat)
    requires AllDigits(ds)
  {
    if ds == [] then 0
    else DigitsValue(ds[..|ds| - 1]) * 10 + (ds[|ds| - 1] as int - '0' as int)
  }

  /** clap's `value_parser!(i32)`: an optional sign, one or more decimal
      digits, and a value that fits 32 bits. */
  function ParseI32(v: string): (r: Option<i32>)
    ensures r.Some? ==> v != []
  {
    var neg := |v| > 0 && v[0] == '-';
    var ds := if |v| > 0 && (v[0] == '-' || v[0] == '+') then v[1..] else v;
    if ds == [] || !AllDigits(ds) then None
    else
      var n: int := if neg then 0 - DigitsValue(ds) else DigitsValue(ds);
      if -0x8000_0000 <= n < 0x8000_0000 then Some(n) else None
  }

  /** The decimal digits of n, without leading zeros. */
  function NatDigits(n: nat): (ds: string)
    ensures ds != [] && AllDigits(ds)
    ensures DigitsValue(ds) == n
  {
    if n < 10 then ["0123456789"[n]]
    else
      var ds := NatDigits(n / 10) + ["0123456789"[n % 10]];
      assert ds[..|ds| - 1] == NatDigits(n / 10);
      ds
  }

  /** `{}` of an integer (Rust's Display): a '-' for negatives, then digits. */
  function Decimal(x: int): string
  {
    if x < 0 then "-" + NatDigits(-x) else NatDigits(x)
  }

  /** The banner prints exit codes with Display; the value parser reads
      that text back as the same number. */
  lemma DecimalRoundTrip(x: i32)
    ensures ParseI32(Decimal(x)) == Some(x)
  {
    if x < 0 {
      var ds := NatDigits(-(x as int));
      assert Decimal(x) == "-" + ds;
      assert ("-" + ds)[1..] == ds;
      assert ("-" + ds)[0] == '-';
    } else {
      var ds := NatDigits(x);
      assert IsDigit(ds[0]);
    }
  }

  /** Only a numeral is read: an optional sign, then one or more ASCII
      digits, whose signed value is the one returned. */
  lemma AcceptsOnlyNumerals(v: string, n: i32)
    requires ParseI32(v) == Some(n)
    ensures var k := if v[0] == '-' || v[0] == '+' then 1 else 0;
      && k < |v| && AllDigits(v[k..])
      && n == (if v[0] == '-' then 0 - DigitsValue(v[k..]) else DigitsValue(v[k..]) as int)
  {
  }

  /** ... and every numeral whose value fits 32 bits is read. */
  lemma NumeralsAccepted(sign: string, ds: string)
    requires sign == "" || sign == "+" || sign == "-"
    requires ds != [] && AllDigits(ds)
    requires -0x8000_0000 <= (if sign == "-" then 0 - DigitsValue(ds) else DigitsValue(ds) as int) < 0x8000_0000
    ensures ParseI32(sign + ds) == Some(if sign == "-" then 0 - DigitsValue(ds) else DigitsValue(ds) as int)
  {
    if sign == "" {
      assert sign + ds == ds;
      assert IsDigit(ds[0]);
    } else {
      assert (sign + ds)[0] == sign[0];
      assert (sign + ds)[1..] == ds;
    }
  }

  /** Text that is not a numeral, or does not fit, is refused. */
  lemma NonNumeralsRefused()
    ensures ParseI32("").None? && ParseI32("-").None? && ParseI32("+").None?
    ensures ParseI32("abc").None? && ParseI32("1x").None? && ParseI32("--1").None?
  {
    assert !IsDigit('x') && "1x"[..1] == "1";
    assert "--1"[1..] == "-1";
  }

  // ----- the clap grammar -----

  /** What clap hands back: the `--strict` flag, the `--expect-return-code`
      value, and the `cmd` words (empty when `cmd` is absent). */
  datatype Matches = Matches(strict: bool, code: Option<i32>, cmd: seq<string>)

  const StrictFlag: string := "--strict"
  const ExpectFlag: string := "--expect-return-code"
  const ExpectAttached: string := "--expect-return-code="

  /** A word clap reads as an option rather than a value: "-" followed by
      anything. Long ones it does not know, the built-in -h/--help and
      every short option are errors here. */
  predicate LooksLikeFlag(w: string)
  {
    |w| >= 2 && w[0] == '-'
  }

  /** The checks clap runs once all words are read: the two flags conflict. */
  function Finish(strict: bool, code: Option<i32>, cmd: seq<string>): Outcome<Matches>
  {
    if strict && code.Some? then Err(ArgumentError) else Ok(Matches(strict, code, cmd))
  }

  /** Reads words[i..] while still before the first positional word; from
      that word on, everything belongs to `cmd` (trailing_var_arg). */
  function ParseFrom(words: seq<string>, i: nat, strict: bool, code: Option<i32>): (r: Outcome<Matches>)
    requires i <= |words|
    ensures r.Ok? ==> !(r.value.strict && r.value.code.Some?)
    ensures r.Ok? ==> exists k :: i <= k <= |words| && r.value.cmd == words[k..]
    ensures r.Ok? ==> (strict ==> r.value.strict) && (code.Some? ==> r.value.code == code)
    ensures r.Err? ==> r.error == ArgumentError
    ensures !r.Panic?
    decreases |words| - i
  {
    if i == |words| then
      assert words[i..] == [];
      Finish(strict, code, [])
    else
      var w := words[i];
      if w == "--" then Finish(strict, code, words[i + 1..])
      else if w == StrictFlag then
        if strict then Err(ArgumentError) else ParseFrom(words, i + 1, true, code)
      else if w == ExpectFlag then
        if i + 1 == |words| || LooksLikeFlag(words[i + 1]) || code.Some? then Err(ArgumentError)
        else
          match ParseI32(words[i + 1])
          case None => Err(ArgumentError)
          case Some(n) => ParseFrom(words, i + 2, strict, Some(n))
      else if StartsWith(w, ExpectAttached) then
        if code.Some? then Err(ArgumentError)
        else
          match ParseI32(w[|ExpectAttached|..])
          case None => Err(ArgumentError)
          case Some(n) => ParseFrom(words, i + 1, strict, Some(n))
      else if LooksLikeFlag(w) then Err(ArgumentError)
      else Finish(strict, code, words[i..])
  }

  /** `try_get_matches_from` with `no_binary_name(true)`. */
  function ParseArgs(words: seq<string>): (r: Outcome<Matches>)
    ensures r.Ok? ==> !(r.value.strict && r.value.code.Some?)
    ensures r.Ok? ==> exists k :: 0 <= k <= |words| && r.value.cmd == words[k..]
    ensures r.Err? ==> r.error == ArgumentError
    ensures !r.Panic?
  {
    ParseFrom(words, 0, false, None)
  }

  /** `--strict` means exit code 0; otherwise the given code, if any. */
  function Expectation(m: Matches): (e: Option<i32>)
    ensures m.strict ==> e == Some(0)
    ensures !m.strict ==> e == m.code
  {
    if m.strict then Some(0) else m.code
  }

  /** Words before any flag are all command words; later flags are not
      interpreted, and no exit code is expected. */
  lemma NoFlagsAllCommand(words: seq<string>)
    requires words != [] && !LooksLikeFlag(words[0]) && words[0] != "--"
    ensures ParseArgs(words) == Ok(Matches(false, None, words))
    ensures Expectation(ParseArgs(words).value) == None
  {
    assert Render([]) + words == words;
    FlagsThenCommand([], words);
  }

  /** `--strict` and `--expect-return-code N` together never parse, in
      either order and whatever follows. */
  lemma StrictConflicts(v: string, rest: seq<string>)
    ensures ParseArgs([StrictFlag, ExpectFlag, v] + rest).Err?
    ensures ParseArgs([ExpectFlag, v, StrictFlag] + rest).Err?
    ensures ParseArgs([StrictFlag, ExpectAttached + v] + rest).Err?
    ensures ParseArgs([ExpectAttached + v, StrictFlag] + rest).Err?
  {
    var w1 := [StrictFlag, ExpectFlag, v] + rest;
    assert w1[0] == StrictFlag && w1[1] == ExpectFlag && w1[2] == v;
    assert ParseArgs(w1) == ParseFrom(w1, 1, true, None);
    var w2 := [ExpectFlag, v, StrictFlag] + rest;
    assert w2[0] == ExpectFlag && w2[1] == v && w2[2] == StrictFlag;
    var p := ParseI32(v);
    if p.Some? && !LooksLikeFlag(v) {
      assert ParseArgs(w2) == ParseFrom(w2, 2, false, p);
      assert ParseFrom(w2, 2, false, p) == ParseFrom(w2, 3, true, p);
    }
    var w3 := [StrictFlag, ExpectAttached + v] + rest;
    assert w3[0] == StrictFlag && w3[1] == ExpectAttached + v;
    assert (ExpectAttached + v)[|ExpectAttached|..] == v;
    assert StartsWith(w3[1], ExpectAttached);
    assert ParseArgs(w3) == ParseFrom(w3, 1, true, None);
    var w4 := [ExpectAttached + v, StrictFlag] + rest;
    assert w4[0] == ExpectAttached + v && w4[1] == StrictFlag;
    assert StartsWith(w4[0], ExpectAttached) && w4[0][|ExpectAttached|..] == v;
    if p.Some? {
      assert ParseArgs(w4) == ParseFrom(w4, 1, false, p);
      assert ParseFrom(w4, 1, false, p) == ParseFrom(w4, 2, true, p);
    }
  }

  /** `--strict CMD...` and `--expect-return-code 0 CMD...` expect the same
      exit code and run the same command. */
  lemma StrictIsExpectZero(cmd: seq<string>)
    requires cmd != [] && !LooksLikeFlag(cmd[0]) && cmd[0] != "--"
    ensures ParseArgs([StrictFlag] + cmd) == Ok(Matches(true, None, cmd))
    ensures ParseArgs([ExpectFlag, "0"] + cmd) == Ok(Matches(false, Some(0), cmd))
    ensures Expectation(ParseArgs([StrictFlag] + cmd).value)
         == Expectation(ParseArgs([ExpectFlag, "0"] + cmd).value) == Some(0)
  {
    var w1 := [StrictFlag] + cmd;
    var w2 := [ExpectFlag, "0"] + cmd;
    assert w1[1..] == cmd && w1[1] == cmd[0];
    assert w2[2..] == cmd && w2[2] == cmd[0] && w2[1] == "0";
    assert LooksLikeFlag(StrictFlag) && LooksLikeFlag(ExpectFlag) && LooksLikeFlag(ExpectAttached);
    assert !StartsWith(cmd[0], ExpectAttached);
    assert ParseI32("0") == Some(0);
    assert ParseArgs(w1) == ParseFrom(w1, 1, true, None) == Finish(true, None, cmd);
    assert ParseArgs(w2) == ParseFrom(w2, 2, false, Some(0)) == Finish(false, Some(0), cmd);
  }

  /** A re-quoted word that held whitespace starts with a quote, so clap
      can never take it for an option. */
  lemma RequotedWordIsNoFlag(words: seq<string>, i: nat)
    requires i < |words| && HasWhitespace(words[i])
    ensures !LooksLikeFlag(Requote(words)[i]) && Requote(words)[i] != "--"
  {
  }

  // ----- the grammar against an independent reading of the flags -----

  /** One option occurrence, as written in a directive; `v` is the value
      text as written (`5`, `+5`, `007`, `-0`, ...). */
  datatype Flag = Strict | ExpectSeparate(v: string) | ExpectJoined(v: string)

  /** The words of one option occurrence. */
  function FlagWords(f: Flag): seq<string>
  {
    match f
    case Strict => [StrictFlag]
    case ExpectSeparate(v) => [ExpectFlag, v]
    case ExpectJoined(v) => [ExpectAttached + v]
  }

  function Render(flags: seq<Flag>): seq<string>
  {
    if flags == [] then [] else FlagWords(flags[0]) + Render(flags[1..])
  }

  /** A value is a 32-bit numeral, and a separate value must not look like
      an option, so it has no minus sign (a negative code needs the
      `--expect-return-code=N` spelling). */
  predicate ValidFlag(f: Flag)
  {
    && (!f.Strict? ==> ParseI32(f.v).Some?)
    && (f.ExpectSeparate? ==> !LooksLikeFlag(f.v))
  }

  predicate Renderable(flags: seq<Flag>)
  {
    forall i :: 0 <= i < |flags| ==> ValidFlag(flags[i])
  }

  function StrictCount(flags: seq<Flag>): nat
  {
    if flags == [] then 0 else (if flags[0].Strict? then 1 else 0) + StrictCount(flags[1..])
  }

  function ExpectCount(flags: seq<Flag>): nat
  {
    if flags == [] then 0 else (if flags[0].Strict? then 0 else 1) + ExpectCount(flags[1..])
  }

  /** The value of the first `--expect-return-code`, if any. */
  function FirstCode(flags: seq<Flag>): Option<i32>
  {
    if flags == [] then None else if flags[0].Strict? then FirstCode(flags[1..]) else ParseI32(flags[0].v)
  }

  /** Where the options end: nothing, the separator `--`, or a word that
      is not an option. */
  predicate CommandStart(rest: seq<string>)
  {
    rest == [] || rest[0] == "--" || !LooksLikeFlag(rest[0])
  }

  /** The command words after the options: everything, except a leading `--`. */
  function CmdOf(rest: seq<string>): seq<string>
  {
    if rest != [] && rest[0] == "--" then rest[1..] else rest
  }

  /** What clap promises for options given `sc` times `--strict` and `ec`
      times `--expect-return-code`: each at most once, never both. */
  function Verdict(sc: nat, ec: nat, code: Option<i32>, cmd: seq<string>): Outcome<Matches>
  {
    if sc > 1 || ec > 1 || (sc >= 1 && ec >= 1) then Err(ArgumentError)
    else Ok(Matches(sc == 1, code, cmd))
  }

  /** Options before the first command word are read, in any order and
      with any value; every word from the first command word on, later
      options included, belongs to `cmd`. */
  lemma FlagsThenCommand(flags: seq<Flag>, rest: seq<string>)
    requires Renderable(flags) && CommandStart(rest)
    ensures ParseArgs(Render(flags) + rest)
         == Verdict(StrictCount(flags), ExpectCount(flags), FirstCode(flags), CmdOf(rest))
  {
    var w := Render(flags) + rest;
    assert w[0..] == w;
    ParseFlagsFrom(w, 0, flags, rest, false, None);
  }

  /** The result FlagsThenCommand promises, with options already read. */
  function Expected(flags: seq<Flag>, rest: seq<string>, strict: bool, code: Option<i32>): Outcome<Matches>
  {
    Verdict((if strict then 1 else 0) + StrictCount(flags), (if code.Some? then 1 else 0) + ExpectCount(flags),
            if code.Some? then code else FirstCode(flags), CmdOf(rest))
  }

  /** FlagsThenCommand, from index i and with options already read. */
  lemma {:induction false} ParseFlagsFrom(w: seq<string>, i: nat, flags: seq<Flag>, rest: seq<string>,
                                          strict: bool, code: Option<i32>)
    requires i <= |w| && w[i..] == Render(flags) + rest
    requires Renderable(flags) && CommandStart(rest)
    ensures ParseFrom(w, i, strict, code) == Expected(flags, rest, strict, code)
    decreases |flags|, 1
  {
    if flags == [] {
      assert w[i..] == rest;
      ParseCommandStart(w, i, rest, strict, code);
    } else {
      RenderTail(w, i, flags, rest);
      RenderableTail(flags);
      match flags[0]
      case Strict => StrictFirst(w, i, flags, rest, strict, code);
      case ExpectSeparate(_) =>
        assert ValidFlag(flags[0]);
        SeparateFirst(w, i, flags, rest, strict, code);
      case ExpectJoined(_) =>
        assert ValidFlag(flags[0]);
        JoinedFirst(w, i, flags, rest, strict, code);
    }
  }

  /** The words after the first option are the rendering of the others. */
  lemma RenderTail(w: seq<string>, i: nat, flags: seq<Flag>, rest: seq<string>)
    requires i <= |w| && w[i..] == Render(flags) + rest && flags != []
    ensures i + |FlagWords(flags[0])| <= |w|
    ensures w[i] == FlagWords(flags[0])[0]
    ensures |FlagWords(flags[0])| == 2 ==> w[i + 1] == FlagWords(flags[0])[1]
    ensures w[i + |FlagWords(flags[0])|..] == Render(flags[1..]) + rest
  {
    var a := FlagWords(flags[0]);
    var b := Render(flags[1..]) + rest;
    AppendAssoc(a, Render(flags[1..]), rest);
    SplitAt(w, i, a, b);
  }

  lemma AppendAssoc<T>(a: seq<T>, b: seq<T>, c: seq<T>)
    ensures (a + b) + c == a + (b + c)
  {
  }

  /** A suffix that is `a + b` starts with the elements of `a`. */
  lemma SplitAt<T>(w: seq<T>, i: nat, a: seq<T>, b: seq<T>)
    requires i <= |w| && w[i..] == a + b && a != []
    ensures i + |a| <= |w| && w[i] == a[0] && w[i + |a|..] == b
    ensures |a| >= 2 ==> w[i + 1] == a[1]
  {
    assert w[i] == w[i..][0];
    assert w[i + |a|..] == w[i..][|a|..];
    if |a| >= 2 {
      assert w[i + 1] == w[i..][1];
    }
  }

  lemma RenderableTail(flags: seq<Flag>)
    requires Renderable(flags) && flags != []
    ensures Renderable(flags[1..])
  {
    var fs := flags[1..];
    forall j | 0 <= j < |fs| ensures ValidFlag(fs[j]) {
      assert fs[j] == flags[j + 1];
    }
  }

  lemma {:induction false} StrictFirst(w: seq<string>, i: nat, flags: seq<Flag>, rest: seq<string>,
                                       strict: bool, code: Option<i32>)
    requires flags != [] && flags[0].Strict? && i + 1 <= |w| && w[i] == StrictFlag
    requires w[i + 1..] == Render(flags[1..]) + rest
    requires Renderable(flags[1..]) && CommandStart(rest)
    ensures ParseFrom(w, i, strict, code) == Expected(flags, rest, strict, code)
    decreases |flags|, 0
  {
    StepStrict(w, i, strict, code);
    if !strict {
      ParseFlagsFrom(w, i + 1, flags[1..], rest, true, code);
    }
  }

  lemma {:induction false} SeparateFirst(w: seq<string>, i: nat, flags: seq<Flag>, rest: seq<string>,
                                         strict: bool, code: Option<i32>)
    requires flags != [] && flags[0].ExpectSeparate? && ValidFlag(flags[0]) && i + 2 <= |w|
    requires w[i] == ExpectFlag && w[i + 1] == flags[0].v
    requires w[i + 2..] == Render(flags[1..]) + rest
    requires Renderable(flags[1..]) && CommandStart(rest)
    ensures ParseFrom(w, i, strict, code) == Expected(flags, rest, strict, code)
    decreases |flags|, 0
  {
    StepSeparate(w, i, flags[0].v, strict, code);
    if code.None? {
      ParseFlagsFrom(w, i + 2, flags[1..], rest, strict, ParseI32(flags[0].v));
    }
  }

  lemma {:induction false} JoinedFirst(w: seq<string>, i: nat, flags: seq<Flag>, rest: seq<string>,
                                       strict: bool, code: Option<i32>)
    requires flags != [] && flags[0].ExpectJoined? && ValidFlag(flags[0]) && i + 1 <= |w|
    requires w[i] == ExpectAttached + flags[0].v
    requires w[i + 1..] == Render(flags[1..]) + rest
    requires Renderable(flags[1..]) && CommandStart(rest)
    ensures ParseFrom(w, i, strict, code) == Expected(flags, rest, strict, code)
    decreases |flags|, 0
  {
    StepJoined(w, i, flags[0].v, strict, code);
    if code.None? {
      ParseFlagsFrom(w, i + 1, flags[1..], rest, strict, ParseI32(flags[0].v));
    }
  }

  lemma StepStrict(w: seq<string>, i: nat, strict: bool, code: Option<i32>)
    requires i < |w| && w[i] == StrictFlag
    ensures ParseFrom(w, i, strict, code) == if strict then Err(ArgumentError) else ParseFrom(w, i + 1, true, code)
  {
  }

  lemma StepSeparate(w: seq<string>, i: nat, v: string, strict: bool, code: Option<i32>)
    requires ParseI32(v).Some? && !LooksLikeFlag(v)
    requires i + 1 < |w| && w[i] == ExpectFlag && w[i + 1] == v
    ensures ParseFrom(w, i, strict, code)
         == if code.Some? then Err(ArgumentError) else ParseFrom(w, i + 2, strict, ParseI32(v))
  {
  }

  lemma StepJoined(w: seq<string>, i: nat, v: string, strict: bool, code: Option<i32>)
    requires ParseI32(v).Some? && i < |w| && w[i] == ExpectAttached + v
    ensures ParseFrom(w, i, strict, code)
         == if code.Some? then Err(ArgumentError) else ParseFrom(w, i + 1, strict, ParseI32(v))
  {
    assert StartsWith(w[i], ExpectAttached) && w[i][|ExpectAttached|..] == v;
  }

  /** The parse is over once the options end. */
  lemma ParseCommandStart(w: seq<string>, i: nat, rest: seq<string>, strict: bool, code: Option<i32>)
    requires i <= |w| && w[i..] == rest && CommandStart(rest)
    ensures ParseFrom(w, i, strict, code) == Finish(strict, code, CmdOf(rest))
  {
    if rest != [] {
      assert w[i] == rest[0];
      assert w[i + 1..] == rest[1..];
      if rest[0] != "--" {
        assert !StartsWith(rest[0], ExpectAttached);
      }
    }
  }

  /** The decimal text of a code that is not negative starts with a digit. */
  lemma DecimalNotFlag(n: i32)
    requires n >= 0
    ensures !LooksLikeFlag(Decimal(n)) && Decimal(n) != "--"
  {
    assert IsDigit(Decimal(n)[0]);
  }

  /** With the reading above: `--expect-return-code N CMD...` expects N,
      for every N that is not negative, and `--expect-return-code=N CMD...`
      expects N for every N at all. */
  lemma ExpectIsRead(n: i32, cmd: seq<string>)
    requires cmd != [] && !LooksLikeFlag(cmd[0])
    ensures n >= 0 ==> ParseArgs([ExpectFlag, Decimal(n)] + cmd) == Ok(Matches(false, Some(n), cmd))
    ensures ParseArgs([ExpectAttached + Decimal(n)] + cmd) == Ok(Matches(false, Some(n), cmd))
    ensures Expectation(ParseArgs([ExpectAttached + Decimal(n)] + cmd).value) == Some(n)
  {
    DecimalRoundTrip(n);
    if n >= 0 {
      DecimalNotFlag(n);
      ExpectNumeral(Decimal(n), cmd);
    } else {
      ExpectAttachedNumeral(Decimal(n), cmd);
    }
  }

  /** Any numeral clap accepts is read, however it is written: a `+`
      sign or leading zeros. A separate value must not look like an
      option, so `-0` is read only in the `=` form. */
  lemma ExpectNumeral(v: string, cmd: seq<string>)
    requires ParseI32(v).Some? && !LooksLikeFlag(v)
    requires cmd != [] && !LooksLikeFlag(cmd[0])
    ensures ParseArgs([ExpectFlag, v] + cmd) == Ok(Matches(false, ParseI32(v), cmd))
    ensures ParseArgs([ExpectAttached + v] + cmd) == Ok(Matches(false, ParseI32(v), cmd))
  {
    SingleFlag(ExpectSeparate(v));
    FlagsThenCommand([ExpectSeparate(v)], cmd);
    ExpectAttachedNumeral(v, cmd);
  }

  lemma ExpectAttachedNumeral(v: string, cmd: seq<string>)
    requires ParseI32(v).Some?
    requires cmd != [] && !LooksLikeFlag(cmd[0])
    ensures ParseArgs([ExpectAttached + v] + cmd) == Ok(Matches(false, ParseI32(v), cmd))
  {
    SingleFlag(ExpectJoined(v));
    FlagsThenCommand([ExpectJoined(v)], cmd);
  }

  /** Spellings other than the decimal display text: a plus sign, ... */
  lemma PlusSignRead()
    ensures ParseArgs([ExpectFlag, "+5", "ls"]) == Ok(Matches(false, Some(5), ["ls"]))
  {
    assert DigitsValue("5") == 5 by { assert "5"[..0] == ""; }
    NumeralsAccepted("+", "5");
    assert "+" + "5" == "+5";
    assert [ExpectFlag, "+5", "ls"] == [ExpectFlag, "+5"] + ["ls"];
    ExpectNumeral("+5", ["ls"]);
  }

  /** ... a leading zero, ... */
  lemma LeadingZeroRead()
    ensures ParseArgs([ExpectFlag, "05", "ls"]) == Ok(Matches(false, Some(5), ["ls"]))
  {
    NumeralsAccepted("", "05");
    assert "" + "05" == "05";
    assert DigitsValue("05") == 5 by {
      assert "05"[..1] == "0" && "0"[..0] == "";
    }
    assert [ExpectFlag, "05", "ls"] == [ExpectFlag, "05"] + ["ls"];
    ExpectNumeral("05", ["ls"]);
  }

  /** ... and a negative zero, attached. */
  lemma MinusZeroRead()
    ensures ParseArgs([ExpectAttached + "-0", "ls"]) == Ok(Matches(false, Some(0), ["ls"]))
  {
    assert DigitsValue("0") == 0 by { assert "0"[..0] == ""; }
    NumeralsAccepted("-", "0");
    assert "-" + "0" == "-0";
    assert [ExpectAttached + "-0", "ls"] == [ExpectAttached + "-0"] + ["ls"];
    ExpectAttachedNumeral("-0", ["ls"]);
  }

  // ----- one option, as the directive's author writes it -----

  /** The exit code a single option asks for. */
  function Wanted(f: Flag): i32
    requires ValidFlag(f)
  {
    if f.Strict? then 0 else ParseI32(f.v).value
  }

  /** `--strict` or one `--expect-return-code` in front of a command: the
      command words survive re-quoting and the option is read, so the
      command is expected to exit with Wanted(f). */
  lemma OneFlagThenCommand(f: Flag, cmd: seq<string>)
    requires ValidFlag(f) && cmd != [] && !LooksLikeFlag(cmd[0]) && cmd[0] != "--"
    ensures ParseArgs(Requote(FlagWords(f) + cmd)).Ok?
    ensures ParseArgs(Requote(FlagWords(f) + cmd)).value.cmd == Requote(cmd)
    ensures Expectation(ParseArgs(Requote(FlagWords(f) + cmd)).value) == Some(Wanted(f))
  {
    assert Renderable([f]);
    FlagWordsUnquoted(f);
    RequoteAppend(FlagWords(f), cmd);
    var rc := Requote(cmd);
    if HasWhitespace(cmd[0]) {
      RequotedWordIsNoFlag(cmd, 0);
    }
    assert CmdOf(rc) == rc;
    SingleFlag(f);
    FlagsThenCommand([f], rc);
  }

  lemma SingleFlag(f: Flag)
    ensures Render([f]) == FlagWords(f)
    ensures StrictCount([f]) == (if f.Strict? then 1 else 0)
    ensures ExpectCount([f]) == (if f.Strict? then 0 else 1)
    ensures FirstCode([f]) == (if f.Strict? then None else ParseI32(f.v))
  {
    assert [f][1..] == [];
  }

  /** Re-quoting works word by word. */
  lemma RequoteAppend(a: seq<string>, b: seq<string>)
    ensures Requote(a + b) == Requote(a) + Requote(b)
  {
    var l := Requote(a + b);
    var r := Requote(a) + Requote(b);
    forall k | 0 <= k < |l| ensures l[k] == r[k] {
      if k >= |a| {
        assert (a + b)[k] == b[k - |a|];
      } else {
        assert (a + b)[k] == a[k];
      }
    }
  }

  /** Option words hold no whitespace, so re-quoting leaves them alone. */
  lemma FlagWordsUnquoted(f: Flag)
    requires ValidFlag(f)
    ensures Requote(FlagWords(f)) == FlagWords(f)
  {
    OptionNamesUnquoted();
    if f.ExpectJoined? {
      NumeralNoWhitespace(f.v);
      AppendNoWhitespace(ExpectAttached, f.v);
    } else if f.ExpectSeparate? {
      NumeralNoWhitespace(f.v);
    }
    RequoteUnquoted(FlagWords(f));
  }

  lemma OptionNamesUnquoted()
    ensures !HasWhitespace(StrictFlag) && !HasWhitespace(ExpectFlag) && !HasWhitespace(ExpectAttached)
  {
    PrintableNoWhitespace(StrictFlag);
    PrintableNoWhitespace(ExpectFlag);
    PrintableNoWhitespace(ExpectAttached);
  }

  lemma RequoteUnquoted(a: seq<string>)
    requires forall k :: 0 <= k < |a| ==> !HasWhitespace(a[k])
    ensures Requote(a) == a
  {
  }

  /** Visible ASCII characters are not whitespace. */
  lemma PrintableNoWhitespace(w: string)
    requires forall k :: 0 <= k < |w| ==> '!' <= w[k] <= '~'
    ensures !HasWhitespace(w)
  {
  }

  lemma AppendNoWhitespace(a: string, b: string)
    requires !HasWhitespace(a) && !HasWhitespace(b)
    ensures !HasWhitespace(a + b)
  {
    forall k | 0 <= k < |a + b| ensures !IsWhitespace((a + b)[k]) {
      if k >= |a| {
        assert (a + b)[k] == b[k - |a|];
      } else {
        assert (a + b)[k] == a[k];
      }
    }
  }

  /** A numeral is digits and perhaps a sign: no whitespace. */
  lemma NumeralNoWhitespace(v: string)
    requires ParseI32(v).Some?
    ensures !HasWhitespace(v)
  {
    AcceptsOnlyNumerals(v, ParseI32(v).value);
    var k := if v[0] == '-' || v[0] == '+' then 1 else 0;
    forall j | 0 <= j < |v| ensures !IsWhitespace(v[j]) {
      if j >= k {
        assert v[j] == v[k..][j - k];
      }
    }
  }

  /** Decimal text is digits and perhaps a minus sign: no whitespace. */
  lemma DecimalNoWhitespace(x: int)
    ensures !HasWhitespace(Decimal(x))
  {
    var d := Decimal(x);
    forall k | 0 <= k < |d| ensures !IsWhitespace(d[k]) {
      if x < 0 && k > 0 {
        assert d[k] == NatDigits(-x)[k - 1];
      }
    }
  }

  // ----- what the grammar refuses -----

  /** A long option that is neither `--strict` nor `--expect-return-code`,
      or a short one: clap knows no such argument. */
  predicate UnknownOption(u: string)
  {
    LooksLikeFlag(u) && u != "--" && u != StrictFlag && u != ExpectFlag && !StartsWith(u, ExpectAttached)
  }

  /** Words that clap refuses where an option may stand: an unknown option,
      `--expect-return-code` without a value or with one that is an option
      or no 32-bit numeral, and `--expect-return-code=` with no numeral. */
  predicate Rejected(tail: seq<string>)
  {
    tail != [] &&
    (|| (tail[0] == ExpectFlag && (|tail| == 1 || LooksLikeFlag(tail[1]) || ParseI32(tail[1]).None?))
     || (StartsWith(tail[0], ExpectAttached) && ParseI32(tail[0][|ExpectAttached|..]).None?)
     || UnknownOption(tail[0]))
  }

  /** Valid options followed by a refused word: the parse fails with an
      argument error, whatever comes after. */
  lemma FlagsThenRejected(flags: seq<Flag>, tail: seq<string>)
    requires Renderable(flags) && Rejected(tail)
    ensures ParseArgs(Render(flags) + tail) == Err(ArgumentError)
  {
    var w := Render(flags) + tail;
    assert w[0..] == w;
    RejectedFrom(w, 0, flags, tail, false, None);
  }

  /** The refusals with no option before them. */
  lemma Rejections(v: string, u: string, rest: seq<string>)
    ensures ParseArgs([ExpectFlag]) == Err(ArgumentError)
    ensures ParseI32(v).None? || LooksLikeFlag(v) ==> ParseArgs([ExpectFlag, v] + rest) == Err(ArgumentError)
    ensures ParseI32(v).None? ==> ParseArgs([ExpectAttached + v] + rest) == Err(ArgumentError)
    ensures UnknownOption(u) ==> ParseArgs([u] + rest) == Err(ArgumentError)
  {
    assert Render([]) == [];
    assert Rejected([ExpectFlag]);
    FlagsThenRejected([], [ExpectFlag]);
    var t1 := [ExpectFlag, v] + rest;
    if ParseI32(v).None? || LooksLikeFlag(v) {
      assert t1[0] == ExpectFlag && t1[1] == v;
      FlagsThenRejected([], t1);
    }
    var t2 := [ExpectAttached + v] + rest;
    if ParseI32(v).None? {
      assert t2[0] == ExpectAttached + v;
      assert StartsWith(t2[0], ExpectAttached) && t2[0][|ExpectAttached|..] == v;
      FlagsThenRejected([], t2);
    }
    var t3 := [u] + rest;
    if UnknownOption(u) {
      assert t3[0] == u;
      FlagsThenRejected([], t3);
    }
  }

  lemma {:induction false} RejectedFrom(w: seq<string>, i: nat, flags: seq<Flag>, tail: seq<string>,
                                        strict: bool, code: Option<i32>)
    requires i <= |w| && w[i..] == Render(flags) + tail
    requires Renderable(flags) && Rejected(tail)
    ensures ParseFrom(w, i, strict, code) == Err(ArgumentError)
    decreases |flags|
  {
    if flags == [] {
      assert w[i..] == tail;
      RejectedHere(w, i, tail, strict, code);
    } else {
      RenderTail(w, i, flags, tail);
      RenderableTail(flags);
      match flags[0]
      case Strict =>
        StepStrict(w, i, strict, code);
        if !strict { RejectedFrom(w, i + 1, flags[1..], tail, true, code); }
      case ExpectSeparate(v) =>
        assert ValidFlag(flags[0]);
        StepSeparate(w, i, v, strict, code);
        if code.None? { RejectedFrom(w, i + 2, flags[1..], tail, strict, ParseI32(v)); }
      case ExpectJoined(v) =>
        assert ValidFlag(flags[0]);
        StepJoined(w, i, v, strict, code);
        if code.None? { RejectedFrom(w, i + 1, flags[1..], tail, strict, ParseI32(v)); }
    }
  }

  lemma RejectedHere(w: seq<string>, i: nat, tail: seq<string>, strict: bool, code: Option<i32>)
    requires i <= |w| && w[i..] == tail && Rejected(tail)
    ensures ParseFrom(w, i, strict, code) == Err(ArgumentError)
  {
    assert w[i] == tail[0];
    if |tail| >= 2 {
      assert w[i + 1] == tail[1];
    }
  }
}
