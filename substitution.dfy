/** `run_on_content` (src/cmdrun.rs:100-129): the two `replace_all` passes
    over a chapter's text, first with the line-consuming pattern, then with
    the inline one, and the `err` both replacement closures write to. */
module Substitution {
  import opened Base
  import opened Scanner
  import opened CmdRun

  /** The replacement closure of a pass: it runs one capture, after the
      launches made so far. */
  type Runner = (string, seq<Invocation>) -> Step

  /** The closure `run_on_content` hands to `replace_all`: `run_cmdrun` on
      group 1, with `inline` set for the inline pattern. */
  function Closure(wd: string, mode: Mode, ctx: Context): Runner
  {
    (raw: string, h: seq<Invocation>) => RunCmdrun(raw, wd, mode == Inline, ctx, h)
  }

  /** One directive the scan met, and what running it gave. */
  datatype Call = Call(m: Match, step: Step)

  /** The end of one `replace_all`: the new text and the error last stored
      in `err`, or a panic that stopped everything; with the calls made. */
  datatype Scan =
    | Completed(text: string, err: Option<Error>, calls: seq<Call>)
    | Aborted(message: string, calls: seq<Call>)

  /** The whole transform: its result and every call, pass 1 then pass 2. */
  datatype Run = Run(result: Outcome<string>, calls: seq<Call>)

  function Spawned(st: Step): seq<Invocation>
  {
    if st.spawned.Some? then [st.spawned.value] else []
  }

  /** The shell launches of the calls, in order. */
  function Launches(calls: seq<Call>): seq<Invocation>
  {
    if calls == [] then [] else Launches(calls[..|calls| - 1]) + Spawned(calls[|calls| - 1].step)
  }

  /** What the closure hands back to `replace_all`: the output, or the
      empty string once the error is stored in `err`. */
  function Replacement(o: Outcome<string>): string
  {
    if o.Ok? then o.value else []
  }

  function ErrorOf(o: Outcome<string>): Option<Error>
  {
    if o.Err? then Some(o.error) else None
  }

  /** `err` after more calls: a later error overwrites an earlier one. */
  function Latest(earlier: Option<Error>, later: Option<Error>): Option<Error>
  {
    if later.Some? then later else earlier
  }

  /** Puts the result of one call in front of the scan of the rest. */
  function Prepend(piece: string, err: Option<Error>, call: Call, rest: Scan): Scan
  {
    match rest
    case Completed(t, e, cs) => Completed(piece + t, Latest(err, e), [call] + cs)
    case Aborted(msg, cs) => Aborted(msg, [call] + cs)
  }

  /** `replace_all` from index p, with the launches in `history` already
      made: each match, leftmost first, is replaced by what `run` gives for
      its capture; text between matches is copied. */
  function ReplaceFrom(s: string, p: nat, mode: Mode, run: Runner, history: seq<Invocation>): Scan
    requires p <= |s|
    decreases |s| - p
  {
    match FindFrom(s, p, mode)
    case None => Completed(s[p..], None, [])
    case Some(m) =>
      var st := run(s[m.capStart..m.capEnd], history);
      if st.outcome.Panic? then Aborted(st.outcome.message, [Call(m, st)])
      else
        var rest := ReplaceFrom(s, m.end, mode, run, history + Spawned(st));
        Prepend(s[p..m.start] + Replacement(st.outcome), ErrorOf(st.outcome), Call(m, st), rest)
  }

  /** Pass 1: the line-consuming pattern over the chapter. */
  function FirstPass(content: string, wd: string, ctx: Context): Scan
  {
    ReplaceFrom(content, 0, LineConsuming, Closure(wd, LineConsuming, ctx), [])
  }

  /** Pass 2: the inline pattern over pass 1's text, after pass 1's launches. */
  function SecondPass(text: string, wd: string, ctx: Context, launched: seq<Invocation>): Scan
  {
    ReplaceFrom(text, 0, Inline, Closure(wd, Inline, ctx), launched)
  }

  /** `run_on_content(content, working_dir)`. */
  function Substituted(content: string, wd: string, ctx: Context): Run
  {
    match FirstPass(content, wd, ctx)
    case Aborted(msg, cs) => Run(Panic(msg), cs)
    case Completed(t, e, cs) =>
      if e.Some? then Run(Err(e.value), cs)
      else
        match SecondPass(t, wd, ctx, Launches(cs))
        case Aborted(msg, cs2) => Run(Panic(msg), cs + cs2)
        case Completed(t2, e2, cs2) => Run(if e2.Some? then Err(e2.value) else Ok(t2), cs + cs2)
  }

  // ----- the imperative form -----

  /** A scan whose first part is already done: `out`, `err` and `calls`
      hold what the loop has built so far. */
  function Resume(out: string, err: Option<Error>, calls: seq<Call>, rest: Scan): Scan
  {
    match rest
    case Completed(t, e, cs) => Completed(out + t, Latest(err, e), calls + cs)
    case Aborted(msg, cs) => Aborted(msg, calls + cs)
  }

  lemma ResumePrepend(out: string, err: Option<Error>, calls: seq<Call>,
                      piece: string, e1: Option<Error>, call: Call, rest: Scan)
    ensures Resume(out, err, calls, Prepend(piece, e1, call, rest))
         == Resume(out + piece, Latest(err, e1), calls + [call], rest)
  {
    match rest
    case Completed(t, e, cs) =>
      assert out + (piece + t) == out + piece + t;
      assert calls + ([call] + cs) == calls + [call] + cs;
    case Aborted(msg, cs) =>
      assert calls + ([call] + cs) == calls + [call] + cs;
  }

  lemma ResumeNothing(sc: Scan)
    ensures Resume([], None, [], sc) == sc
  {
    match sc
    case Completed(t, e, cs) => assert [] + t == t && [] + cs == cs;
    case Aborted(msg, cs) => assert [] + cs == cs;
  }

  /** The scan from p when no match is left. */
  lemma ResumeDone(s: string, p: nat, mode: Mode, run: Runner, h: seq<Invocation>,
                   out: string, err: Option<Error>, calls: seq<Call>)
    requires p <= |s| && FindFrom(s, p, mode).None?
    ensures Resume(out, err, calls, ReplaceFrom(s, p, mode, run, h)) == Completed(out + s[p..], err, calls)
  {
    assert calls + [] == calls;
  }

  /** The scan from p when the call on the next match panics. */
  lemma ResumePanic(s: string, p: nat, mode: Mode, run: Runner, h: seq<Invocation>,
                    out: string, err: Option<Error>, calls: seq<Call>)
    requires p <= |s| && FindFrom(s, p, mode).Some?
    requires run(s[FindFrom(s, p, mode).value.capStart..FindFrom(s, p, mode).value.capEnd], h).outcome.Panic?
    ensures Resume(out, err, calls, ReplaceFrom(s, p, mode, run, h))
         == Aborted(run(s[FindFrom(s, p, mode).value.capStart..FindFrom(s, p, mode).value.capEnd], h).outcome.message,
                    calls + [Call(FindFrom(s, p, mode).value,
                                  run(s[FindFrom(s, p, mode).value.capStart..FindFrom(s, p, mode).value.capEnd], h))])
  {
  }

  /** One step of the scan from p, when a match is found there and its
      call does not panic. */
  lemma ResumeStep(s: string, p: nat, mode: Mode, run: Runner, h: seq<Invocation>,
                   out: string, err: Option<Error>, calls: seq<Call>)
    requires p <= |s| && FindFrom(s, p, mode).Some?
    requires !run(s[FindFrom(s, p, mode).value.capStart..FindFrom(s, p, mode).value.capEnd], h).outcome.Panic?
    ensures Resume(out, err, calls, ReplaceFrom(s, p, mode, run, h))
         == Resume(out + (s[p..FindFrom(s, p, mode).value.start]
                          + Replacement(run(s[FindFrom(s, p, mode).value.capStart..FindFrom(s, p, mode).value.capEnd], h).outcome)),
                   Latest(err, ErrorOf(run(s[FindFrom(s, p, mode).value.capStart..FindFrom(s, p, mode).value.capEnd], h).outcome)),
                   calls + [Call(FindFrom(s, p, mode).value,
                                 run(s[FindFrom(s, p, mode).value.capStart..FindFrom(s, p, mode).value.capEnd], h))],
                   ReplaceFrom(s, FindFrom(s, p, mode).value.end, mode, run,
                               h + Spawned(run(s[FindFrom(s, p, mode).value.capStart..FindFrom(s, p, mode).value.capEnd], h))))
  {
    var m := FindFrom(s, p, mode).value;
    var st := run(s[m.capStart..m.capEnd], h);
    ResumePrepend(out, err, calls, s[p..m.start] + Replacement(st.outcome), ErrorOf(st.outcome),
                  Call(m, st), ReplaceFrom(s, m.end, mode, run, h + Spawned(st)));
  }

  /** One `replace_all` pass, as a left-to-right loop that builds a new
      string and overwrites `err` on every failing call. */
  method ReplaceAll(s: string, mode: Mode, run: Runner, history: seq<Invocation>)
    returns (sc: Scan)
    ensures sc == ReplaceFrom(s, 0, mode, run, history)
  {
    var p: nat := 0;
    var out: string := [];
    var err: Option<Error> := None;
    var calls: seq<Call> := [];
    var h := history;
    ResumeNothing(ReplaceFrom(s, 0, mode, run, history));
    while true
      invariant p <= |s|
      invariant Resume(out, err, calls, ReplaceFrom(s, p, mode, run, h))
             == ReplaceFrom(s, 0, mode, run, history)
      decreases |s| - p
    {
      var found := FindFrom(s, p, mode);
      if found.None? {
        ResumeDone(s, p, mode, run, h, out, err, calls);
        sc := Completed(out + s[p..], err, calls);
        return;
      }
      var m := found.value;
      var st := run(s[m.capStart..m.capEnd], h);
      if st.outcome.Panic? {
        ResumePanic(s, p, mode, run, h, out, err, calls);
        sc := Aborted(st.outcome.message, calls + [Call(m, st)]);
        return;
      }
      ResumeStep(s, p, mode, run, h, out, err, calls);
      out := out + (s[p..m.start] + Replacement(st.outcome));
      ghost var err0 := err;
      if st.outcome.Err? {
        err := Some(st.outcome.error);
      }
      assert err == Latest(err0, ErrorOf(st.outcome));
      calls := calls + [Call(m, st)];
      h := h + Spawned(st);
      p := m.end;
    }
  }

  /** `run_on_content`: pass 1, stop on its error, then pass 2 over pass 1's
      text. */
  method RunOnContent(content: string, wd: string, ctx: Context) returns (r: Outcome<string>)
    ensures r == Substituted(content, wd, ctx).result
  {
    var pass1 := ReplaceAll(content, LineConsuming, Closure(wd, LineConsuming, ctx), []);
    if pass1.Aborted? {
      return Panic(pass1.message);
    }
    if pass1.err.Some? {
      return Err(pass1.err.value);
    }
    var pass2 := ReplaceAll(pass1.text, Inline, Closure(wd, Inline, ctx), Launches(pass1.calls));
    if pass2.Aborted? {
      return Panic(pass2.message);
    }
    if pass2.err.Some? {
      return Err(pass2.err.value);
    }
    return Ok(pass2.text);
  }

  // ----- what a pass does, stated against the regex's own matches -----

  function Replacements(calls: seq<Call>): (rs: seq<string>)
    ensures |rs| == |calls| && forall i :: 0 <= i < |calls| ==> rs[i] == Replacement(calls[i].step.outcome)
  {
    seq(|calls|, i requires 0 <= i < |calls| => Replacement(calls[i].step.outcome))
  }

  /** Matches that lie in order in s from index p, without overlapping. */
  ghost predicate Chain(s: string, p: nat, ms: seq<Match>)
    decreases |ms|
  {
    ms == [] || (p <= ms[0].start <= ms[0].end <= |s| && Chain(s, ms[0].end, ms[1..]))
  }

  /** s from p, with each match of ms replaced by the string of reps at the
      same position and everything else copied. */
  function Splice(s: string, p: nat, ms: seq<Match>, reps: seq<string>): string
    requires p <= |s| && Chain(s, p, ms) && |reps| == |ms|
    decreases |ms|
  {
    if ms == [] then s[p..]
    else s[p..ms[0].start] + reps[0] + Splice(s, ms[0].end, ms[1..], reps[1..])
  }

  lemma {:induction false} AllMatchesChain(s: string, p: nat, mode: Mode)
    requires p <= |s|
    ensures Chain(s, p, AllMatches(s, p, mode))
    decreases |s| - p
  {
    var r := FindFrom(s, p, mode);
    if r.Some? {
      AllMatchesChain(s, r.value.end, mode);
      assert AllMatches(s, p, mode)[1..] == AllMatches(s, r.value.end, mode);
    }
  }

  /** `err` at the end of a pass that made these calls. */
  function LastError(calls: seq<Call>): Option<Error>
  {
    if calls == [] then None else Latest(ErrorOf(calls[0].step.outcome), LastError(calls[1..]))
  }

  ghost predicate NoPanic(calls: seq<Call>)
  {
    forall i :: 0 <= i < |calls| ==> !calls[i].step.outcome.Panic?
  }

  ghost predicate AllOk(calls: seq<Call>)
  {
    forall i :: 0 <= i < |calls| ==> calls[i].step.outcome.Ok?
  }

  /** The calls were made on the first |calls| of the matches ms, in order. */
  ghost predicate OnMatches(calls: seq<Call>, ms: seq<Match>)
  {
    |calls| <= |ms| && forall i :: 0 <= i < |calls| ==> calls[i].m == ms[i]
  }

  /** A completed scan met no panic; an aborted one stopped at its first
      panic, which is its last call and gives its message. */
  ghost predicate StopsAtPanic(sc: Scan)
  {
    && (sc.Completed? ==> NoPanic(sc.calls))
    && (sc.Aborted? ==> && sc.calls != []
                        && (forall i :: 0 <= i < |sc.calls| - 1 ==> !sc.calls[i].step.outcome.Panic?)
                        && sc.calls[|sc.calls| - 1].step.outcome == Panic(sc.message))
  }

  /** A pass calls its closure on the matches the regex reports, in order:
      on all of them when it completes. */
  lemma {:induction false} PassVisitsMatches(s: string, p: nat, mode: Mode, run: Runner, h: seq<Invocation>)
    requires p <= |s|
    ensures OnMatches(ReplaceFrom(s, p, mode, run, h).calls, AllMatches(s, p, mode))
    ensures ReplaceFrom(s, p, mode, run, h).Completed? ==>
              |ReplaceFrom(s, p, mode, run, h).calls| == |AllMatches(s, p, mode)|
    decreases |s| - p
  {
    match FindFrom(s, p, mode)
    case None =>
    case Some(m) =>
      var st := run(s[m.capStart..m.capEnd], h);
      if !st.outcome.Panic? {
        var h' := h + Spawned(st);
        var rest := ReplaceFrom(s, m.end, mode, run, h');
        PassVisitsMatches(s, m.end, mode, run, h');
        OnMatchesCons(Call(m, st), rest.calls, AllMatches(s, m.end, mode));
      }
  }

  lemma OnMatchesCons(call: Call, calls: seq<Call>, ms: seq<Match>)
    requires OnMatches(calls, ms)
    ensures OnMatches([call] + calls, [call.m] + ms)
  {
    assert forall i :: 0 < i < |calls| + 1 ==> ([call] + calls)[i] == calls[i - 1] && ([call.m] + ms)[i] == ms[i - 1];
  }

  /** A completed pass met no panic; an aborted one stopped at the first. */
  lemma {:induction false} PassStopsAtPanic(s: string, p: nat, mode: Mode, run: Runner, h: seq<Invocation>)
    requires p <= |s|
    ensures StopsAtPanic(ReplaceFrom(s, p, mode, run, h))
    decreases |s| - p
  {
    match FindFrom(s, p, mode)
    case None =>
    case Some(m) =>
      var st := run(s[m.capStart..m.capEnd], h);
      if !st.outcome.Panic? {
        var h' := h + Spawned(st);
        PassStopsAtPanic(s, m.end, mode, run, h');
        PrependStopsAtPanic(s[p..m.start] + Replacement(st.outcome), ErrorOf(st.outcome), Call(m, st),
                            ReplaceFrom(s, m.end, mode, run, h'));
      }
  }

  lemma PrependStopsAtPanic(piece: string, err: Option<Error>, call: Call, rest: Scan)
    requires StopsAtPanic(rest) && !call.step.outcome.Panic?
    ensures StopsAtPanic(Prepend(piece, err, call, rest))
  {
    var sc := Prepend(piece, err, call, rest);
    assert forall i :: 0 < i < |sc.calls| ==> sc.calls[i] == rest.calls[i - 1];
  }

  /** Call i got the capture of its match and the launches made before it. */
  ghost predicate CalledAt(s: string, run: Runner, h: seq<Invocation>, calls: seq<Call>, i: nat)
    requires i < |calls|
  {
    && calls[i].m.capStart <= calls[i].m.capEnd <= |s|
    && calls[i].step == run(s[calls[i].m.capStart..calls[i].m.capEnd], h + Launches(calls[..i]))
  }

  ghost predicate CallsInOrder(s: string, run: Runner, h: seq<Invocation>, calls: seq<Call>)
  {
    forall i :: 0 <= i < |calls| ==> CalledAt(s, run, h, calls, i)
  }

  lemma {:induction false} PassCallsInOrder(s: string, p: nat, mode: Mode, run: Runner, h: seq<Invocation>)
    requires p <= |s|
    ensures CallsInOrder(s, run, h, ReplaceFrom(s, p, mode, run, h).calls)
    decreases |s| - p
  {
    match FindFrom(s, p, mode)
    case None =>
    case Some(m) =>
      var st := run(s[m.capStart..m.capEnd], h);
      var call := Call(m, st);
      if st.outcome.Panic? {
        CallsInOrderCons(s, run, h, call, []);
        assert [call] + [] == [call];
      } else {
        var h' := h + Spawned(st);
        var rest := ReplaceFrom(s, m.end, mode, run, h');
        PassCallsInOrder(s, m.end, mode, run, h');
        CallsInOrderCons(s, run, h, call, rest.calls);
      }
  }

  lemma CallsInOrderCons(s: string, run: Runner, h: seq<Invocation>, call: Call, calls: seq<Call>)
    requires call.m.capStart <= call.m.capEnd <= |s|
    requires call.step == run(s[call.m.capStart..call.m.capEnd], h)
    requires CallsInOrder(s, run, h + Spawned(call.step), calls)
    ensures CallsInOrder(s, run, h, [call] + calls)
  {
    var all := [call] + calls;
    assert all[..0] == [] && Launches([]) == [];
    assert h + Launches(all[..0]) == h;
    assert CalledAt(s, run, h, all, 0);
    forall i | 0 < i < |all| ensures CalledAt(s, run, h, all, i) {
      CalledAtCons(s, run, h, call, calls, i);
    }
  }

  lemma CalledAtCons(s: string, run: Runner, h: seq<Invocation>, call: Call, calls: seq<Call>, i: nat)
    requires 0 < i <= |calls|
    requires CalledAt(s, run, h + Spawned(call.step), calls, i - 1)
    ensures CalledAt(s, run, h, [call] + calls, i)
  {
    LaunchesCons(call, calls, i);
    assert ([call] + calls)[i] == calls[i - 1];
    assert h + Launches(([call] + calls)[..i]) == h + Spawned(call.step) + Launches(calls[..i - 1]);
  }

  /** The launches before call i of [call] + calls. */
  lemma LaunchesCons(call: Call, calls: seq<Call>, i: nat)
    requires 0 < i <= |calls| + 1
    ensures Launches(([call] + calls)[..i]) == Spawned(call.step) + Launches(calls[..i - 1])
  {
    assert ([call] + calls)[..i] == [call] + calls[..i - 1];
    LaunchesAppend([call], calls[..i - 1]);
    assert [call][..0] == [];
  }

  /** sc is s from p with every match of `mode` replaced by its call's
      output (nothing for a failed call), and all else copied. */
  ghost predicate IsSplice(s: string, p: nat, mode: Mode, sc: Scan)
    requires p <= |s|
  {
    && sc.Completed? && Chain(s, p, AllMatches(s, p, mode))
    && |sc.calls| == |AllMatches(s, p, mode)|
    && sc.text == Splice(s, p, AllMatches(s, p, mode), Replacements(sc.calls))
  }

  /** A completed pass is the splice of its calls' outputs into the input,
      and its `err` is the error last stored. */
  lemma {:induction false} PassSplices(s: string, p: nat, mode: Mode, run: Runner, h: seq<Invocation>)
    requires p <= |s|
    requires ReplaceFrom(s, p, mode, run, h).Completed?
    ensures IsSplice(s, p, mode, ReplaceFrom(s, p, mode, run, h))
    ensures ReplaceFrom(s, p, mode, run, h).err == LastError(ReplaceFrom(s, p, mode, run, h).calls)
    decreases |s| - p
  {
    AllMatchesChain(s, p, mode);
    match FindFrom(s, p, mode)
    case None =>
    case Some(m) =>
      var sc := ReplaceFrom(s, p, mode, run, h);
      var ms := AllMatches(s, p, mode);
      var st := run(s[m.capStart..m.capEnd], h);
      var h' := h + Spawned(st);
      var rest := ReplaceFrom(s, m.end, mode, run, h');
      PassSplices(s, m.end, mode, run, h');
      assert ms[1..] == AllMatches(s, m.end, mode);
      assert sc.calls == [Call(m, st)] + rest.calls;
      assert sc.calls[1..] == rest.calls;
      assert Replacements(sc.calls)[1..] == Replacements(rest.calls);
  }

  lemma {:induction false} LaunchesAppend(a: seq<Call>, b: seq<Call>)
    ensures Launches(a + b) == Launches(a) + Launches(b)
    decreases |b|
  {
    if b == [] {
      assert a + b == a;
    } else {
      var b' := b[..|b| - 1];
      assert (a + b)[..|a + b| - 1] == a + b';
      LaunchesAppend(a, b');
    }
  }

  /** The stored error is the error of the last call that failed. */
  lemma {:induction false} LastErrorIsLast(calls: seq<Call>)
    ensures LastError(calls).None? <==> forall i :: 0 <= i < |calls| ==> !calls[i].step.outcome.Err?
    ensures LastError(calls).Some? ==> exists i :: 0 <= i < |calls| && calls[i].step.outcome == Err(LastError(calls).value)
                                         && forall j :: i < j < |calls| ==> !calls[j].step.outcome.Err?
  {
    if calls != [] {
      LastErrorIsLast(calls[1..]);
      var rest := calls[1..];
      assert forall i :: 1 <= i < |calls| ==> calls[i] == rest[i - 1];
      if LastError(rest).Some? {
        var i :| 0 <= i < |rest| && rest[i].step.outcome == Err(LastError(rest).value)
                 && forall j :: i < j < |rest| ==> !rest[j].step.outcome.Err?;
        assert calls[i + 1] == rest[i];
      }
    }
  }

  lemma {:induction false} LastErrorAppend(a: seq<Call>, b: seq<Call>)
    ensures LastError(a + b) == Latest(LastError(a), LastError(b))
  {
    if a == [] {
      assert a + b == b;
    } else {
      assert (a + b)[0] == a[0] && (a + b)[1..] == a[1..] + b;
      LastErrorAppend(a[1..], b);
    }
  }

  // ----- the transform as a whole -----

  /** Text without a directive marker is returned unchanged, and no command
      is run. */
  lemma NoMarkerIsIdentity(content: string, wd: string, ctx: Context)
    requires NoMatchFrom(content, 0, Inline)
    ensures Substituted(content, wd, ctx) == Run(Ok(content), [])
  {
    FindFromIsLeftmost(content, 0, Inline);
    NoInlineMatchNoLineMatch(content, 0);
    FindFromIsLeftmost(content, 0, LineConsuming);
    assert content[0..] == content;
  }

  /** An error in pass 1 is the result, and pass 2 runs no command. */
  lemma PassOneErrorStops(content: string, wd: string, ctx: Context)
    requires FirstPass(content, wd, ctx).Completed? && FirstPass(content, wd, ctx).err.Some?
    ensures Substituted(content, wd, ctx)
         == Run(Err(FirstPass(content, wd, ctx).err.value), FirstPass(content, wd, ctx).calls)
  {
  }

  /** The transform succeeds exactly when every call it made succeeded; a
      failure yields the error of the last failing call, and a panic is the
      panic of the last call. */
  lemma OkIffEveryCallOk(content: string, wd: string, ctx: Context)
    ensures Substituted(content, wd, ctx).result.Ok? <==> AllOk(Substituted(content, wd, ctx).calls)
    ensures Substituted(content, wd, ctx).result.Err? ==>
              LastError(Substituted(content, wd, ctx).calls) == Some(Substituted(content, wd, ctx).result.error)
    ensures Substituted(content, wd, ctx).result.Panic? ==>
              && Substituted(content, wd, ctx).calls != []
              && Substituted(content, wd, ctx).calls[|Substituted(content, wd, ctx).calls| - 1].step.outcome
                 == Substituted(content, wd, ctx).result
  {
    var run := Substituted(content, wd, ctx);
    var p1 := FirstPass(content, wd, ctx);
    PassStopsAtPanic(content, 0, LineConsuming, Closure(wd, LineConsuming, ctx), []);
    if p1.Completed? {
      PassSplices(content, 0, LineConsuming, Closure(wd, LineConsuming, ctx), []);
      LastErrorIsLast(p1.calls);
      if p1.err.None? {
        var p2 := SecondPass(p1.text, wd, ctx, Launches(p1.calls));
        PassStopsAtPanic(p1.text, 0, Inline, Closure(wd, Inline, ctx), Launches(p1.calls));
        if p2.Completed? {
          PassSplices(p1.text, 0, Inline, Closure(wd, Inline, ctx), Launches(p1.calls));
        }
        CompletedFirstPass(p1.calls, p2);
      }
    }
  }

  /** After a pass 1 that met no error and no panic, the run is decided by
      pass 2 as OkIffEveryCallOk states. */
  lemma CompletedFirstPass(cs: seq<Call>, p2: Scan)
    requires AllOk(cs) && LastError(cs).None?
    requires StopsAtPanic(p2) && (p2.Completed? ==> p2.err == LastError(p2.calls))
    ensures p2.Completed? && p2.err.None? <==> AllOk(cs + p2.calls)
    ensures p2.Completed? && p2.err.Some? ==> LastError(cs + p2.calls) == p2.err
    ensures p2.Aborted? ==> |cs + p2.calls| > 0 && (cs + p2.calls)[|cs + p2.calls| - 1].step.outcome == Panic(p2.message)
  {
    var calls := cs + p2.calls;
    LastErrorIsLast(p2.calls);
    LastErrorAppend(cs, p2.calls);
    assert forall i :: 0 <= i < |p2.calls| ==> calls[|cs| + i] == p2.calls[i];
    assert forall i :: 0 <= i < |cs| ==> calls[i] == cs[i];
  }

  /** On success, pass 1 replaced each line-consuming marker (with its line
      terminator) by its line-mode output, and pass 2 replaced each inline
      marker of that text by its inline output; all other text is copied. */
  lemma SuccessIsTwoSplices(content: string, wd: string, ctx: Context)
    requires Substituted(content, wd, ctx).result.Ok?
    ensures IsSplice(content, 0, LineConsuming, FirstPass(content, wd, ctx))
    ensures IsSplice(FirstPass(content, wd, ctx).text, 0, Inline,
                     SecondPass(FirstPass(content, wd, ctx).text, wd, ctx, Launches(FirstPass(content, wd, ctx).calls)))
    ensures Substituted(content, wd, ctx).result
         == Ok(SecondPass(FirstPass(content, wd, ctx).text, wd, ctx, Launches(FirstPass(content, wd, ctx).calls)).text)
  {
    var p1 := FirstPass(content, wd, ctx);
    PassSplices(content, 0, LineConsuming, Closure(wd, LineConsuming, ctx), []);
    PassSplices(p1.text, 0, Inline, Closure(wd, Inline, ctx), Launches(p1.calls));
  }
}
