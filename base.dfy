/** Shared vocabulary of the cmdrun model: the outcome of a fallible step,
    the fatal error classes, and small facts about strings. */
module Base {

  datatype Option<+T> = None | Some(value: T)

  /** The fatal failures of one directive. Each of them aborts the whole
      document transform; their human-readable messages are not modelled. */
  datatype Error =
    | SplitError      // shellwords::split rejected the directive text
    | ArgumentError   // the directive's words do not fit the cmdrun grammar
    | SpawnError      // the shell itself could not be started

  /** What a step yields: a value, a propagated error (`Err` through `?`),
      or a panic (an `expect` on `None`), which unwinds the whole process. */
  datatype Outcome<+T> = Ok(value: T) | Err(error: Error) | Panic(message: string)

  /** `part` occurs in `s` at index i. */
  predicate OccursAt(s: string, part: string, i: nat)
  {
    i + |part| <= |s| && s[i..i + |part|] == part
  }

  predicate StartsWith(s: string, prefix: string)
  {
    OccursAt(s, prefix, 0)
  }

  predicate EndsWith(s: string, suffix: string)
  {
    |suffix| <= |s| && OccursAt(s, suffix, |s| - |suffix|)
  }

  /** `part` occurs as a contiguous piece of `s`. */
  ghost predicate Contains(s: string, part: string)
  {
    exists i: nat :: OccursAt(s, part, i)
  }

  /** The pieces of ps written one after the other. */
  function Concat(ps: seq<string>): string
  {
    if ps == [] then [] else ps[0] + Concat(ps[1..])
  }

  /** Each piece of a concatenation occurs right after the pieces before it. */
  lemma {:induction false} ConcatShowsPiece(ps: seq<string>, k: nat)
    requires k < |ps|
    ensures OccursAt(Concat(ps), ps[k], |Concat(ps[..k])|)
  {
    var s := Concat(ps);
    if k == 0 {
      assert s[0..|ps[0]|] == ps[0];
      assert ps[..0] == [];
    } else {
      ConcatShowsPiece(ps[1..], k - 1);
      assert ps[..k][1..] == ps[1..][..k - 1];
      OccursAfter(ps[0], Concat(ps[1..]), ps[k], |Concat(ps[1..][..k - 1])|);
    }
  }

  lemma OccursAfter(x: string, y: string, part: string, i: nat)
    requires OccursAt(y, part, i)
    ensures OccursAt(x + y, part, |x| + i)
  {
    assert (x + y)[|x| + i..|x| + i + |part|] == y[i..i + |part|];
  }

  /** Rust's `char::is_whitespace`: the Unicode White_Space property. */
  predicate IsWhitespace(c: char)
  {
    var n := c as int;
    (0x9 <= n <= 0xD) || n == 0x20 || n == 0x85 || n == 0xA0 || n == 0x1680
    || (0x2000 <= n <= 0x200A) || n == 0x2028 || n == 0x2029 || n == 0x202F
    || n == 0x205F || n == 0x3000
  }

  predicate HasWhitespace(w: string)
  {
    exists i :: 0 <= i < |w| && IsWhitespace(w[i])
  }
}
