/** Shared vocabulary: Go's `(T, error)` returns and the "stop at the first
    failing step" shape that every engine of the resource follows. */
module Common {

  /** A Go `error`: the message text, which callers compare and search. */
  type Error = string

  datatype Option<+T> = None | Some(value: T)

  datatype Result<+T> = Ok(value: T) | Err(error: Error)

  /** Index of the first step whose effect fails, or `|steps|` when none does.
      A sequence of Go statements that each `return err` on failure performs
      exactly the steps up to and including this one. */
  function FirstFailure<T>(steps: seq<T>, fails: T -> Option<Error>): (k: nat)
    ensures k <= |steps|
    ensures forall j :: 0 <= j < k ==> fails(steps[j]).None?
    ensures k < |steps| ==> fails(steps[k]).Some?
  {
    if steps == [] then 0
    else if fails(steps[0]).Some? then 0
    else 1 + FirstFailure(steps[1..], fails)
  }

  /** The steps actually attempted: all of them, or up to the failing one. */
  function Attempted<T>(steps: seq<T>, fails: T -> Option<Error>): (done: seq<T>)
    ensures done <= steps
    ensures forall j :: 0 <= j < |done| - 1 ==> fails(done[j]).None?
    ensures done != steps ==> done != [] && fails(done[|done| - 1]).Some?
  {
    var k := FirstFailure(steps, fails);
    if k < |steps| then steps[..k + 1] else steps
  }

  /** The error the sequence returns: that of the first failing step. */
  function Outcome<T>(steps: seq<T>, fails: T -> Option<Error>): (err: Option<Error>)
    ensures err.None? <==> forall j :: 0 <= j < |steps| ==> fails(steps[j]).None?
  {
    var k := FirstFailure(steps, fails);
    if k < |steps| then fails(steps[k]) else None
  }

  /** A sequence whose first failure is step `k` performs steps 0..k and
      returns the error of step `k`. */
  lemma StopsAt<T>(steps: seq<T>, fails: T -> Option<Error>, k: nat)
    requires k < |steps| && fails(steps[k]).Some?
    requires forall j :: 0 <= j < k ==> fails(steps[j]).None?
    ensures Attempted(steps, fails) == steps[..k + 1]
    ensures Outcome(steps, fails) == fails(steps[k])
  {
    assert FirstFailure(steps, fails) == k;
  }

  /** Steps that all succeed do not change what follows them. */
  lemma AttemptedAfter<T>(done: seq<T>, rest: seq<T>, fails: T -> Option<Error>)
    requires forall j :: 0 <= j < |done| ==> fails(done[j]).None?
    ensures Attempted(done + rest, fails) == done + Attempted(rest, fails)
    ensures Outcome(done + rest, fails) == Outcome(rest, fails)
  {
    var all := done + rest;
    var k := FirstFailure(rest, fails);
    assert forall j :: |done| <= j < |done| + k ==> all[j] == rest[j - |done|];
    assert FirstFailure(all, fails) == |done| + k by {
      assert forall j :: 0 <= j < |done| + k ==> fails(all[j]).None?;
      assert |done| + k < |all| ==> all[|done| + k] == rest[k];
    }
    if k < |rest| {
      assert all[..|done| + k + 1] == done + rest[..k + 1];
      assert all[|done| + k] == rest[k];
    }
  }
}

/** The parts of Go's `strings` package the engines use. */
module Strings {

  predicate HasSuffix(s: string, suffix: string) {
    |suffix| <= |s| && s[|s| - |suffix|..] == suffix
  }

  /** `strings.TrimSuffix`: drop `suffix` once if `s` ends with it. */
  function TrimSuffix(s: string, suffix: string): (r: string)
    ensures HasSuffix(s, suffix) ==> r + suffix == s
    ensures !HasSuffix(s, suffix) ==> r == s
  {
    if HasSuffix(s, suffix) then s[..|s| - |suffix|] else s
  }

  predicate OccursAt(s: string, sub: string, i: nat) {
    i + |sub| <= |s| && s[i..i + |sub|] == sub
  }

  /** `strings.Contains`. */
  predicate Contains(s: string, sub: string)
    ensures Contains(s, sub) ==> |sub| <= |s|
    ensures |sub| <= |s| && s[..|sub|] == sub ==> Contains(s, sub)
    ensures |sub| <= |s| && s[|s| - |sub|..] == sub ==> Contains(s, sub)
  {
    if |sub| <= |s| && s[..|sub|] == sub then
      assert OccursAt(s, sub, 0);
      true
    else if |sub| <= |s| && s[|s| - |sub|..] == sub then
      assert OccursAt(s, sub, |s| - |sub|);
      true
    else
      exists i :: 0 <= i <= |s| - |sub| && OccursAt(s, sub, i)
  }
}
