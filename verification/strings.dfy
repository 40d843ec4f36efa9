/**
 The pieces of java.lang.String behaviour the dictionary relies on: literal
 replacement, suffix tests and the line terminators that a regex `.` refuses.
 */
module Strings {

  /** `target` occurs in `s` starting at index `i`. */
  predicate OccursAt(s: string, target: string, i: int) {
    0 <= i && i + |target| <= |s| && s[i..i + |target|] == target
  }

  /**
   String.replace(target, rep) for a non-empty target: scan left to right and
   replace each non-overlapping occurrence. With the targets used here ("%@",
   "%d") and replacements free of `$` and `\`, String.replaceAll behaves the
   same, so both calls are modelled by this one function.
   */
  function ReplaceAll(s: string, target: string, rep: string): string
    requires |target| > 0
    decreases |s|
  {
    if |target| <= |s| && s[..|target|] == target then
      rep + ReplaceAll(s[|target|..], target, rep)
    else if s == [] then
      []
    else
      [s[0]] + ReplaceAll(s[1..], target, rep)
  }

  /** Replacing a target that never occurs leaves the string unchanged. */
  lemma {:induction false} ReplaceAllAbsent(s: string, target: string, rep: string)
    requires |target| > 0
    requires forall i :: !OccursAt(s, target, i)
    ensures ReplaceAll(s, target, rep) == s
    decreases |s|
  {
    assert !OccursAt(s, target, 0);
    if s != [] {
      forall i
        ensures !OccursAt(s[1..], target, i)
      {
        if OccursAt(s[1..], target, i) {
          assert s[1..][i..i + |target|] == s[i + 1..i + 1 + |target|];
          assert OccursAt(s, target, i + 1);
        }
      }
      ReplaceAllAbsent(s[1..], target, rep);
    }
  }

  /** One step of replacement on `a + b` when `a` starts with the target. */
  lemma ReplaceAllConcatHit(a: string, b: string, target: string, rep: string)
    requires |target| == 2 && |a| >= 2 && a[..2] == target
    requires ReplaceAll(a[2..] + b, target, rep) == ReplaceAll(a[2..], target, rep) + ReplaceAll(b, target, rep)
    ensures ReplaceAll(a + b, target, rep) == ReplaceAll(a, target, rep) + ReplaceAll(b, target, rep)
  {
    var ab := a + b;
    assert ab[..2] == a[..2];
    assert ab[2..] == a[2..] + b;
  }

  /** One step of replacement on `a + b` when `a` has two or more characters and does not start with the target. */
  lemma ReplaceAllConcatMiss(a: string, b: string, target: string, rep: string)
    requires |target| == 2 && |a| >= 2 && a[..2] != target
    requires ReplaceAll(a[1..] + b, target, rep) == ReplaceAll(a[1..], target, rep) + ReplaceAll(b, target, rep)
    ensures ReplaceAll(a + b, target, rep) == ReplaceAll(a, target, rep) + ReplaceAll(b, target, rep)
  {
    var ab := a + b;
    assert ab[..2] == a[..2];
    assert ab[1..] == a[1..] + b;
  }

  /** Replacement on `[c] + b` when `c` cannot start an occurrence reaching into `b`. */
  lemma ReplaceAllConcatSingle(a: string, b: string, target: string, rep: string)
    requires |target| == 2 && |a| == 1
    requires !(|b| > 0 && a[0] == target[0] && b[0] == target[1])
    ensures ReplaceAll(a + b, target, rep) == ReplaceAll(a, target, rep) + ReplaceAll(b, target, rep)
  {
    var ab := a + b;
    assert ab[1..] == b;
    if |b| > 0 {
      assert ab[..2] != target by {
        assert ab[0] == a[0] && ab[1] == b[0];
      }
    }
    assert ReplaceAll(a[1..], target, rep) == [];
  }

  /**
   For a two-character target, replacement distributes over concatenation
   unless an occurrence straddles the seam.
   */
  lemma {:induction false} ReplaceAllConcat(a: string, b: string, target: string, rep: string)
    requires |target| == 2
    requires !(|a| > 0 && |b| > 0 && a[|a| - 1] == target[0] && b[0] == target[1])
    ensures ReplaceAll(a + b, target, rep) == ReplaceAll(a, target, rep) + ReplaceAll(b, target, rep)
    decreases |a|
  {
    if a == [] {
      assert a + b == b;
    } else if |a| == 1 {
      ReplaceAllConcatSingle(a, b, target, rep);
    } else if a[..2] == target {
      ReplaceAllConcat(a[2..], b, target, rep);
      ReplaceAllConcatHit(a, b, target, rep);
    } else {
      ReplaceAllConcat(a[1..], b, target, rep);
      ReplaceAllConcatMiss(a, b, target, rep);
    }
  }

  /** The first character of a replacement result: either the start of `rep` or `s[0]`. */
  lemma ReplaceAllHead(s: string, target: string, rep: string)
    requires |target| > 0 && |rep| > 0 && s != []
    ensures var r := ReplaceAll(s, target, rep);
      |r| > 0 && r[0] == (if OccursAt(s, target, 0) then rep[0] else s[0])
  {
  }

  predicate EndsWith(s: string, suffix: string) {
    |suffix| <= |s| && s[|s| - |suffix|..] == suffix
  }

  /** The line terminators of java.util.regex, which `.` does not match. */
  predicate IsLineTerminator(c: char) {
    c == '\n' || c == '\r' || c == '\U{0085}' || c == '\U{2028}' || c == '\U{2029}'
  }

  predicate NoLineTerminator(s: string) {
    forall i :: 0 <= i < |s| ==> !IsLineTerminator(s[i])
  }
}
