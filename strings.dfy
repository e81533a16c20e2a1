/**
 * The string primitives the core relies on, with the semantics of the
 * JavaScript and Python library calls they stand for:
 *  - `Find`        String.prototype.indexOf / str.find (first occurrence)
 *  - `ReplaceFirst` String.prototype.replace with a string pattern (first
 *                  occurrence only, literal replacement)
 *  - `ReplaceAll`  str.replace in Python (every non-overlapping occurrence,
 *                  left to right)
 *  - `NatToString` decimal rendering of a counter (`${count}`, f"{n}")
 *  - `Join`, `Split` Array.prototype.join / str.split with a separator
 * and `NoDuplicates`, the distinctness of a list's elements.
 */
module Strings {
  import opened Wrappers

  /** `x` occurs in `s` starting at index `i`. */
  predicate OccursAt(s: string, x: string, i: nat) {
    i + |x| <= |s| && s[i..i + |x|] == x
  }

  /** `x` is a contiguous substring of `s`. */
  predicate IsInfix(x: string, s: string) {
    exists i: nat | i <= |s| :: OccursAt(s, x, i)
  }

  /** Index of the first occurrence of `x` in `s`. */
  function Find(s: string, x: string): (r: Option<nat>)
    ensures r.Some? ==> OccursAt(s, x, r.value)
    ensures r.Some? ==> forall j: nat :: j < r.value ==> !OccursAt(s, x, j)
    ensures r.None? ==> forall j: nat :: !OccursAt(s, x, j)
    decreases |s|
  {
    if |s| < |x| then None
    else if s[..|x|] == x then Some(0)
    else
      var rest := Find(s[1..], x);
      forall j: nat ensures OccursAt(s, x, j + 1) <==> OccursAt(s[1..], x, j) {
        if j + 1 + |x| <= |s| {
          assert s[1..][j..j + |x|] == s[j + 1..j + 1 + |x|];
        }
      }
      assert forall j: nat :: OccursAt(s, x, j) ==> j == 0 || OccursAt(s[1..], x, j - 1);
      match rest
      case None => None
      case Some(i) => Some(i + 1)
  }

  /** JavaScript `s.replace(x, y)` with a string pattern and a replacement free of
      `$` patterns: the first occurrence of `x`, scanning left to right, becomes `y`. */
  function ReplaceFirst(s: string, x: string, y: string): string
    decreases |s|
  {
    if |s| < |x| then s
    else if s[..|x|] == x then y + s[|x|..]
    else [s[0]] + ReplaceFirst(s[1..], x, y)
  }

  /** Python `s.replace(x, y)`: every non-overlapping occurrence, scanning left to right;
      an empty `x` inserts `y` before every character and at the end. */
  function ReplaceAll(s: string, x: string, y: string): string
    decreases |s|
  {
    if |x| == 0 then Interleave(s, y)
    else if |s| < |x| then s
    else if s[..|x|] == x then y + ReplaceAll(s[|x|..], x, y)
    else [s[0]] + ReplaceAll(s[1..], x, y)
  }

  /** `y` before every character of `s` and once more at the end. */
  function Interleave(s: string, y: string): string
    decreases |s|
  {
    if s == [] then y else y + [s[0]] + Interleave(s[1..], y)
  }

  lemma OccursShift(a: string, b: string, x: string, j: nat)
    ensures OccursAt(a + b, x, |a| + j) <==> OccursAt(b, x, j)
  {
    if |a| + j + |x| <= |a + b| {
      assert (a + b)[|a| + j..|a| + j + |x|] == b[j..j + |x|];
    }
  }

  /** A position is the first occurrence as soon as it is one and nothing earlier is. */
  lemma FindIs(s: string, x: string, i: nat)
    requires OccursAt(s, x, i)
    requires forall j: nat :: j < i ==> !OccursAt(s, x, j)
    ensures Find(s, x) == Some(i)
  {
  }

  /** `ReplaceFirst` agrees with the reference definition through `Find`: the text before
      the first occurrence, then `y`, then the text after it; no occurrence, no change. */
  lemma {:induction false} ReplaceFirstSpec(s: string, x: string, y: string)
    ensures Find(s, x).None? ==> ReplaceFirst(s, x, y) == s
    ensures Find(s, x).Some? ==>
      var i := Find(s, x).value;
      ReplaceFirst(s, x, y) == s[..i] + y + s[i + |x|..]
    decreases |s|
  {
    if |s| < |x| {
    } else if s[..|x|] == x {
      assert s[..0] + y + s[|x|..] == y + s[|x|..];
    } else {
      var t := s[1..];
      assert s == [s[0]] + t;
      ReplaceFirstSkip(s[0], t, x, y);
      ReplaceFirstSpec(t, x, y);
      FindStep(s, x);
      var f := Find(t, x);
      if f.Some? {
        ShiftReplaced(s[0], t, f.value, |x|, y);
      }
    }
  }

  /** A character in front of a text with a piece cut out at `i`. */
  lemma ShiftReplaced(c: char, t: string, i: nat, n: nat, y: string)
    requires i + n <= |t|
    ensures [c] + (t[..i] + y + t[i + n..]) == ([c] + t)[..i + 1] + y + ([c] + t)[i + 1 + n..]
  {
    var s := [c] + t;
    assert s[..i + 1] == [c] + t[..i];
    assert s[i + 1 + n..] == t[i + n..];
  }

  lemma FindStep(s: string, x: string)
    requires |s| >= |x| && s[..|x|] != x
    ensures Find(s[1..], x).None? ==> Find(s, x).None?
    ensures Find(s[1..], x).Some? ==> Find(s, x) == Some(Find(s[1..], x).value + 1)
  {
  }

  /** No occurrence may start inside `a`: replacement in `a + b` happens in `b`. */
  lemma {:induction false} ReplaceFirstAfter(a: string, b: string, x: string, y: string)
    requires forall j: nat :: j < |a| ==> !OccursAt(a + b, x, j)
    ensures ReplaceFirst(a + b, x, y) == a + ReplaceFirst(b, x, y)
    decreases |a|
  {
    if a == [] {
      assert a + b == b;
    } else {
      var t := a[1..] + b;
      assert a + b == [a[0]] + t;
      forall j: nat | j < |a| - 1 ensures !OccursAt(t, x, j) {
        OccursShift([a[0]], t, x, j);
      }
      ReplaceFirstAfter(a[1..], b, x, y);
      ReplaceFirstSkip(a[0], t, x, y);
    }
  }

  /** A character where no occurrence starts is copied unchanged. */
  lemma ReplaceFirstSkip(c: char, t: string, x: string, y: string)
    requires !OccursAt([c] + t, x, 0)
    ensures ReplaceFirst([c] + t, x, y) == [c] + ReplaceFirst(t, x, y)
  {
    var s := [c] + t;
    assert s[1..] == t;
    if |s| >= |x| {
      assert s[..|x|] != x by { assert s[0..|x|] == s[..|x|]; }
    }
  }

  lemma ReplaceFirstAtStart(x: string, b: string, y: string)
    ensures ReplaceFirst(x + b, x, y) == y + b
  {
    assert (x + b)[..|x|] == x;
    assert (x + b)[|x|..] == b;
  }

  /** The same for every-occurrence replacement. */
  lemma {:induction false} ReplaceAllAfter(a: string, b: string, x: string, y: string)
    requires |x| > 0
    requires forall j: nat :: j < |a| ==> !OccursAt(a + b, x, j)
    ensures ReplaceAll(a + b, x, y) == a + ReplaceAll(b, x, y)
    decreases |a|
  {
    if a == [] {
      assert a + b == b;
    } else {
      var t := a[1..] + b;
      assert a + b == [a[0]] + t;
      forall j: nat | j < |a| - 1 ensures !OccursAt(t, x, j) {
        OccursShift([a[0]], t, x, j);
      }
      ReplaceAllAfter(a[1..], b, x, y);
      ReplaceAllSkip(a[0], t, x, y);
    }
  }

  /** A character where no occurrence starts is copied unchanged. */
  lemma ReplaceAllSkip(c: char, t: string, x: string, y: string)
    requires |x| > 0
    requires !OccursAt([c] + t, x, 0)
    ensures ReplaceAll([c] + t, x, y) == [c] + ReplaceAll(t, x, y)
  {
    var s := [c] + t;
    assert s[1..] == t;
    if |s| >= |x| {
      assert s[..|x|] != x by { assert s[0..|x|] == s[..|x|]; }
    }
  }

  lemma ReplaceAllAtStart(x: string, b: string, y: string)
    requires |x| > 0
    ensures ReplaceAll(x + b, x, y) == y + ReplaceAll(b, x, y)
  {
    assert (x + b)[..|x|] == x;
    assert (x + b)[|x|..] == b;
  }

  // ---------------------------------------------------------------------
  // Decimal rendering of counters

  function DigitChar(d: nat): (c: char)
    requires d < 10
    ensures '0' <= c <= '9'
  {
    ('0' as int + d) as char
  }

  /** Decimal digits of `n`, most significant first, no leading zero. */
  function NatToString(n: nat): (r: string)
    ensures 1 <= |r|
    ensures forall i :: 0 <= i < |r| ==> '0' <= r[i] <= '9'
    ensures n < 10 <==> |r| == 1
    decreases n
  {
    if n < 10 then [DigitChar(n)] else NatToString(n / 10) + [DigitChar(n % 10)]
  }

  /** Distinct counters render as distinct decimal strings. */
  lemma {:induction false} NatToStringInjective(n: nat, k: nat)
    requires NatToString(n) == NatToString(k)
    ensures n == k
    decreases n
  {
    var s := NatToString(n);
    assert DigitChar(n % 10) == s[|s| - 1] == DigitChar(k % 10);
    if n >= 10 && k >= 10 {
      assert NatToString(n / 10) == s[..|s| - 1] == NatToString(k / 10);
      NatToStringInjective(n / 10, k / 10);
    }
  }

  // ---------------------------------------------------------------------
  // Join and Split

  /** `parts` joined with `sep` between consecutive parts (Array.prototype.join). */
  function Join(parts: seq<string>, sep: string): string
    decreases |parts|
  {
    if |parts| == 0 then ""
    else if |parts| == 1 then parts[0]
    else parts[0] + sep + Join(parts[1..], sep)
  }

  /** Python `s.split(c)` for a one-character separator: the pieces between separators,
      empty pieces included; always at least one piece. */
  function Split(s: string, c: char): (r: seq<string>)
    ensures |r| >= 1
    ensures forall i :: 0 <= i < |r| ==> c !in r[i]
    ensures Join(r, [c]) == s
    decreases |s|
  {
    match Find(s, [c])
    case None =>
      assert forall i :: 0 <= i < |s| ==> s[i] != c by {
        forall i: nat | i < |s| ensures s[i] != c {
          assert s[i] == c ==> OccursAt(s, [c], i);
        }
      }
      [s]
    case Some(i) =>
      var head := s[..i];
      assert forall k :: 0 <= k < i ==> head[k] != c by {
        forall k: nat | k < i ensures head[k] != c {
          assert head[k] == c ==> OccursAt(s, [c], k);
        }
      }
      var rest := Split(s[i + 1..], c);
      assert s == head + [c] + s[i + 1..];
      [head] + rest
  }

  /** No element occurs twice. */
  predicate NoDuplicates<T(==)>(xs: seq<T>) {
    forall i, j | 0 <= i < j < |xs| :: xs[i] != xs[j]
  }
}
