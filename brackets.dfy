/**
 * Placeholder tokens are bracketed (`[EMAIL_1]`), while a sanitized text
 * is ordinary text with such tokens spliced in. This module gives that
 * shape a name and a meaning:
 *  - a *segment* is `[`, a bracket-free body, `]`;
 *  - a *well-bracketed* string is plain characters and segments only;
 *  - `Decode(w, m)` replaces every segment `t` of `w` by `m[t]` (when `t`
 *    is a key of `m`) and keeps everything else.
 * Both placeholder engines keep `Decode(sanitized, map) == text` as their
 * invariant, and the round trips follow from it.
 */
module Brackets {
  import opened Strings

  predicate IsBracket(c: char) { c == '[' || c == ']' }

  predicate BracketFree(s: string) {
    forall i :: 0 <= i < |s| ==> !IsBracket(s[i])
  }

  predicate IsSegment(t: string) {
    2 <= |t| && t[0] == '[' && t[|t| - 1] == ']' && BracketFree(t[1..|t| - 1])
  }

  /** Index of the first bracket of `s`, or `|s|` when there is none. */
  function FirstBracket(s: string): (k: nat)
    ensures k <= |s|
    ensures BracketFree(s[..k])
    ensures k < |s| ==> IsBracket(s[k])
    decreases |s|
  {
    if s == [] || IsBracket(s[0]) then 0
    else
      var k := FirstBracket(s[1..]);
      assert s[..k + 1] == [s[0]] + s[1..][..k];
      k + 1
  }

  /** Length of the segment `w` starts with, or 0 when it does not start with one. */
  function SegLen(w: string): (n: nat)
    ensures n == 0 || (2 <= n <= |w| && IsSegment(w[..n]))
  {
    if |w| == 0 || w[0] != '[' then 0
    else
      var k := FirstBracket(w[1..]);
      if k < |w| - 1 && w[1 + k] == ']' then
        assert w[..k + 2][1..k + 1] == w[1..][..k];
        k + 2
      else 0
  }

  /** Plain characters and segments, with no stray bracket. */
  predicate WB(w: string)
    decreases |w|
  {
    if w == [] then true
    else if SegLen(w) > 0 then WB(w[SegLen(w)..])
    else !IsBracket(w[0]) && WB(w[1..])
  }

  /** What a segment decodes to under `m`. */
  function Look(t: string, m: map<string, string>): string {
    if t in m then m[t] else t
  }

  /** Every segment `t` replaced by `Look(t, m)`, everything else kept. */
  function Decode(w: string, m: map<string, string>): string
    decreases |w|
  {
    if w == [] then []
    else if SegLen(w) > 0 then Look(w[..SegLen(w)], m) + Decode(w[SegLen(w)..], m)
    else [w[0]] + Decode(w[1..], m)
  }

  /** The segments of `w`, left to right. */
  function Segments(w: string): seq<string>
    decreases |w|
  {
    if w == [] then []
    else if SegLen(w) > 0 then [w[..SegLen(w)]] + Segments(w[SegLen(w)..])
    else Segments(w[1..])
  }

  /** `x` ends inside a `[` that is not closed yet. */
  predicate Open(x: string)
    decreases |x|
  {
    |x| > 0 && x[|x| - 1] != ']' && (x[|x| - 1] == '[' || Open(x[..|x| - 1]))
  }

  /** Two maps decode every segment in `ts` the same way. */
  predicate Agree(ts: seq<string>, m: map<string, string>, m': map<string, string>) {
    forall t | t in ts :: Look(t, m) == Look(t, m')
  }

  /** `m` cut down to the given keys. */
  function Restrict(m: map<string, string>, keys: seq<string>): map<string, string> {
    map k | k in m && k in keys :: m[k]
  }

  // ---------------------------------------------------------------------
  // Parsing a prefix

  lemma {:induction false} FirstBracketOf(a: string, b: string)
    requires BracketFree(a) && |b| > 0 && IsBracket(b[0])
    ensures FirstBracket(a + b) == |a|
    decreases |a|
  {
    var w := a + b;
    if a == [] {
      assert w == b;
    } else {
      assert w[0] == a[0] && !IsBracket(w[0]);
      assert w[1..] == a[1..] + b;
      assert BracketFree(a[1..]) by {
        forall i | 0 <= i < |a| - 1 ensures !IsBracket(a[1..][i]) {
          assert a[1..][i] == a[i + 1];
        }
      }
      FirstBracketOf(a[1..], b);
      assert FirstBracket(w) == FirstBracket(w[1..]) + 1;
    }
  }

  lemma SegLenOf(t: string, r: string)
    requires IsSegment(t)
    ensures SegLen(t + r) == |t|
  {
    var body := t[1..|t| - 1];
    assert (t + r)[1..] == body + ([']'] + r);
    FirstBracketOf(body, [']'] + r);
  }

  /** A bracket-free prefix passes through decoding untouched and adds no segment. */
  lemma {:induction false} PlainPrefix(a: string, b: string, m: map<string, string>)
    requires BracketFree(a)
    ensures Decode(a + b, m) == a + Decode(b, m)
    ensures Segments(a + b) == Segments(b)
    ensures WB(a + b) <==> WB(b)
    decreases |a|
  {
    if a == [] {
      assert a + b == b;
    } else {
      var w := a + b;
      assert w[1..] == a[1..] + b;
      PlainPrefix(a[1..], b, m);
      assert SegLen(w) == 0;
      assert a + Decode(b, m) == [a[0]] + (a[1..] + Decode(b, m));
    }
  }

  /** A segment prefix decodes through the map and is the first segment. */
  lemma SegmentPrefix(t: string, b: string, m: map<string, string>)
    requires IsSegment(t)
    ensures Decode(t + b, m) == Look(t, m) + Decode(b, m)
    ensures Segments(t + b) == [t] + Segments(b)
    ensures WB(t + b) <==> WB(b)
  {
    SegLenOf(t, b);
    assert (t + b)[..|t|] == t;
    assert (t + b)[|t|..] == b;
  }

  lemma BracketFreeWB(a: string, m: map<string, string>)
    requires BracketFree(a)
    ensures WB(a) && Segments(a) == [] && Decode(a, m) == a
  {
    PlainPrefix(a, [], m);
    assert a + [] == a;
  }

  /** Decoding and segment lists distribute over a well-bracketed prefix. */
  lemma {:induction false} WBConcat(x: string, y: string, m: map<string, string>)
    requires WB(x)
    ensures Decode(x + y, m) == Decode(x, m) + Decode(y, m)
    ensures Segments(x + y) == Segments(x) + Segments(y)
    ensures WB(x + y) <==> WB(y)
    decreases |x|
  {
    if x == [] {
      assert x + y == y;
    } else if SegLen(x) > 0 {
      var n := SegLen(x);
      var t, r := x[..n], x[n..];
      assert x == t + r;
      WBConcat(r, y, m);
      ConcatAfter(t, r, y, m);
    } else {
      var r := x[1..];
      assert x == [x[0]] + r;
      WBConcat(r, y, m);
      ConcatAfter([x[0]], r, y, m);
    }
  }

  /** One step of `WBConcat`: a leading plain character or segment `h` in front of `r`. */
  lemma ConcatAfter(h: string, r: string, y: string, m: map<string, string>)
    requires IsSegment(h) || (|h| == 1 && !IsBracket(h[0]))
    requires Decode(r + y, m) == Decode(r, m) + Decode(y, m)
    requires Segments(r + y) == Segments(r) + Segments(y)
    requires WB(r + y) <==> WB(y)
    ensures Decode(h + r + y, m) == Decode(h + r, m) + Decode(y, m)
    ensures Segments(h + r + y) == Segments(h + r) + Segments(y)
    ensures WB(h + r + y) <==> WB(y)
  {
    var ry := r + y;
    Assoc(h, r, y);
    if IsSegment(h) {
      SegmentPrefix(h, ry, m);
      SegmentPrefix(h, r, m);
      Assoc(Look(h, m), Decode(r, m), Decode(y, m));
      Assoc([h], Segments(r), Segments(y));
    } else {
      PlainPrefix(h, ry, m);
      PlainPrefix(h, r, m);
      Assoc(h, Decode(r, m), Decode(y, m));
    }
  }

  lemma Assoc<T>(a: seq<T>, b: seq<T>, c: seq<T>)
    ensures a + (b + c) == (a + b) + c
  {
  }

  lemma Whole<T>(w: seq<T>)
    ensures w[..0] == [] && w[0..] == w
  {
  }

  /** Cutting `w` at `i` and `j`. */
  lemma Cut<T>(w: seq<T>, i: nat, j: nat)
    requires i <= j <= |w|
    ensures w == w[..i] + w[i..]
    ensures w[..j] == w[..i] + w[i..j]
    ensures w[i..] == w[i..j] + w[j..]
  {
  }

  // ---------------------------------------------------------------------
  // Open prefixes

  lemma {:induction false} OpenAppend(u: string, v: string)
    requires Open(v)
    ensures Open(u + v)
    decreases |v|
  {
    var w := u + v;
    assert w[|w| - 1] == v[|v| - 1];
    if v[|v| - 1] != '[' {
      OpenAppend(u, v[..|v| - 1]);
      assert w[..|w| - 1] == u + v[..|v| - 1];
    }
  }

  /** Bracket-free text after `p` neither opens nor closes a bracket. */
  lemma {:induction false} OpenPlainSuffix(p: string, mid: string)
    requires BracketFree(mid)
    ensures Open(p + mid) <==> Open(p)
    decreases |mid|
  {
    if mid == [] {
      assert p + mid == p;
    } else {
      var w := p + mid;
      assert w[..|w| - 1] == p + mid[..|mid| - 1];
      assert !IsBracket(mid[|mid| - 1]);
      OpenPlainSuffix(p, mid[..|mid| - 1]);
    }
  }

  /** A proper, non-empty prefix of a segment is open. */
  lemma {:induction false} OpenSegmentPrefix(x: string, t: string)
    requires IsSegment(t) && 0 < |x| < |t| && x == t[..|x|]
    ensures Open(x)
    decreases |x|
  {
    if |x| > 1 {
      assert x[|x| - 1] == t[1..|t| - 1][|x| - 2];
      OpenSegmentPrefix(x[..|x| - 1], t);
    }
  }

  /** A well-bracketed string cut where no bracket is open gives a well-bracketed prefix. */
  lemma {:induction false} WBSplit(x: string, y: string)
    requires WB(x + y) && !Open(x)
    ensures WB(x) && WB(y)
    decreases |x|
  {
    var w := x + y;
    if x == [] {
      assert w == y;
    } else if SegLen(w) > 0 {
      var n := SegLen(w);
      var t := w[..n];
      if n <= |x| {
        var r := x[n..];
        assert x == t + r;
        assert w == t + (r + y);
        SegmentPrefix(t, r + y, map[]);
        if Open(r) { OpenAppend(t, r); }
        WBSplit(r, y);
        SegmentPrefix(t, r, map[]);
      } else {
        assert x == t[..|x|];
        OpenSegmentPrefix(x, t);
      }
    } else {
      var r := x[1..];
      assert x == [x[0]] + r;
      assert w == [x[0]] + (r + y);
      assert !IsBracket(x[0]);
      PlainPrefix([x[0]], r + y, map[]);
      if Open(r) { OpenAppend([x[0]], r); }
      WBSplit(r, y);
      PlainPrefix([x[0]], r, map[]);
    }
    WBConcat(x, y, map[]);
  }

  // ---------------------------------------------------------------------
  // Decoding under different maps

  lemma {:induction false} DecodeAgree(w: string, m: map<string, string>, m': map<string, string>)
    requires Agree(Segments(w), m, m')
    ensures Decode(w, m) == Decode(w, m')
    decreases |w|
  {
    if w != [] {
      if SegLen(w) > 0 {
        DecodeAgree(w[SegLen(w)..], m, m');
      } else {
        DecodeAgree(w[1..], m, m');
      }
    }
  }

  /** With no entries every segment stays as it is. */
  lemma {:induction false} DecodeEmpty(w: string)
    ensures Decode(w, map[]) == w
    decreases |w|
  {
    if w != [] {
      if SegLen(w) > 0 {
        DecodeEmpty(w[SegLen(w)..]);
        assert w == w[..SegLen(w)] + w[SegLen(w)..];
      } else {
        DecodeEmpty(w[1..]);
        assert w == [w[0]] + w[1..];
      }
    }
  }

  // ---------------------------------------------------------------------
  // Replacing text by a token, and a token by text

  /** A bracket-free `x` that is not part of segment `t` cannot start inside `t`. */
  lemma NoTextInSegment(t: string, r: string, x: string)
    requires IsSegment(t) && BracketFree(x) && |x| > 0 && !IsInfix(x, t)
    ensures forall j: nat | j < |t| :: !OccursAt(t + r, x, j)
  {
    forall j: nat | j < |t| ensures !OccursAt(t + r, x, j) {
      if j + |x| <= |t| {
        assert t[j..j + |x|] == (t + r)[j..j + |x|];
        assert !OccursAt(t, x, j);
      } else if j + |x| <= |t + r| {
        assert (t + r)[j..j + |x|][|t| - 1 - j] == ']';
        assert !IsBracket(x[|t| - 1 - j]);
      }
    }
  }

  /** A segment `t` other than `tok` does not contain the start of an occurrence of `tok`. */
  lemma NoTokenInSegment(t: string, r: string, tok: string)
    requires IsSegment(t) && IsSegment(tok) && t != tok
    ensures forall j: nat | j < |t| :: !OccursAt(t + r, tok, j)
  {
    var w := t + r;
    SegLenOf(t, r);
    forall j: nat | j < |t| ensures !OccursAt(w, tok, j) {
      if j == 0 {
        if |tok| <= |w| && w[..|tok|] == tok {
          assert w == tok + w[|tok|..];
          SegLenOf(tok, w[|tok|..]);
        }
      } else if j + |tok| <= |w| {
        assert w[j..j + |tok|][0] == w[j];
        if j < |t| - 1 {
          assert w[j] == t[1..|t| - 1][j - 1];
        }
      }
    }
  }

  /** The client's build step: the first occurrence of a plain `x` becomes `tok`, and
      decoding with `tok` mapped back to `x` gives the same text as before. */
  lemma {:induction false} ReplaceTextDecode(w: string, x: string, tok: string,
                                             m: map<string, string>, m': map<string, string>)
    requires WB(w) && BracketFree(x) && |x| > 0 && IsSegment(tok)
    requires forall t | t in Segments(w) :: !IsInfix(x, t)
    requires Agree(Segments(w), m, m') && Look(tok, m') == x
    ensures WB(ReplaceFirst(w, x, tok))
    ensures Decode(ReplaceFirst(w, x, tok), m') == Decode(w, m)
    ensures multiset(Segments(ReplaceFirst(w, x, tok))) <= multiset(Segments(w)) + multiset{tok}
    decreases |w|
  {
    if w == [] {
    } else if SegLen(w) > 0 {
      var n := SegLen(w);
      var t, r := w[..n], w[n..];
      assert w == t + r;
      NoTextInSegment(t, r, x);
      ReplaceFirstAfter(t, r, x, tok);
      SegmentPrefix(t, r, m);
      ReplaceTextDecode(r, x, tok, m, m');
      SegmentPrefix(t, ReplaceFirst(r, x, tok), m');
    } else if OccursAt(w, x, 0) {
      var rest := w[|x|..];
      assert w == x + rest;
      ReplaceFirstAtStart(x, rest, tok);
      PlainPrefix(x, rest, m);
      SegmentPrefix(tok, rest, m');
      DecodeAgree(rest, m, m');
    } else {
      var r := w[1..];
      assert w == [w[0]] + r;
      ReplaceFirstSkip(w[0], r, x, tok);
      PlainPrefix([w[0]], r, m);
      ReplaceTextDecode(r, x, tok, m, m');
      PlainPrefix([w[0]], ReplaceFirst(r, x, tok), m');
    }
  }

  /** The client's reinsert step: the first occurrence of segment `tok` becomes `v`. When
      `tok` occurs at most once, decoding afterwards is decoding before with `tok` read as `v`. */
  lemma {:induction false} ReplaceTokenFirstDecode(w: string, tok: string, v: string, m: map<string, string>)
    requires WB(w) && IsSegment(tok) && BracketFree(v)
    requires multiset(Segments(w))[tok] <= 1
    ensures WB(ReplaceFirst(w, tok, v))
    ensures Decode(ReplaceFirst(w, tok, v), m) == Decode(w, m[tok := v])
    ensures multiset(Segments(ReplaceFirst(w, tok, v))) == multiset(Segments(w))[tok := 0]
    decreases |w|
  {
    if w == [] {
    } else if SegLen(w) > 0 {
      var n := SegLen(w);
      var t, r := w[..n], w[n..];
      assert w == t + r;
      SegmentPrefix(t, r, m[tok := v]);
      if t == tok {
        TokenHit(r, tok, v, m);
        ReplaceFirstAtStart(tok, r, v);
      } else {
        assert multiset(Segments(w)) == multiset{t} + multiset(Segments(r));
        ReplaceTokenFirstDecode(r, tok, v, m);
        FirstTokenMiss(t, r, tok, v, m);
      }
    } else {
      var r := w[1..];
      assert w == [w[0]] + r;
      ReplaceFirstSkip(w[0], r, tok, v);
      ReplaceTokenFirstDecode(r, tok, v, m);
      TokenMiss([w[0]], r, ReplaceFirst(r, tok, v), tok, v, m);
    }
  }

  /** A segment other than `tok` in front of a rest whose first `tok` is already replaced. */
  lemma FirstTokenMiss(t: string, r: string, tok: string, v: string, m: map<string, string>)
    requires IsSegment(t) && IsSegment(tok) && t != tok
    requires WB(r) ==> WB(ReplaceFirst(r, tok, v))
    requires Decode(ReplaceFirst(r, tok, v), m) == Decode(r, m[tok := v])
    requires multiset(Segments(ReplaceFirst(r, tok, v))) == multiset(Segments(r))[tok := 0]
    ensures ReplaceFirst(t + r, tok, v) == t + ReplaceFirst(r, tok, v)
    ensures WB(t + r) ==> WB(ReplaceFirst(t + r, tok, v))
    ensures Decode(ReplaceFirst(t + r, tok, v), m) == Decode(t + r, m[tok := v])
    ensures multiset(Segments(ReplaceFirst(t + r, tok, v))) == multiset(Segments(t + r))[tok := 0]
  {
    NoTokenInSegment(t, r, tok);
    ReplaceFirstAfter(t, r, tok, v);
    TokenMiss(t, r, ReplaceFirst(r, tok, v), tok, v, m);
  }

  /** `tok` in front of a rest where it no longer occurs, read as `v`. */
  lemma TokenHit(r: string, tok: string, v: string, m: map<string, string>)
    requires IsSegment(tok) && BracketFree(v)
    requires multiset(Segments(tok + r))[tok] <= 1
    ensures WB(v + r) <==> WB(tok + r)
    ensures Decode(v + r, m) == Decode(tok + r, m[tok := v])
    ensures multiset(Segments(v + r)) == multiset(Segments(tok + r))[tok := 0]
  {
    SegmentPrefix(tok, r, m[tok := v]);
    PlainPrefix(v, r, m);
    assert multiset(Segments(tok + r)) == multiset{tok} + multiset(Segments(r));
    assert tok !in Segments(r);
    DecodeAgree(r, m, m[tok := v]);
  }

  /** A plain character or a segment other than `tok` in front of a rest `r` that became `r'`. */
  lemma TokenMiss(h: string, r: string, r': string, tok: string, v: string, m: map<string, string>)
    requires (IsSegment(h) && h != tok) || (|h| == 1 && !IsBracket(h[0]))
    requires WB(r) ==> WB(r')
    requires Decode(r', m) == Decode(r, m[tok := v])
    requires multiset(Segments(r')) == multiset(Segments(r))[tok := 0]
    ensures WB(h + r) ==> WB(h + r')
    ensures Decode(h + r', m) == Decode(h + r, m[tok := v])
    ensures multiset(Segments(h + r')) == multiset(Segments(h + r))[tok := 0]
  {
    if IsSegment(h) {
      SegmentPrefix(h, r, m[tok := v]);
      SegmentPrefix(h, r', m);
      MultisetConsDrop(h, Segments(r), tok);
    } else {
      PlainPrefix(h, r, m[tok := v]);
      PlainPrefix(h, r', m);
    }
  }

  /** Dropping every `tok` commutes with adding an element other than `tok`. */
  lemma MultisetConsDrop(h: string, s: seq<string>, tok: string)
    requires h != tok
    ensures multiset([h] + s)[tok := 0] == multiset{h} + multiset(s)[tok := 0]
  {
    assert multiset([h] + s) == multiset{h} + multiset(s);
  }

  /** The server's reinsert step: every occurrence of segment `tok` becomes `v`, and
      decoding afterwards is decoding before with `tok` read as `v`. */
  lemma {:induction false} ReplaceTokenAllDecode(w: string, tok: string, v: string, m: map<string, string>)
    requires WB(w) && IsSegment(tok) && BracketFree(v)
    ensures WB(ReplaceAll(w, tok, v))
    ensures Decode(ReplaceAll(w, tok, v), m) == Decode(w, m[tok := v])
    ensures multiset(Segments(ReplaceAll(w, tok, v))) == multiset(Segments(w))[tok := 0]
    decreases |w|
  {
    if w == [] {
    } else if SegLen(w) > 0 {
      var n := SegLen(w);
      var t, r := w[..n], w[n..];
      assert w == t + r;
      SegmentPrefix(t, r, m[tok := v]);
      ReplaceTokenAllDecode(r, tok, v, m);
      if t == tok {
        AllTokenHit(r, tok, v, m);
      } else {
        AllTokenMiss(t, r, tok, v, m);
      }
    } else {
      var r := w[1..];
      assert w == [w[0]] + r;
      ReplaceAllSkip(w[0], r, tok, v);
      ReplaceTokenAllDecode(r, tok, v, m);
      TokenMiss([w[0]], r, ReplaceAll(r, tok, v), tok, v, m);
    }
  }

  /** `tok` in front of a rest whose occurrences are already replaced. */
  lemma AllTokenHit(r: string, tok: string, v: string, m: map<string, string>)
    requires IsSegment(tok) && BracketFree(v)
    requires WB(ReplaceAll(r, tok, v))
    requires Decode(ReplaceAll(r, tok, v), m) == Decode(r, m[tok := v])
    requires multiset(Segments(ReplaceAll(r, tok, v))) == multiset(Segments(r))[tok := 0]
    ensures WB(ReplaceAll(tok + r, tok, v))
    ensures Decode(ReplaceAll(tok + r, tok, v), m) == Decode(tok + r, m[tok := v])
    ensures multiset(Segments(ReplaceAll(tok + r, tok, v))) == multiset(Segments(tok + r))[tok := 0]
  {
    var r' := ReplaceAll(r, tok, v);
    ReplaceAllAtStart(tok, r, v);
    PlainPrefix(v, r', m);
    SegmentPrefix(tok, r, m[tok := v]);
  }

  /** A segment other than `tok` in front of a rest whose occurrences are already replaced. */
  lemma AllTokenMiss(t: string, r: string, tok: string, v: string, m: map<string, string>)
    requires IsSegment(t) && IsSegment(tok) && t != tok
    requires WB(r) ==> WB(ReplaceAll(r, tok, v))
    requires Decode(ReplaceAll(r, tok, v), m) == Decode(r, m[tok := v])
    requires multiset(Segments(ReplaceAll(r, tok, v))) == multiset(Segments(r))[tok := 0]
    ensures ReplaceAll(t + r, tok, v) == t + ReplaceAll(r, tok, v)
    ensures WB(t + r) ==> WB(ReplaceAll(t + r, tok, v))
    ensures Decode(ReplaceAll(t + r, tok, v), m) == Decode(t + r, m[tok := v])
    ensures multiset(Segments(ReplaceAll(t + r, tok, v))) == multiset(Segments(t + r))[tok := 0]
  {
    NoTokenInSegment(t, r, tok);
    ReplaceAllAfter(t, r, tok, v);
    TokenMiss(t, r, ReplaceAll(r, tok, v), tok, v, m);
  }
}
