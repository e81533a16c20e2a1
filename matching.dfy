/**
 * What both placeholder engines need from their regular expressions, and
 * the token format `[CATEGORY_n]` they share.
 *
 * A pattern is modelled by the list of non-overlapping matches it reports,
 * left to right, on a given text (JavaScript `exec` with the `g` flag,
 * Python `re.sub`). The concrete regular expressions are not modelled;
 * the properties below are the ones every pattern of the program has.
 */
module Matching {
  import opened Strings
  import opened Brackets

  /** A match `s[start..end]`. */
  datatype Span = Span(start: nat, end: nat)

  /** The matches a pattern reports on a text, left to right. */
  type Matcher = string -> seq<Span>

  /** Category name to pattern. */
  type PatternTable = map<string, Matcher>

  /** Every span lies inside `s`. */
  predicate SpansIn(s: string, spans: seq<Span>) {
    forall i | 0 <= i < |spans| :: spans[i].start <= spans[i].end <= |s|
  }

  /** The text a span covers. */
  function Text(s: string, sp: Span): (r: string)
    requires sp.start <= sp.end <= |s|
    ensures |r| == sp.end - sp.start
    ensures forall k | 0 <= k < |r| :: r[k] == s[sp.start + k]
  {
    s[sp.start..sp.end]
  }

  /** What every pattern of the program guarantees about its matches: each one is
      non-empty and bracket-free (no pattern's character classes contain `[` or `]`),
      and they come left to right without overlapping. */
  predicate SpansWellFormed(s: string, spans: seq<Span>) {
    SpansIn(s, spans)
    && (forall i | 0 <= i < |spans| :: spans[i].start < spans[i].end)
    && (forall i | 0 <= i < |spans| :: BracketFree(s[spans[i].start..spans[i].end]))
    && (forall i | 0 <= i < |spans| - 1 :: spans[i].end <= spans[i + 1].start)
  }

  /** Category names are bracket-free and every pattern behaves as above on every text. */
  ghost predicate ValidTable(table: PatternTable) {
    (forall c | c in table :: BracketFree(c))
    && (forall c, s | c in table :: SpansWellFormed(s, table[c](s)))
  }

  /** A text as the server's earlier passes leave it: well bracketed, and every bracketed
      segment in it a token `[c_n]` of a category that has a pattern. */
  ghost predicate TokenText(s: string, table: PatternTable) {
    WB(s) && forall t | t in Segments(s) :: exists c, n: nat :: c in table && 1 <= n && t == Token(c, n)
  }

  /** On a text of that shape, no match starts inside one of its tokens. The server runs
      its patterns over text that already holds tokens such as `[EMAIL_1]`; the token
      bodies are upper-case letters, `_` and digits, where no pattern of the program can
      start a match (those starting with a digit need a word boundary, which `_` before
      the digits rules out; the others need `@`, `.`, white space, lower-case letters or
      a letter directly followed by digits, none of which a token body holds). Texts with
      an unmatched `[` are outside this statement. */
  ghost predicate AvoidsOpenBrackets(table: PatternTable) {
    forall c, s | c in table && TokenText(s, table) ::
      forall i | 0 <= i < |table[c](s)| ::
        table[c](s)[i].start <= |s| ==> !Open(s[..table[c](s)[i].start])
  }

  /** The placeholder for the `n`-th match of a category: `[CATEGORY_n]`. */
  function Token(category: string, n: nat): (t: string)
    ensures |t| == |category| + |NatToString(n)| + 3
    ensures t[0] == '[' && t[|t| - 1] == ']'
  {
    "[" + category + "_" + NatToString(n) + "]"
  }

  /** A token of a bracket-free category is a segment. */
  lemma TokenIsSegment(category: string, n: nat)
    requires BracketFree(category)
    ensures IsSegment(Token(category, n))
  {
    var t := Token(category, n);
    var d := NatToString(n);
    var body := t[1..|t| - 1];
    assert body == category + "_" + d;
    forall i | 0 <= i < |body| ensures !IsBracket(body[i]) {
      if i > |category| {
        assert body[i] == d[i - |category| - 1];
      }
    }
  }

  /** Different categories or different counters give different tokens. */
  lemma TokenInjective(c1: string, n1: nat, c2: string, n2: nat)
    requires Token(c1, n1) == Token(c2, n2)
    ensures c1 == c2 && n1 == n2
  {
    var d1, d2 := NatToString(n1), NatToString(n2);
    var t := Token(c1, n1);
    assert t[1..|t| - 1] == c1 + "_" + d1 == c2 + "_" + d2;
    assert '_' !in d1 && '_' !in d2;
    LastSeparator(c1, d1, c2, d2, '_');
    NatToStringInjective(n1, n2);
  }

  /** Splitting at the last separator is unique. */
  lemma LastSeparator(a1: string, b1: string, a2: string, b2: string, sep: char)
    requires a1 + [sep] + b1 == a2 + [sep] + b2
    requires sep !in b1 && sep !in b2
    ensures a1 == a2 && b1 == b2
  {
    var w := a1 + [sep] + b1;
    if |b1| < |b2| {
      SeparatorInside(a1, b1, a2, b2, sep);
    } else if |b2| < |b1| {
      SeparatorInside(a2, b2, a1, b1, sep);
    } else {
      assert a1 == w[..|a1|] == a2;
      assert b1 == w[|a1| + 1..] == b2;
    }
  }

  /** With a shorter tail on the left, the left separator falls inside the right tail. */
  lemma SeparatorInside(a1: string, b1: string, a2: string, b2: string, sep: char)
    requires a1 + [sep] + b1 == a2 + [sep] + b2
    requires |b1| < |b2|
    ensures sep in b2
  {
    var w := a1 + [sep] + b1;
    assert w[|a1|] == sep;
    assert w[|a1|] == b2[|a1| - |a2| - 1];
  }
}
