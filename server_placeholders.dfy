/**
 * The server's placeholder engine (`build_placeholders`,
 * `reinsert_placeholders`). For each requested category with a pattern,
 * `regex.sub` runs over the current sanitized text; its callback bumps the
 * category's counter, stores `[CATEGORY_n]` -> match in the placeholder
 * dictionary and returns the token. Reinsertion sorts the dictionary's
 * entries longest key first and replaces every occurrence of each key.
 *
 * The placeholder dictionary is a `Dict`: its entries in insertion order.
 */
module ServerPlaceholders {
  import opened Strings
  import opened Brackets
  import opened Matching
  import opened Sorting
  import opened Dicts

  datatype Sanitized = Sanitized(sanitized: string, placeholderMap: Dict, counts: map<string, nat>)

  /** The categories the server has a pattern for. */
  const ServerCategories: set<string> := {"EMAIL", "PHONE", "ADDRESS", "GPS", "CARD", "ID", "NAME"}

  // ---------------------------------------------------------------------
  // Specification

  /** `regex.sub` over `w[from..]`: the text between matches kept, each match replaced
      by the next token of the category, counting on from `n`. (Matches that do not fit
      the text, which no pattern produces, end it.) */
  function SubFrom(w: string, spans: seq<Span>, category: string, n: nat, from: nat): string
    decreases |spans|
  {
    if spans == [] then (if from <= |w| then w[from..] else [])
    else if from <= spans[0].start <= spans[0].end <= |w| then
      w[from..spans[0].start] + Token(category, n + 1)
        + SubFrom(w, spans[1..], category, n + 1, spans[0].end)
    else []
  }

  /** The callback's dictionary writes, in match order. */
  function AddEntries(d: Dict, w: string, spans: seq<Span>, category: string, n: nat): Dict
    decreases |spans|
  {
    if spans == [] then d
    else if spans[0].start <= spans[0].end <= |w| then
      AddEntries(Put(d, Token(category, n + 1), Text(w, spans[0])), w, spans[1..], category, n + 1)
    else d
  }

  /** One `regex.sub` pass of a category over the current state. */
  function Pass(st: Sanitized, category: string, matcher: Matcher): Sanitized
    requires category in st.counts
    requires SpansWellFormed(st.sanitized, matcher(st.sanitized))
  {
    var w := st.sanitized;
    var spans := matcher(w);
    var n := st.counts[category];
    Sanitized(SubFrom(w, spans, category, n, 0),
              AddEntries(st.placeholderMap, w, spans, category, n),
              st.counts[category := n + |spans|])
  }

  /** The passes of the categories in order; a category without a pattern is skipped. */
  function RunPasses(st: Sanitized, categories: seq<string>, table: PatternTable): Sanitized
    requires ValidTable(table)
    requires forall c | c in categories :: c in st.counts
    decreases |categories|
  {
    if categories == [] then st
    else
      var c := categories[0];
      var next := if c in table then Pass(st, c, table[c]) else st;
      RunPasses(next, categories[1..], table)
  }

  /** Every requested category starts at 0, whether or not it has a pattern. */
  function InitialCounts(categories: seq<string>): map<string, nat> {
    map c | c in categories :: 0
  }

  function Build(text: string, categories: seq<string>, table: PatternTable): Sanitized
    requires ValidTable(table)
  {
    RunPasses(Sanitized(text, [], InitialCounts(categories)), categories, table)
  }

  function KeyLength(entry: (string, string)): nat { |entry.0| }

  /** `result.replace(placeholder, original)` for each entry, front to back. */
  function ApplyAll(text: string, items: Dict): string
    decreases |items|
  {
    if items == [] then text
    else ApplyAll(ReplaceAll(text, items[0].0, items[0].1), items[1..])
  }

  function Reinsert(text: string, placeholderMap: Dict): string {
    ApplyAll(text, SortDesc(placeholderMap, KeyLength))
  }

  // ---------------------------------------------------------------------
  // The two operations as the server runs them

  method BuildPlaceholders(text: string, categories: seq<string>, table: PatternTable)
    returns (result: Sanitized)
    requires ValidTable(table)
    ensures result == Build(text, categories, table)
  {
    var placeholderMap: Dict := [];
    var counts: map<string, nat> := InitialCounts(categories);
    var sanitized := text;
    for i := 0 to |categories|
      invariant forall c | c in categories :: c in counts
      invariant RunPasses(Sanitized(sanitized, placeholderMap, counts), categories[i..], table)
        == Build(text, categories, table)
    {
      var category := categories[i];
      var before := Sanitized(sanitized, placeholderMap, counts);
      RunPassesStep(before, categories, i, table);
      if category in table {
        // `regex.sub` with the counting callback
        var next := Pass(before, category, table[category]);
        sanitized, placeholderMap, counts := next.sanitized, next.placeholderMap, next.counts;
      }
    }
    result := Sanitized(sanitized, placeholderMap, counts);
  }



  lemma RunPassesStep(st: Sanitized, categories: seq<string>, i: nat, table: PatternTable)
    requires ValidTable(table) && i < |categories|
    requires forall c | c in categories :: c in st.counts
    ensures forall c | c in categories[i..] :: c in st.counts
    ensures var c := categories[i];
      c in table ==> SpansWellFormed(st.sanitized, table[c](st.sanitized))
    ensures var c := categories[i];
      var next := if c in table then Pass(st, c, table[c]) else st;
      (forall c | c in categories[i + 1..] :: c in next.counts)
      && RunPasses(st, categories[i..], table) == RunPasses(next, categories[i + 1..], table)
  {
    assert categories[i..][1..] == categories[i + 1..];
  }

  /** Any suffix of well-formed matches is well formed. */
  lemma SuffixWellFormed(w: string, spans: seq<Span>, k: nat)
    requires SpansWellFormed(w, spans) && k <= |spans|
    ensures SpansWellFormed(w, spans[k..])
  {
    var t := spans[k..];
    assert forall i | 0 <= i < |t| :: t[i] == spans[k + i];
  }

  lemma SubFromStep(w: string, spans: seq<Span>, k: nat, category: string, n: nat, last: nat)
    requires SpansWellFormed(w, spans) && k < |spans|
    requires last <= spans[k].start
    ensures SpansWellFormed(w, spans[k..]) && SpansWellFormed(w, spans[k + 1..])
    ensures spans[k].end <= |w| && (k + 1 < |spans| ==> spans[k].end <= spans[k + 1].start)
    ensures SubFrom(w, spans[k..], category, n, last)
      == w[last..spans[k].start] + Token(category, n + 1) + SubFrom(w, spans[k + 1..], category, n + 1, spans[k].end)
  {
    SuffixWellFormed(w, spans, k);
    SuffixWellFormed(w, spans, k + 1);
    assert spans[k..][1..] == spans[k + 1..];
  }


  method ReinsertPlaceholders(text: string, placeholderMap: Dict) returns (result: string)
    ensures result == Reinsert(text, placeholderMap)
  {
    var items := SortDesc(placeholderMap, KeyLength);
    result := text;
    for i := 0 to |items|
      invariant ApplyAll(result, items[i..]) == Reinsert(text, placeholderMap)
    {
      var (placeholder, original) := items[i];
      result := ReplaceAll(result, placeholder, original);
      assert items[i..][1..] == items[i + 1..];
    }
  }

  // ---------------------------------------------------------------------
  // The invariant of building

  /** Keys are distinct tokens, values are bracket-free. */
  predicate EntriesWellFormed(d: Dict) {
    DistinctKeys(d) && forall i | 0 <= i < |d| :: IsSegment(d[i].0) && BracketFree(d[i].1)
  }

  /** `t` is a token `[c_n]`. */
  ghost predicate IsToken(t: string) {
    exists c, n: nat :: t == Token(c, n)
  }

  /** Every key is a token. */
  ghost predicate AllTokens(d: Dict) {
    forall i | 0 <= i < |d| :: IsToken(d[i].0)
  }

  /** The keys are exactly the tokens `[c_1]` .. `[c_k]` with `k == counts[c]`. */
  ghost predicate Issued(d: Dict, counts: map<string, nat>) {
    AllTokens(d)
    && (forall i, c, n | 0 <= i < |d| && d[i].0 == Token(c, n) :: c in counts && 1 <= n <= counts[c])
    && (forall c, n | c in counts && 1 <= n <= counts[c] :: Token(c, n) in Keys(d))
  }

  /** What holds after every pass of building from `text`: the sanitized text decodes back
      to `text` through the dictionary and every token in it is a key. */
  ghost predicate Inv(st: Sanitized, text: string) {
    WB(st.sanitized)
    && Decode(st.sanitized, ToMap(st.placeholderMap)) == text
    && (forall t | t in Segments(st.sanitized) :: t in Keys(st.placeholderMap))
    && EntriesWellFormed(st.placeholderMap)
    && Issued(st.placeholderMap, st.counts)
  }

  /** The entries a pass adds, when all its tokens are new. */
  function NewEntries(w: string, spans: seq<Span>, c: string, n: nat): (e: Dict)
    requires SpansIn(w, spans)
    ensures |e| == |spans|
  {
    seq(|spans|, i requires 0 <= i < |spans| => (Token(c, n + i + 1), Text(w, spans[i])))
  }

  /** With all its tokens new, a pass's dictionary writes append one entry per match. */
  lemma {:induction false} AddEntriesAppend(d: Dict, w: string, spans: seq<Span>, c: string, n: nat)
    requires SpansWellFormed(w, spans)
    requires forall k: nat | k > n :: Token(c, k) !in Keys(d)
    ensures AddEntries(d, w, spans, c, n) == d + NewEntries(w, spans, c, n)
    decreases |spans|
  {
    if spans != [] {
      var tok := Token(c, n + 1);
      var x := Text(w, spans[0]);
      var d1 := d + [(tok, x)];
      AppendToken(d, c, n, x);
      SuffixWellFormed(w, spans, 1);
      AddEntriesAppend(d1, w, spans[1..], c, n + 1);
      NewEntriesCons(w, spans, c, n);
      AppendJoin(d, w, spans, c, n, d1);
    }
  }

  /** The inductive step of `AddEntriesAppend`, from the facts about the first match. */
  lemma AppendJoin(d: Dict, w: string, spans: seq<Span>, c: string, n: nat, d1: Dict)
    requires spans != [] && SpansWellFormed(w, spans) && SpansWellFormed(w, spans[1..])
    requires Put(d, Token(c, n + 1), Text(w, spans[0])) == d1
    requires d1 == d + [(Token(c, n + 1), Text(w, spans[0]))]
    requires AddEntries(d1, w, spans[1..], c, n + 1) == d1 + NewEntries(w, spans[1..], c, n + 1)
    requires NewEntries(w, spans, c, n)
      == [(Token(c, n + 1), Text(w, spans[0]))] + NewEntries(w, spans[1..], c, n + 1)
    ensures AddEntries(d, w, spans, c, n) == d + NewEntries(w, spans, c, n)
  {
    Assoc(d, [(Token(c, n + 1), Text(w, spans[0]))], NewEntries(w, spans[1..], c, n + 1));
  }

  /** The next token of a category is new, and after it the ones beyond are still new. */
  lemma AppendToken(d: Dict, c: string, n: nat, x: string)
    requires forall k: nat | k > n :: Token(c, k) !in Keys(d)
    ensures Put(d, Token(c, n + 1), x) == d + [(Token(c, n + 1), x)]
    ensures forall k: nat | k > n + 1 :: Token(c, k) !in Keys(d + [(Token(c, n + 1), x)])
  {
    var tok := Token(c, n + 1);
    var d1 := d + [(tok, x)];
    assert Keys(d1) == Keys(d) + [tok];
    forall k: nat | k > n + 1 ensures Token(c, k) !in Keys(d1) {
      if Token(c, k) == tok {
        TokenInjective(c, k, c, n + 1);
      }
    }
  }

  lemma NewEntriesCons(w: string, spans: seq<Span>, c: string, n: nat)
    requires SpansWellFormed(w, spans) && spans != []
    ensures SpansWellFormed(w, spans[1..])
    ensures NewEntries(w, spans, c, n)
      == [(Token(c, n + 1), Text(w, spans[0]))] + NewEntries(w, spans[1..], c, n + 1)
  {
    SuffixWellFormed(w, spans, 1);
    var e, e' := NewEntries(w, spans, c, n), NewEntries(w, spans[1..], c, n + 1);
    var x := (Token(c, n + 1), Text(w, spans[0]));
    assert e[0] == x;
    forall i | 0 <= i < |e'| ensures e[i + 1] == e'[i] {
      assert spans[1..][i] == spans[i + 1];
      assert n + (i + 1) + 1 == n + 1 + i + 1;
    }
    assert e == [x] + e' by {
      forall i | 0 <= i < |e| ensures e[i] == ([x] + e')[i] {
        if i > 0 { assert e[(i - 1) + 1] == e'[i - 1]; }
      }
    }
  }

  /** No key is a token the counter has not reached yet. */
  lemma FreshBeyond(d: Dict, counts: map<string, nat>, c: string)
    requires Issued(d, counts) && c in counts
    ensures forall k: nat | k > counts[c] :: Token(c, k) !in Keys(d)
  {
    forall k: nat | k > counts[c] ensures Token(c, k) !in Keys(d) {
      forall i | 0 <= i < |d| ensures d[i].0 != Token(c, k) {}
    }
  }

  /** The entries of a pass are new distinct tokens with bracket-free originals. */
  lemma NewEntriesWellFormed(d: Dict, w: string, spans: seq<Span>, c: string, n: nat)
    requires SpansWellFormed(w, spans) && BracketFree(c) && EntriesWellFormed(d)
    requires forall k: nat | k > n :: Token(c, k) !in Keys(d)
    ensures EntriesWellFormed(d + NewEntries(w, spans, c, n))
  {
    var e := NewEntries(w, spans, c, n);
    var d' := d + e;
    forall i | 0 <= i < |spans| ensures IsSegment(e[i].0) && BracketFree(e[i].1) {
      TokenIsSegment(c, n + i + 1);
    }
    NewKeysDistinct(w, spans, c, n);
    forall i, j | 0 <= i < j < |d'| ensures d'[i].0 != d'[j].0 {
      if i >= |d| {
        assert d'[i] == e[i - |d|] && d'[j] == e[j - |d|];
      } else if j >= |d| {
        assert Keys(d)[i] == d[i].0;
        assert d'[j] == e[j - |d|];
      } else {
        assert d'[i] == d[i] && d'[j] == d[j];
      }
    }
  }

  /** The new entries' keys are distinct and none of them is in `d`. */
  lemma NewKeysDistinct(w: string, spans: seq<Span>, c: string, n: nat)
    requires SpansIn(w, spans)
    ensures forall i, j | 0 <= i < j < |spans| ::
      NewEntries(w, spans, c, n)[i].0 != NewEntries(w, spans, c, n)[j].0
  {
    var e := NewEntries(w, spans, c, n);
    forall i, j | 0 <= i < j < |spans| ensures e[i].0 != e[j].0 {
      if e[i].0 == e[j].0 {
        TokenInjective(c, n + i + 1, c, n + j + 1);
      }
    }
  }

  /** The entries of a pass are tokens. */
  lemma NewEntriesTokens(d: Dict, w: string, spans: seq<Span>, c: string, n: nat)
    requires SpansIn(w, spans) && AllTokens(d)
    ensures AllTokens(d + NewEntries(w, spans, c, n))
  {
    var e := NewEntries(w, spans, c, n);
    var d' := d + e;
    forall i | 0 <= i < |d'| ensures IsToken(d'[i].0) {
      if i >= |d| {
        assert d'[i] == e[i - |d|];
        assert d'[i].0 == Token(c, n + i - |d| + 1);
      } else {
        assert d'[i] == d[i];
      }
    }
  }

  /** Once the counter has moved past the entries of a pass, the keys are again exactly
      the tokens handed out. */
  lemma NewEntriesIssued(d: Dict, w: string, spans: seq<Span>, c: string, counts: map<string, nat>)
    requires SpansIn(w, spans) && c in counts && Issued(d, counts)
    ensures Issued(d + NewEntries(w, spans, c, counts[c]), counts[c := counts[c] + |spans|])
  {
    var n := counts[c];
    var d' := d + NewEntries(w, spans, c, n);
    var counts' := counts[c := n + |spans|];
    NewEntriesTokens(d, w, spans, c, n);
    forall i, c', n': nat | 0 <= i < |d'| && d'[i].0 == Token(c', n')
      ensures c' in counts' && 1 <= n' <= counts'[c']
    {
      NewEntryCounted(d, w, spans, c, counts, i, c', n');
    }
    forall c', n' | c' in counts' && 1 <= n' <= counts'[c'] ensures Token(c', n') in Keys(d') {
      NewTokenKey(d, w, spans, c, counts, c', n');
    }
  }

  /** A key after a pass is a token the counters have reached. */
  lemma NewEntryCounted(d: Dict, w: string, spans: seq<Span>, c: string, counts: map<string, nat>,
                        i: nat, c': string, n': nat)
    requires SpansIn(w, spans) && c in counts && Issued(d, counts)
    requires i < |d| + |spans| && (d + NewEntries(w, spans, c, counts[c]))[i].0 == Token(c', n')
    ensures var counts' := counts[c := counts[c] + |spans|]; c' in counts' && 1 <= n' <= counts'[c']
  {
    var n := counts[c];
    var d' := d + NewEntries(w, spans, c, n);
    if i >= |d| {
      TokenInjective(c, n + i - |d| + 1, c', n');
    } else {
      assert d'[i] == d[i];
    }
  }

  /** A token the counters have reached after a pass is a key. */
  lemma NewTokenKey(d: Dict, w: string, spans: seq<Span>, c: string, counts: map<string, nat>,
                    c': string, n': nat)
    requires SpansIn(w, spans) && c in counts && Issued(d, counts)
    requires var counts' := counts[c := counts[c] + |spans|]; c' in counts' && 1 <= n' <= counts'[c']
    ensures Token(c', n') in Keys(d + NewEntries(w, spans, c, counts[c]))
  {
    var n := counts[c];
    var d' := d + NewEntries(w, spans, c, n);
    if c' == c && n' > n {
      assert Keys(d')[|d| + n' - n - 1] == Token(c', n');
    } else {
      KeyStays(d, NewEntries(w, spans, c, n), Token(c', n'));
    }
  }

  /** Appending entries keeps every key. */
  lemma KeyStays(d: Dict, e: Dict, t: string)
    requires t in Keys(d)
    ensures t in Keys(d + e)
  {
    var j :| 0 <= j < |d| && Keys(d)[j] == t;
    assert Keys(d + e)[j] == t;
  }

  /** Every entry of `e` is in `m`. */
  predicate Holds(m: map<string, string>, e: Dict) {
    forall i | 0 <= i < |e| :: e[i].0 in m && m[e[i].0] == e[i].1
  }

  /** `regex.sub` keeps the decoding: each match from the `k`-th on becomes a token the
      map decodes to that match (`j` is the count before the `k`-th match). */
  lemma {:induction false} SubDecodes(w: string, spans: seq<Span>, k: nat, c: string, n: nat, j: nat,
                                      from: nat, m: map<string, string>)
    requires SpansWellFormed(w, spans) && BracketFree(c) && k <= |spans| && j == n + k
    requires from <= |w| && (k < |spans| ==> from <= spans[k].start)
    requires WB(w) && !Open(w[..from])
    requires forall i | 0 <= i < |spans| :: !Open(w[..spans[i].start])
    requires Holds(m, NewEntries(w, spans, c, n))
    requires forall t | t in Segments(w[from..]) :: t in m
    ensures SpansWellFormed(w, spans[k..])
    ensures WB(SubFrom(w, spans[k..], c, j, from))
    ensures Decode(SubFrom(w, spans[k..], c, j, from), m) == Decode(w[from..], m)
    ensures forall t | t in Segments(SubFrom(w, spans[k..], c, j, from)) :: t in m
    decreases |spans| - k
  {
    SuffixWellFormed(w, spans, k);
    if k < |spans| {
      var s := spans[k];
      SubFromStep(w, spans, k, c, j, from);
      CutAtMatch(w, from, s.start, s.end, m);
      SubDecodes(w, spans, k + 1, c, n, j + 1, s.end, m);
      TokenHeld(w, spans, c, n, k, j, m);
      SubDecodesStep(w, spans, k, c, j, from, m);
    } else {
      SubDecodesEnd(w, from);
    }
  }

  /** After the last match the rest of the text is kept as it is. */
  lemma SubDecodesEnd(w: string, from: nat)
    requires from <= |w| && WB(w) && !Open(w[..from])
    ensures WB(w[from..])
  {
    assert w == w[..from] + w[from..];
    WBSplit(w[..from], w[from..]);
  }

  /** The token of the `k`-th match decodes to the match. */
  lemma TokenHeld(w: string, spans: seq<Span>, c: string, n: nat, k: nat, j: nat, m: map<string, string>)
    requires SpansIn(w, spans) && k < |spans| && j == n + k
    requires Holds(m, NewEntries(w, spans, c, n))
    ensures Token(c, j + 1) in m && m[Token(c, j + 1)] == Text(w, spans[k])
  {
    assert NewEntries(w, spans, c, n)[k] == (Token(c, j + 1), Text(w, spans[k]));
  }

  /** One match of `SubDecodes`, given what holds of the text after it. */
  lemma SubDecodesStep(w: string, spans: seq<Span>, k: nat, c: string, j: nat, from: nat,
                       m: map<string, string>)
    requires SpansWellFormed(w, spans) && BracketFree(c) && k < |spans|
    requires SpansWellFormed(w, spans[k..]) && SpansWellFormed(w, spans[k + 1..])
    requires spans[k].end <= |w| && (k + 1 < |spans| ==> spans[k].end <= spans[k + 1].start)
    requires from <= spans[k].start
    requires WB(w) && !Open(w[..from]) && !Open(w[..spans[k].start])
    requires Token(c, j + 1) in m && m[Token(c, j + 1)] == Text(w, spans[k])
    requires var rest := SubFrom(w, spans[k + 1..], c, j + 1, spans[k].end);
      WB(rest) && Decode(rest, m) == Decode(w[spans[k].end..], m)
      && forall t | t in Segments(rest) :: t in m
    requires forall t | t in Segments(w[from..]) :: t in m
    ensures WB(SubFrom(w, spans[k..], c, j, from))
    ensures Decode(SubFrom(w, spans[k..], c, j, from), m) == Decode(w[from..], m)
    ensures forall t | t in Segments(SubFrom(w, spans[k..], c, j, from)) :: t in m
  {
    var s := spans[k];
    var tok := Token(c, j + 1);
    SubFromStep(w, spans, k, c, j, from);
    var rest := SubFrom(w, spans[k + 1..], c, j + 1, s.end);
    CutAtMatch(w, from, s.start, s.end, m);
    TokenIsSegment(c, j + 1);
    SpliceToken(w[from..s.start], tok, rest, m);
  }

  /** Cutting the text after `from` around a match `w[s0..s1]`. */
  lemma CutAtMatch(w: string, from: nat, s0: nat, s1: nat, m: map<string, string>)
    requires from <= s0 <= s1 <= |w| && BracketFree(w[s0..s1])
    requires WB(w) && !Open(w[..from]) && !Open(w[..s0])
    ensures WB(w[from..s0]) && WB(w[s1..]) && !Open(w[..s1])
    ensures Decode(w[from..], m) == Decode(w[from..s0], m) + w[s0..s1] + Decode(w[s1..], m)
    ensures Segments(w[from..]) == Segments(w[from..s0]) + Segments(w[s1..])
    ensures forall t | t in Segments(w[s1..]) :: t in Segments(w[from..])
  {
    var pre, mid, post := w[from..s0], w[s0..s1], w[s1..];
    Cut(w, from, s0);
    Cut(w, s0, s1);
    WBSplit(w[..from], w[from..]);
    if Open(pre) { OpenAppend(w[..from], pre); }
    WBSplit(pre, mid + post);
    PlainPrefix(mid, post, m);
    WBConcat(pre, mid + post, m);
    Assoc(Decode(pre, m), mid, Decode(post, m));
    OpenPlainSuffix(w[..s0], mid);
  }

  /** A token spliced between two well-bracketed strings. */
  lemma SpliceToken(pre: string, tok: string, rest: string, m: map<string, string>)
    requires WB(pre) && IsSegment(tok) && WB(rest)
    ensures WB(pre + tok + rest)
    ensures Decode(pre + tok + rest, m) == Decode(pre, m) + Look(tok, m) + Decode(rest, m)
    ensures Segments(pre + tok + rest) == Segments(pre) + [tok] + Segments(rest)
  {
    SegmentPrefix(tok, rest, m);
    WBConcat(pre, tok + rest, m);
    Assoc(pre, tok, rest);
    Assoc(Decode(pre, m), Look(tok, m), Decode(rest, m));
    Assoc(Segments(pre), [tok], Segments(rest));
  }

  /** A pass appends `[c_{n+1}]` .. `[c_{n+k}]` for its `k` matches, in match order
      (`n` the category's count before it), and the counter ends at `n + k`. */
  lemma PassAppends(st: Sanitized, c: string, matcher: Matcher)
    requires EntriesWellFormed(st.placeholderMap) && Issued(st.placeholderMap, st.counts)
    requires c in st.counts && BracketFree(c)
    requires SpansWellFormed(st.sanitized, matcher(st.sanitized))
    ensures var st' := Pass(st, c, matcher);
      var spans := matcher(st.sanitized);
      st'.placeholderMap == st.placeholderMap + NewEntries(st.sanitized, spans, c, st.counts[c])
      && st'.counts == st.counts[c := st.counts[c] + |spans|]
      && EntriesWellFormed(st'.placeholderMap) && Issued(st'.placeholderMap, st'.counts)
  {
    var spans := matcher(st.sanitized);
    PassUnfold(st, c, matcher);
    AppendsFresh(st.placeholderMap, st.sanitized, spans, c, st.counts);
  }

  lemma PassUnfold(st: Sanitized, c: string, matcher: Matcher)
    requires c in st.counts
    requires SpansWellFormed(st.sanitized, matcher(st.sanitized))
    ensures var spans := matcher(st.sanitized);
      Pass(st, c, matcher).sanitized == SubFrom(st.sanitized, spans, c, st.counts[c], 0)
      && Pass(st, c, matcher).placeholderMap == AddEntries(st.placeholderMap, st.sanitized, spans, c, st.counts[c])
      && Pass(st, c, matcher).counts == st.counts[c := st.counts[c] + |spans|]
  {
    var w, n := st.sanitized, st.counts[c];
    assert Pass(st, c, matcher)
      == Sanitized(SubFrom(w, matcher(w), c, n, 0), AddEntries(st.placeholderMap, w, matcher(w), c, n),
                   st.counts[c := n + |matcher(w)|]);
  }

  lemma AppendsFresh(d: Dict, w: string, spans: seq<Span>, c: string, counts: map<string, nat>)
    requires EntriesWellFormed(d) && Issued(d, counts)
    requires c in counts && BracketFree(c)
    requires SpansWellFormed(w, spans)
    ensures var d' := AddEntries(d, w, spans, c, counts[c]);
      d' == d + NewEntries(w, spans, c, counts[c])
      && EntriesWellFormed(d') && Issued(d', counts[c := counts[c] + |spans|])
  {
    var n := counts[c];
    FreshBeyond(d, counts, c);
    AddEntriesAppend(d, w, spans, c, n);
    NewEntriesWellFormed(d, w, spans, c, n);
    NewEntriesIssued(d, w, spans, c, counts);
  }

  /** The dictionary after a pass holds the new entries and agrees with the old one on
      every token of the old text. */
  lemma PassDictionary(st: Sanitized, text: string, c: string, matcher: Matcher)
    requires Inv(st, text) && c in st.counts && BracketFree(c)
    requires SpansWellFormed(st.sanitized, matcher(st.sanitized))
    ensures var st' := Pass(st, c, matcher);
      var m' := ToMap(st'.placeholderMap);
      EntriesWellFormed(st'.placeholderMap) && Issued(st'.placeholderMap, st'.counts)
      && Holds(m', NewEntries(st.sanitized, matcher(st.sanitized), c, st.counts[c]))
      && (forall t | t in Segments(st.sanitized) :: t in m' && Look(t, ToMap(st.placeholderMap)) == Look(t, m'))
      && (forall t :: t in m' <==> t in Keys(st'.placeholderMap))
  {
    var w, d, n := st.sanitized, st.placeholderMap, st.counts[c];
    var spans := matcher(w);
    PassAppends(st, c, matcher);
    var e := NewEntries(w, spans, c, n);
    NewEntriesHeld(d, e);
    OldTokensKept(d, e, Segments(w));
    ToMapKeys(d + e);
  }

  /** In a dictionary with distinct keys, the appended entries are held by its map. */
  lemma NewEntriesHeld(d: Dict, e: Dict)
    requires DistinctKeys(d + e)
    ensures Holds(ToMap(d + e), e)
  {
    var d' := d + e;
    ToMapValues(d');
    forall i | 0 <= i < |e| ensures e[i].0 in ToMap(d') && ToMap(d')[e[i].0] == e[i].1 {
      assert d'[|d| + i] == e[i];
    }
  }

  /** Appending entries with new keys keeps the value of every key already present. */
  lemma OldTokensKept(d: Dict, e: Dict, ts: seq<string>)
    requires DistinctKeys(d) && DistinctKeys(d + e)
    requires forall t | t in ts :: t in Keys(d)
    ensures forall t | t in ts :: t in ToMap(d + e) && Look(t, ToMap(d)) == Look(t, ToMap(d + e))
  {
    var d' := d + e;
    ToMapValues(d);
    ToMapValues(d');
    forall t | t in ts ensures t in ToMap(d') && Look(t, ToMap(d)) == Look(t, ToMap(d')) {
      var j :| 0 <= j < |d| && Keys(d)[j] == t;
      assert d'[j] == d[j];
    }
  }

  /** The text after a pass decodes, through any map holding the new entries and the old
      tokens, to what the text before it decoded to. */
  lemma PassText(st: Sanitized, c: string, matcher: Matcher, m: map<string, string>)
    requires WB(st.sanitized) && c in st.counts && BracketFree(c)
    requires SpansWellFormed(st.sanitized, matcher(st.sanitized))
    requires forall i | 0 <= i < |matcher(st.sanitized)| ::
      !Open(st.sanitized[..matcher(st.sanitized)[i].start])
    requires Holds(m, NewEntries(st.sanitized, matcher(st.sanitized), c, st.counts[c]))
    requires forall t | t in Segments(st.sanitized) :: t in m
    ensures var w' := Pass(st, c, matcher).sanitized;
      WB(w') && Decode(w', m) == Decode(st.sanitized, m) && forall t | t in Segments(w') :: t in m
  {
    var w, n := st.sanitized, st.counts[c];
    var spans := matcher(w);
    Whole(w);
    Whole(spans);
    SubDecodes(w, spans, 0, c, n, n, 0, m);
    assert SubFrom(w, spans[0..], c, n, 0) == Pass(st, c, matcher).sanitized;
  }

  /** One pass keeps the invariant, when its matches never start inside a token. */
  lemma PassKeeps(st: Sanitized, text: string, c: string, matcher: Matcher)
    requires Inv(st, text) && c in st.counts && BracketFree(c)
    requires SpansWellFormed(st.sanitized, matcher(st.sanitized))
    requires forall i | 0 <= i < |matcher(st.sanitized)| ::
      !Open(st.sanitized[..matcher(st.sanitized)[i].start])
    ensures Inv(Pass(st, c, matcher), text)
  {
    var st' := Pass(st, c, matcher);
    var m, m' := ToMap(st.placeholderMap), ToMap(st'.placeholderMap);
    PassDictionary(st, text, c, matcher);
    PassText(st, c, matcher, m');
    DecodeAgree(st.sanitized, m, m');
  }

  /** A category without a pattern has not been counted. */
  predicate OnlyPatternsCounted(counts: map<string, nat>, table: PatternTable) {
    forall c | c in counts && c !in table :: counts[c] == 0
  }

  /** Under the invariant, every token in the sanitized text is one the passes handed out,
      so it belongs to a category with a pattern. */
  lemma SanitizedTokens(st: Sanitized, text: string, table: PatternTable)
    requires Inv(st, text) && OnlyPatternsCounted(st.counts, table)
    ensures TokenText(st.sanitized, table)
  {
    forall t | t in Segments(st.sanitized)
      ensures exists c, n: nat :: c in table && 1 <= n && t == Token(c, n)
    {
      KeyIsTableToken(st.placeholderMap, st.counts, table, t);
    }
  }

  /** An issued key is a token of a category with a pattern. */
  lemma KeyIsTableToken(d: Dict, counts: map<string, nat>, table: PatternTable, t: string)
    requires Issued(d, counts) && OnlyPatternsCounted(counts, table) && t in Keys(d)
    ensures exists c, n: nat :: c in table && 1 <= n && t == Token(c, n)
  {
    var i :| 0 <= i < |d| && Keys(d)[i] == t;
    var c, n: nat :| d[i].0 == Token(c, n);
    assert c in counts && 1 <= n <= counts[c];
  }

  /** The pass of a category with a pattern keeps the invariant. */
  lemma TablePassKeeps(st: Sanitized, text: string, c: string, table: PatternTable)
    requires ValidTable(table) && AvoidsOpenBrackets(table)
    requires c in table && c in st.counts
    requires Inv(st, text) && OnlyPatternsCounted(st.counts, table)
    ensures Inv(Pass(st, c, table[c]), text)
    ensures OnlyPatternsCounted(Pass(st, c, table[c]).counts, table)
  {
    SanitizedTokens(st, text, table);
    PassKeeps(st, text, c, table[c]);
  }

  /** Every pass keeps the invariant. */
  lemma {:induction false} RunPassesKeeps(st: Sanitized, text: string, categories: seq<string>, table: PatternTable)
    requires ValidTable(table) && AvoidsOpenBrackets(table)
    requires forall c | c in categories :: c in st.counts
    requires Inv(st, text) && OnlyPatternsCounted(st.counts, table)
    ensures Inv(RunPasses(st, categories, table), text)
    decreases |categories|
  {
    if categories != [] {
      RunPassesStep(st, categories, 0, table);
      var c := categories[0];
      if c in table {
        TablePassKeeps(st, text, c, table);
      }
      assert categories[0..] == categories;
      RunPassesKeeps(if c in table then Pass(st, c, table[c]) else st, text, categories[1..], table);
    }
  }

  /** Building from a bracket-free text ends in a state satisfying the invariant. */
  lemma BuildKeeps(text: string, categories: seq<string>, table: PatternTable)
    requires ValidTable(table) && AvoidsOpenBrackets(table) && BracketFree(text)
    ensures Inv(Build(text, categories, table), text)
  {
    BracketFreeWB(text, map[]);
    RunPassesKeeps(Sanitized(text, [], InitialCounts(categories)), text, categories, table);
  }

  /** The passes keep the dictionary's shape, whatever the text. */
  lemma {:induction false} RunPassesIssued(st: Sanitized, categories: seq<string>, table: PatternTable)
    requires ValidTable(table)
    requires forall c | c in categories :: c in st.counts
    requires EntriesWellFormed(st.placeholderMap) && Issued(st.placeholderMap, st.counts)
    ensures var r := RunPasses(st, categories, table);
      EntriesWellFormed(r.placeholderMap) && Issued(r.placeholderMap, r.counts)
    decreases |categories|
  {
    if categories != [] {
      RunPassesStep(st, categories, 0, table);
      var c := categories[0];
      if c in table {
        PassAppends(st, c, table[c]);
      }
      assert categories[0..] == categories;
      RunPassesIssued(if c in table then Pass(st, c, table[c]) else st, categories[1..], table);
    }
  }

  /** The passes count only categories with a pattern, and keep the set of counted ones. */
  lemma {:induction false} RunPassesCounts(st: Sanitized, categories: seq<string>, table: PatternTable)
    requires ValidTable(table)
    requires forall c | c in categories :: c in st.counts
    ensures var r := RunPasses(st, categories, table);
      r.counts.Keys == st.counts.Keys
      && forall c | c in st.counts && c !in table :: r.counts[c] == st.counts[c]
    decreases |categories|
  {
    if categories != [] {
      RunPassesStep(st, categories, 0, table);
      var c := categories[0];
      assert categories[0..] == categories;
      RunPassesCounts(if c in table then Pass(st, c, table[c]) else st, categories[1..], table);
    }
  }

  /** Passes over categories without a pattern change nothing: `CATEGORY_TO_REGEX.get`
      misses and the loop moves on. */
  lemma {:induction false} RunPassesUnknown(st: Sanitized, categories: seq<string>, table: PatternTable)
    requires ValidTable(table)
    requires forall c | c in categories :: c in st.counts && c !in table
    ensures RunPasses(st, categories, table) == st
    decreases |categories|
  {
    if categories != [] {
      assert categories[0] in categories;
      RunPassesUnknown(st, categories[1..], table);
    }
  }

  /** Requesting only categories without a pattern gives the text back unchanged, an
      empty dictionary and every count at 0. */
  lemma ServerUnknownSkipped(text: string, categories: seq<string>, table: PatternTable)
    requires ValidTable(table)
    requires forall c | c in categories :: c !in table
    ensures Build(text, categories, table) == Sanitized(text, [], InitialCounts(categories))
  {
    RunPassesUnknown(Sanitized(text, [], InitialCounts(categories)), categories, table);
  }

  /** `counts` has exactly the requested categories; one without a pattern stays at 0. */
  lemma BuildCounts(text: string, categories: seq<string>, table: PatternTable)
    requires ValidTable(table)
    ensures var b := Build(text, categories, table);
      (forall c :: c in b.counts <==> c in categories)
      && forall c | c in categories && c !in table :: b.counts[c] == 0
  {
    RunPassesCounts(Sanitized(text, [], InitialCounts(categories)), categories, table);
  }

  /** The dictionary's keys are exactly `[c_1]` .. `[c_k]` for each requested category
      `c` with count `k`, whatever the text: every key is such a token, and every such
      token is a key. */
  lemma BuildKeys(text: string, categories: seq<string>, table: PatternTable)
    requires ValidTable(table)
    ensures var b := Build(text, categories, table);
      DistinctKeys(b.placeholderMap)
      && (forall i | 0 <= i < |b.placeholderMap| :: IsToken(b.placeholderMap[i].0))
      && forall c, n: nat :: Token(c, n) in Keys(b.placeholderMap) <==> c in b.counts && 1 <= n <= b.counts[c]
  {
    RunPassesIssued(Sanitized(text, [], InitialCounts(categories)), categories, table);
    var b := Build(text, categories, table);
    forall c, n: nat | Token(c, n) in Keys(b.placeholderMap) ensures c in b.counts && 1 <= n <= b.counts[c] {
      IssuedToken(b.placeholderMap, b.counts, c, n);
    }
  }

  /** A key that is a token was issued. */
  lemma IssuedToken(d: Dict, counts: map<string, nat>, c: string, n: nat)
    requires Issued(d, counts) && Token(c, n) in Keys(d)
    ensures c in counts && 1 <= n <= counts[c]
  {
    var i :| 0 <= i < |d| && Keys(d)[i] == Token(c, n);
  }

  // ---------------------------------------------------------------------
  // Reinsertion

  /** Replacing every occurrence of each key, in any order, decodes with the map cut down
      to those keys. */
  lemma {:induction false} ApplyAllDecodes(w: string, items: Dict, m: map<string, string>)
    requires WB(w)
    requires forall k | 0 <= k < |items| ::
      IsSegment(items[k].0) && BracketFree(items[k].1) && items[k].0 in m && m[items[k].0] == items[k].1
    ensures ApplyAll(w, items) == Decode(w, Restrict(m, Keys(items)))
    decreases |items|
  {
    if items == [] {
      assert Restrict(m, []) == map[];
      DecodeEmpty(w);
    } else {
      var (k, v) := items[0];
      var rest := items[1..];
      var restricted := Restrict(m, Keys(rest));
      ReplaceTokenAllDecode(w, k, v, restricted);
      assert forall j | 0 <= j < |rest| :: rest[j] == items[j + 1];
      ApplyAllDecodes(ReplaceAll(w, k, v), rest, m);
      RestrictKeysCons(m, items);
    }
  }

  /** The map restricted to the first entry's key and the rest's keys. */
  lemma RestrictKeysCons(m: map<string, string>, items: Dict)
    requires items != [] && items[0].0 in m && m[items[0].0] == items[0].1
    ensures Restrict(m, Keys(items[1..]))[items[0].0 := items[0].1] == Restrict(m, Keys(items))
  {
    assert Keys(items) == [items[0].0] + Keys(items[1..]);
  }

  /** The sorted entries are the dictionary's entries, and cover all its keys. */
  lemma SortedEntries(d: Dict, sorted: Dict)
    requires EntriesWellFormed(d) && multiset(sorted) == multiset(d)
    ensures forall k | 0 <= k < |sorted| ::
      IsSegment(sorted[k].0) && BracketFree(sorted[k].1)
      && sorted[k].0 in ToMap(d) && ToMap(d)[sorted[k].0] == sorted[k].1
    ensures Restrict(ToMap(d), Keys(sorted)) == ToMap(d)
  {
    SortedEntriesAgree(d, sorted);
    SortedEntriesCover(d, sorted);
  }

  lemma SortedEntriesAgree(d: Dict, sorted: Dict)
    requires EntriesWellFormed(d) && multiset(sorted) == multiset(d)
    ensures forall k | 0 <= k < |sorted| ::
      IsSegment(sorted[k].0) && BracketFree(sorted[k].1)
      && sorted[k].0 in ToMap(d) && ToMap(d)[sorted[k].0] == sorted[k].1
  {
    var m := ToMap(d);
    ToMapValues(d);
    forall k | 0 <= k < |sorted|
      ensures IsSegment(sorted[k].0) && BracketFree(sorted[k].1)
      ensures sorted[k].0 in m && m[sorted[k].0] == sorted[k].1
    {
      assert sorted[k] in multiset(d);
      var i :| 0 <= i < |d| && d[i] == sorted[k];
    }
  }

  lemma SortedEntriesCover(d: Dict, sorted: Dict)
    requires multiset(sorted) == multiset(d)
    ensures Restrict(ToMap(d), Keys(sorted)) == ToMap(d)
  {
    var m := ToMap(d);
    ToMapKeys(d);
    forall key | key in m ensures key in Keys(sorted) {
      var i :| 0 <= i < |d| && Keys(d)[i] == key;
      assert d[i] in multiset(sorted);
      var k :| 0 <= k < |sorted| && sorted[k] == d[i];
      assert Keys(sorted)[k] == key;
    }
  }

  /** Reinserting into a well-bracketed text decodes it through the whole dictionary. */
  lemma ReinsertDecodes(w: string, d: Dict)
    requires WB(w) && EntriesWellFormed(d)
    ensures Reinsert(w, d) == Decode(w, ToMap(d))
  {
    var sorted := SortDesc(d, KeyLength);
    SortedEntries(d, sorted);
    ApplyAllDecodes(w, sorted, ToMap(d));
  }

  /** Sanitizing and then reinserting gives the original text back, for a text without
      brackets and patterns that never match inside a token. */
  lemma ServerRoundTrip(text: string, categories: seq<string>, table: PatternTable)
    requires ValidTable(table) && AvoidsOpenBrackets(table) && BracketFree(text)
    ensures var b := Build(text, categories, table);
      Reinsert(b.sanitized, b.placeholderMap) == text
  {
    BuildKeeps(text, categories, table);
    var b := Build(text, categories, table);
    ReinsertDecodes(b.sanitized, b.placeholderMap);
  }

  /** Reinsertion leaves a text without brackets unchanged. */
  lemma ReinsertPlain(text: string, d: Dict)
    requires BracketFree(text) && EntriesWellFormed(d)
    ensures Reinsert(text, d) == text
  {
    BracketFreeWB(text, ToMap(d));
    ReinsertDecodes(text, d);
  }
}
