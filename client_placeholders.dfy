/**
 * The mobile client's placeholder engine (`buildPlaceholders`,
 * `reinsertPlaceholders`): every match of a selected category's pattern in
 * the original text is given a record `[CATEGORY_n]` / original / category,
 * numbered from 1 per category, and the first occurrence of the matched
 * text in the sanitized text is replaced by the token. Reinsertion sorts
 * the records longest token first and replaces the first occurrence of
 * each token by its original.
 */
module ClientPlaceholders {
  import opened Strings
  import opened Brackets
  import opened Matching
  import opened Sorting

  datatype PlaceholderInfo = PlaceholderInfo(placeholder: string, original: string, category: string)

  datatype Sanitized = Sanitized(sanitized: string, placeholders: seq<PlaceholderInfo>)

  /** The categories the client has a pattern for. */
  const ClientCategories: set<string> := {"EMAIL", "PHONE", "ADDRESS", "NAME"}

  // ---------------------------------------------------------------------
  // Specification

  /** The records of one category: the k-th match (0-based) becomes `[category_(k+1)]`. */
  function CategoryRecords(text: string, category: string, spans: seq<Span>): seq<PlaceholderInfo>
    requires SpansIn(text, spans)
  {
    seq(|spans|, k requires 0 <= k < |spans| =>
      PlaceholderInfo(Token(category, k + 1), Text(text, spans[k]), category))
  }

  /** The records of every category, in the order the categories are given; a category
      without a pattern contributes nothing. */
  function Records(text: string, categories: seq<string>, table: PatternTable): seq<PlaceholderInfo>
    requires ValidTable(table)
    decreases |categories|
  {
    if categories == [] then []
    else
      var c := categories[|categories| - 1];
      Records(text, categories[..|categories| - 1], table)
        + (if c in table then CategoryRecords(text, c, table[c](text)) else [])
  }

  /** The sanitized text: the records' replacements applied in record order. */
  function ApplyRecords(text: string, recs: seq<PlaceholderInfo>): string
    decreases |recs|
  {
    if recs == [] then text
    else
      var r := recs[|recs| - 1];
      ReplaceFirst(ApplyRecords(text, recs[..|recs| - 1]), r.original, r.placeholder)
  }

  function Build(text: string, categories: seq<string>, table: PatternTable): Sanitized
    requires ValidTable(table)
  {
    var recs := Records(text, categories, table);
    Sanitized(ApplyRecords(text, recs), recs)
  }

  function TokenLength(p: PlaceholderInfo): nat { |p.placeholder| }

  /** Replacements of tokens by originals, applied front to back. */
  function ApplyReinsert(text: string, sorted: seq<PlaceholderInfo>): string
    decreases |sorted|
  {
    if sorted == [] then text
    else ApplyReinsert(ReplaceFirst(text, sorted[0].placeholder, sorted[0].original), sorted[1..])
  }

  function Reinsert(text: string, placeholders: seq<PlaceholderInfo>): string {
    ApplyReinsert(text, SortDesc(placeholders, TokenLength))
  }

  // ---------------------------------------------------------------------
  // The two operations as the client runs them

  method BuildPlaceholders(text: string, categories: seq<string>, table: PatternTable)
    returns (result: Sanitized)
    requires ValidTable(table)
    ensures result == Build(text, categories, table)
  {
    var placeholders: seq<PlaceholderInfo> := [];
    var sanitized := text;
    for i := 0 to |categories|
      invariant placeholders == Records(text, categories[..i], table)
      invariant sanitized == ApplyRecords(text, placeholders)
    {
      var category := categories[i];
      RecordsSnoc(text, categories, table, i);
      if category !in table {
        continue;
      }
      var spans := table[category](text);
      placeholders, sanitized := AddMatches(text, category, spans, placeholders, sanitized);
    }
    assert categories[..|categories|] == categories;
    result := Sanitized(sanitized, placeholders);
  }

  /** The inner loop of `buildPlaceholders`: one record per match of `category`,
      numbered from 1, each replacing the first occurrence of its match text. */
  method AddMatches(text: string, category: string, spans: seq<Span>,
                    placeholders0: seq<PlaceholderInfo>, sanitized0: string)
    returns (placeholders: seq<PlaceholderInfo>, sanitized: string)
    requires SpansIn(text, spans)
    requires sanitized0 == ApplyRecords(text, placeholders0)
    ensures placeholders == placeholders0 + CategoryRecords(text, category, spans)
    ensures sanitized == ApplyRecords(text, placeholders)
  {
    placeholders, sanitized := placeholders0, sanitized0;
    var count := 1;
    var j := 0;
    while j < |spans|
      invariant 0 <= j <= |spans| && count == j + 1
      invariant placeholders == placeholders0 + CategoryRecords(text, category, spans[..j])
      invariant sanitized == ApplyRecords(text, placeholders)
    {
      var placeholder := Token(category, count);
      var original := Text(text, spans[j]);
      var info := PlaceholderInfo(placeholder, original, category);
      CategoryRecordsSnoc(text, category, spans, j);
      ApplyRecordsSnoc(text, placeholders, info);
      placeholders := placeholders + [info];
      sanitized := ReplaceFirst(sanitized, original, placeholder);
      count := count + 1;
      j := j + 1;
    }
    assert spans[..j] == spans;
  }

  lemma RecordsSnoc(text: string, categories: seq<string>, table: PatternTable, i: nat)
    requires ValidTable(table) && i < |categories|
    ensures Records(text, categories[..i + 1], table) == Records(text, categories[..i], table)
      + (if categories[i] in table then CategoryRecords(text, categories[i], table[categories[i]](text)) else [])
  {
    assert categories[..i + 1][..i] == categories[..i];
  }

  lemma CategoryRecordsSnoc(text: string, category: string, spans: seq<Span>, j: nat)
    requires SpansIn(text, spans) && j < |spans|
    ensures CategoryRecords(text, category, spans[..j + 1])
      == CategoryRecords(text, category, spans[..j]) + [PlaceholderInfo(Token(category, j + 1), Text(text, spans[j]), category)]
  {
  }

  lemma ApplyRecordsSnoc(text: string, recs: seq<PlaceholderInfo>, info: PlaceholderInfo)
    ensures ApplyRecords(text, recs + [info]) == ReplaceFirst(ApplyRecords(text, recs), info.original, info.placeholder)
  {
    assert (recs + [info])[..|recs|] == recs;
  }

  method ReinsertPlaceholders(text: string, placeholders: seq<PlaceholderInfo>) returns (result: string)
    ensures result == Reinsert(text, placeholders)
  {
    var sorted := SortDesc(placeholders, TokenLength);
    result := text;
    for i := 0 to |sorted|
      invariant ApplyReinsert(result, sorted[i..]) == Reinsert(text, placeholders)
    {
      result := ReplaceFirst(result, sorted[i].placeholder, sorted[i].original);
      assert sorted[i..][1..] == sorted[i + 1..];
    }
  }

  // ---------------------------------------------------------------------
  // What the records look like

  /** Each record's token is a segment and its original a non-empty, bracket-free text. */
  predicate RecordsWellFormed(recs: seq<PlaceholderInfo>) {
    forall k | 0 <= k < |recs| ::
      IsSegment(recs[k].placeholder) && BracketFree(recs[k].original) && |recs[k].original| > 0
  }

  predicate DistinctPlaceholders(recs: seq<PlaceholderInfo>) {
    forall i, j | 0 <= i < j < |recs| :: recs[i].placeholder != recs[j].placeholder
  }

  /** No matched text occurs inside any token (a six-digit number could, inside
      `[PHONE_123456]`, once a category has that many matches). */
  predicate OriginalsOutsideTokens(recs: seq<PlaceholderInfo>) {
    forall i, j | 0 <= i < |recs| && 0 <= j < |recs| :: !IsInfix(recs[i].original, recs[j].placeholder)
  }

  /** Every record belongs to a requested category that has a pattern, carries a
      `[category_n]` token and a non-empty match of that pattern. */
  lemma {:induction false} RecordsShape(text: string, categories: seq<string>, table: PatternTable)
    requires ValidTable(table)
    ensures var recs := Records(text, categories, table);
      RecordsWellFormed(recs)
      && forall k | 0 <= k < |recs| ::
        recs[k].category in categories && recs[k].category in table
        && exists n: nat :: 1 <= n && recs[k].placeholder == Token(recs[k].category, n)
    decreases |categories|
  {
    if categories != [] {
      var init := categories[..|categories| - 1];
      var c := categories[|categories| - 1];
      RecordsShape(text, init, table);
      var recs := Records(text, categories, table);
      var a := Records(text, init, table);
      forall k | 0 <= k < |recs|
        ensures IsSegment(recs[k].placeholder) && BracketFree(recs[k].original) && |recs[k].original| > 0
        ensures recs[k].category in categories && recs[k].category in table
        ensures exists n: nat :: 1 <= n && recs[k].placeholder == Token(recs[k].category, n)
      {
        if k < |a| {
          assert recs[k] == a[k];
          assert a[k].category in init;
        } else {
          var spans := table[c](text);
          var i := k - |a|;
          assert recs[k] == PlaceholderInfo(Token(c, i + 1), Text(text, spans[i]), c);
          TokenIsSegment(c, i + 1);
        }
      }
    }
  }

  /** With no category asked for twice, no two records share a token. */
  lemma {:induction false} RecordsDistinct(text: string, categories: seq<string>, table: PatternTable)
    requires ValidTable(table) && NoDuplicates(categories)
    ensures DistinctPlaceholders(Records(text, categories, table))
    decreases |categories|
  {
    if categories != [] {
      var init := categories[..|categories| - 1];
      var c := categories[|categories| - 1];
      RecordsDistinct(text, init, table);
      RecordsShape(text, init, table);
      var a := Records(text, init, table);
      assert c !in init by {
        forall i | 0 <= i < |init| ensures init[i] != c {
          assert init[i] == categories[i];
        }
      }
      if c in table {
        var b := CategoryRecords(text, c, table[c](text));
        DistinctAppend(a, b, c);
      } else {
        assert a + [] == a;
      }
    }
  }

  /** Records of earlier categories followed by the records of a new category `c`. */
  lemma DistinctAppend(a: seq<PlaceholderInfo>, b: seq<PlaceholderInfo>, c: string)
    requires DistinctPlaceholders(a)
    requires forall k | 0 <= k < |a| ::
      a[k].category != c && exists n: nat :: 1 <= n && a[k].placeholder == Token(a[k].category, n)
    requires forall k | 0 <= k < |b| :: b[k].placeholder == Token(c, k + 1)
    ensures DistinctPlaceholders(a + b)
  {
    var recs := a + b;
    forall i, j | 0 <= i < j < |recs| ensures recs[i].placeholder != recs[j].placeholder {
      if j >= |a| {
        assert recs[j] == b[j - |a|];
        if i >= |a| {
          assert recs[i] == b[i - |a|];
          if recs[i].placeholder == recs[j].placeholder {
            TokenInjective(c, i - |a| + 1, c, j - |a| + 1);
          }
        } else {
          assert recs[i] == a[i];
          var n: nat :| 1 <= n && a[i].placeholder == Token(a[i].category, n);
          if recs[i].placeholder == recs[j].placeholder {
            TokenInjective(a[i].category, n, c, j - |a| + 1);
          }
        }
      } else {
        assert recs[i] == a[i] && recs[j] == a[j];
      }
    }
  }

  /** Categories the table has no pattern for are skipped: text unchanged, no records. */
  lemma {:induction false} UnknownCategoriesSkipped(text: string, categories: seq<string>, table: PatternTable)
    requires ValidTable(table)
    requires forall i | 0 <= i < |categories| :: categories[i] !in table
    ensures Build(text, categories, table) == Sanitized(text, [])
    decreases |categories|
  {
    if categories != [] {
      UnknownCategoriesSkipped(text, categories[..|categories| - 1], table);
    }
  }

  /** `GPS` is offered as a text rule but the client has no pattern for it. */
  lemma GpsIgnoredByClient(text: string, table: PatternTable)
    requires ValidTable(table) && table.Keys == ClientCategories
    ensures Build(text, ["GPS"], table) == Sanitized(text, [])
  {
    UnknownCategoriesSkipped(text, ["GPS"], table);
  }

  // ---------------------------------------------------------------------
  // Round trip

  function Placeholders(recs: seq<PlaceholderInfo>): (ps: seq<string>)
    ensures |ps| == |recs|
    ensures forall k | 0 <= k < |recs| :: ps[k] == recs[k].placeholder
  {
    seq(|recs|, k requires 0 <= k < |recs| => recs[k].placeholder)
  }

  /** The token-to-original table the records describe (a later record wins). */
  function RecordMap(recs: seq<PlaceholderInfo>): map<string, string>
    decreases |recs|
  {
    if recs == [] then map[]
    else
      var r := recs[|recs| - 1];
      RecordMap(recs[..|recs| - 1])[r.placeholder := r.original]
  }

  lemma {:induction false} RecordMapKeys(recs: seq<PlaceholderInfo>)
    ensures forall k :: k in RecordMap(recs) <==> k in Placeholders(recs)
    decreases |recs|
  {
    if recs != [] {
      var init := recs[..|recs| - 1];
      RecordMapKeys(init);
      assert Placeholders(recs) == Placeholders(init) + [recs[|recs| - 1].placeholder];
    }
  }

  lemma {:induction false} RecordMapValues(recs: seq<PlaceholderInfo>)
    requires DistinctPlaceholders(recs)
    ensures forall i | 0 <= i < |recs| ::
      recs[i].placeholder in RecordMap(recs) && RecordMap(recs)[recs[i].placeholder] == recs[i].original
    decreases |recs|
  {
    if recs != [] {
      var init := recs[..|recs| - 1];
      RecordMapValues(init);
    }
  }

  /** Building keeps the decoding of the sanitized text equal to the original text:
      after `j` records, decoding with the first `j` records' table gives `text` back,
      every token in the text is one of theirs and none occurs twice. */
  lemma {:induction false} BuildDecodes(text: string, recs: seq<PlaceholderInfo>, j: nat)
    requires BracketFree(text) && RecordsWellFormed(recs)
    requires DistinctPlaceholders(recs) && OriginalsOutsideTokens(recs)
    requires j <= |recs|
    ensures WB(ApplyRecords(text, recs[..j]))
    ensures Decode(ApplyRecords(text, recs[..j]), RecordMap(recs[..j])) == text
    ensures forall t | t in Segments(ApplyRecords(text, recs[..j])) :: t in RecordMap(recs[..j])
    ensures forall t :: multiset(Segments(ApplyRecords(text, recs[..j])))[t] <= 1
    decreases j
  {
    if j == 0 {
      assert recs[..0] == [];
      BracketFreeWB(text, map[]);
    } else {
      BuildDecodes(text, recs, j - 1);
      var prefix := recs[..j - 1];
      var r := recs[j - 1];
      var w := ApplyRecords(text, prefix);
      var m := RecordMap(prefix);
      NextRecordFresh(text, recs, j - 1);
      BuildStep(w, m, r.original, r.placeholder);
      var full := recs[..j];
      assert full[..j - 1] == prefix && full[j - 1] == r;
      assert ApplyRecords(text, full) == ReplaceFirst(w, r.original, r.placeholder);
      assert RecordMap(full) == m[r.placeholder := r.original];
    }
  }

  /** The next record's token is not yet in the table, and its text occurs in no token
      already in the sanitized text. */
  lemma NextRecordFresh(text: string, recs: seq<PlaceholderInfo>, k: nat)
    requires k < |recs| && DistinctPlaceholders(recs) && OriginalsOutsideTokens(recs)
    requires forall t | t in Segments(ApplyRecords(text, recs[..k])) :: t in RecordMap(recs[..k])
    ensures recs[k].placeholder !in RecordMap(recs[..k])
    ensures forall t | t in Segments(ApplyRecords(text, recs[..k])) :: !IsInfix(recs[k].original, t)
  {
    var prefix := recs[..k];
    var r := recs[k];
    RecordMapKeys(prefix);
    assert r.placeholder !in RecordMap(prefix) by {
      forall i | 0 <= i < |prefix| ensures Placeholders(prefix)[i] != r.placeholder {
        assert prefix[i] == recs[i];
      }
    }
    forall t | t in Segments(ApplyRecords(text, prefix)) ensures !IsInfix(r.original, t) {
      assert t in Placeholders(prefix);
      var i :| 0 <= i < |prefix| && Placeholders(prefix)[i] == t;
      assert prefix[i] == recs[i];
    }
  }

  /** One record: a fresh token for a plain text that occurs outside every token. */
  lemma BuildStep(w: string, m: map<string, string>, x: string, tok: string)
    requires WB(w) && BracketFree(x) && |x| > 0 && IsSegment(tok) && tok !in m
    requires forall t | t in Segments(w) :: t in m && !IsInfix(x, t)
    requires forall t :: multiset(Segments(w))[t] <= 1
    ensures WB(ReplaceFirst(w, x, tok))
    ensures Decode(ReplaceFirst(w, x, tok), m[tok := x]) == Decode(w, m)
    ensures forall t | t in Segments(ReplaceFirst(w, x, tok)) :: t in m[tok := x]
    ensures forall t :: multiset(Segments(ReplaceFirst(w, x, tok)))[t] <= 1
  {
    var m' := m[tok := x];
    ReplaceTextDecode(w, x, tok, m, m');
    var w' := ReplaceFirst(w, x, tok);
    assert multiset(Segments(w))[tok] == 0;
    forall t ensures multiset(Segments(w'))[t] <= 1 {
      assert multiset(Segments(w'))[t] <= (multiset(Segments(w)) + multiset{tok})[t];
    }
    forall t | t in Segments(w') ensures t in m' {
      assert t in multiset(Segments(w'));
    }
  }

  /** Reinsertion, in any order, decodes with the table restricted to the tokens it
      reinserts, provided no token occurs twice. */
  lemma {:induction false} ReinsertDecodes(w: string, sorted: seq<PlaceholderInfo>, m: map<string, string>)
    requires WB(w) && forall t :: multiset(Segments(w))[t] <= 1
    requires forall k | 0 <= k < |sorted| ::
      IsSegment(sorted[k].placeholder) && BracketFree(sorted[k].original)
      && sorted[k].placeholder in m && m[sorted[k].placeholder] == sorted[k].original
    ensures ApplyReinsert(w, sorted) == Decode(w, Restrict(m, Placeholders(sorted)))
    decreases |sorted|
  {
    if sorted == [] {
      assert Restrict(m, []) == map[];
      DecodeEmpty(w);
    } else {
      var r := sorted[0];
      var rest := sorted[1..];
      var w' := ReplaceFirst(w, r.placeholder, r.original);
      var restricted := Restrict(m, Placeholders(rest));
      ReplaceTokenFirstDecode(w, r.placeholder, r.original, restricted);
      DroppedStaysSingle(Segments(w), Segments(w'), r.placeholder);
      assert forall k | 0 <= k < |rest| :: rest[k] == sorted[k + 1];
      ReinsertDecodes(w', rest, m);
      RestrictCons(m, sorted);
    }
  }

  lemma DroppedStaysSingle(a: seq<string>, b: seq<string>, tok: string)
    requires forall t :: multiset(a)[t] <= 1
    requires multiset(b) == multiset(a)[tok := 0]
    ensures forall t :: multiset(b)[t] <= 1
  {
    forall t ensures multiset(b)[t] <= 1 {
      assert multiset(b)[t] <= multiset(a)[t];
    }
  }

  /** The table restricted to the first record's token and the rest's tokens. */
  lemma RestrictCons(m: map<string, string>, sorted: seq<PlaceholderInfo>)
    requires sorted != [] && sorted[0].placeholder in m && m[sorted[0].placeholder] == sorted[0].original
    ensures Restrict(m, Placeholders(sorted[1..]))[sorted[0].placeholder := sorted[0].original]
            == Restrict(m, Placeholders(sorted))
  {
    assert Placeholders(sorted) == [sorted[0].placeholder] + Placeholders(sorted[1..]);
  }

  /** Sanitizing and then reinserting gives the original text back, when the text holds
      no brackets, no category is asked for twice and no match text occurs inside a token. */
  lemma ClientRoundTrip(text: string, categories: seq<string>, table: PatternTable)
    requires ValidTable(table) && BracketFree(text) && NoDuplicates(categories)
    requires OriginalsOutsideTokens(Records(text, categories, table))
    ensures var b := Build(text, categories, table);
      Reinsert(b.sanitized, b.placeholders) == text
  {
    var recs := Records(text, categories, table);
    RecordsShape(text, categories, table);
    RecordsDistinct(text, categories, table);
    RoundTripRecords(text, recs);
  }

  /** The round trip for any list of records meeting the conditions above. */
  lemma RoundTripRecords(text: string, recs: seq<PlaceholderInfo>)
    requires BracketFree(text) && RecordsWellFormed(recs)
    requires DistinctPlaceholders(recs) && OriginalsOutsideTokens(recs)
    ensures Reinsert(ApplyRecords(text, recs), recs) == text
  {
    BuildDecodes(text, recs, |recs|);
    assert recs[..|recs|] == recs;
    var sorted := SortDesc(recs, TokenLength);
    SortedRecords(recs, sorted);
    ReinsertDecodes(ApplyRecords(text, recs), sorted, RecordMap(recs));
  }

  /** A permutation of distinct, well-formed records reinserts exactly their table. */
  lemma SortedRecords(recs: seq<PlaceholderInfo>, sorted: seq<PlaceholderInfo>)
    requires RecordsWellFormed(recs) && DistinctPlaceholders(recs)
    requires multiset(sorted) == multiset(recs)
    ensures forall k | 0 <= k < |sorted| ::
      IsSegment(sorted[k].placeholder) && BracketFree(sorted[k].original)
      && sorted[k].placeholder in RecordMap(recs) && RecordMap(recs)[sorted[k].placeholder] == sorted[k].original
    ensures Restrict(RecordMap(recs), Placeholders(sorted)) == RecordMap(recs)
  {
    SortedRecordsAgree(recs, sorted);
    SortedRecordsCover(recs, sorted);
  }

  /** Each record of the permutation is a well-formed entry of the table. */
  lemma SortedRecordsAgree(recs: seq<PlaceholderInfo>, sorted: seq<PlaceholderInfo>)
    requires RecordsWellFormed(recs) && DistinctPlaceholders(recs)
    requires multiset(sorted) == multiset(recs)
    ensures forall k | 0 <= k < |sorted| ::
      IsSegment(sorted[k].placeholder) && BracketFree(sorted[k].original)
      && sorted[k].placeholder in RecordMap(recs) && RecordMap(recs)[sorted[k].placeholder] == sorted[k].original
  {
    var m := RecordMap(recs);
    RecordMapValues(recs);
    forall k | 0 <= k < |sorted|
      ensures IsSegment(sorted[k].placeholder) && BracketFree(sorted[k].original)
      ensures sorted[k].placeholder in m && m[sorted[k].placeholder] == sorted[k].original
    {
      assert sorted[k] in multiset(recs);
      var i :| 0 <= i < |recs| && recs[i] == sorted[k];
    }
  }

  /** Every token of the table has a record in the permutation. */
  lemma SortedRecordsCover(recs: seq<PlaceholderInfo>, sorted: seq<PlaceholderInfo>)
    requires multiset(sorted) == multiset(recs)
    ensures Restrict(RecordMap(recs), Placeholders(sorted)) == RecordMap(recs)
  {
    var m := RecordMap(recs);
    RecordMapKeys(recs);
    forall key | key in m ensures key in Placeholders(sorted) {
      var i :| 0 <= i < |recs| && Placeholders(recs)[i] == key;
      assert recs[i] in multiset(sorted);
      var k :| 0 <= k < |sorted| && sorted[k] == recs[i];
      assert Placeholders(sorted)[k] == key;
    }
  }

  /** Reinsertion leaves a text in which no token occurs unchanged. */
  lemma ReinsertNoToken(text: string, placeholders: seq<PlaceholderInfo>)
    requires forall k | 0 <= k < |placeholders| :: !IsInfix(placeholders[k].placeholder, text)
    ensures Reinsert(text, placeholders) == text
  {
    var sorted := SortDesc(placeholders, TokenLength);
    forall k | 0 <= k < |sorted| ensures !IsInfix(sorted[k].placeholder, text) {
      assert sorted[k] in multiset(placeholders);
      var i :| 0 <= i < |placeholders| && placeholders[i] == sorted[k];
    }
    ApplyReinsertNoToken(text, sorted);
  }

  lemma {:induction false} ApplyReinsertNoToken(text: string, sorted: seq<PlaceholderInfo>)
    requires forall k | 0 <= k < |sorted| :: !IsInfix(sorted[k].placeholder, text)
    ensures ApplyReinsert(text, sorted) == text
    decreases |sorted|
  {
    if sorted != [] {
      ReplaceFirstSpec(text, sorted[0].placeholder, sorted[0].original);
      assert Find(text, sorted[0].placeholder).None?;
      assert forall k | 0 <= k < |sorted[1..]| :: sorted[1..][k] == sorted[k + 1];
      ApplyReinsertNoToken(text, sorted[1..]);
    }
  }
}
