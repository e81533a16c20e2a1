/**
 * The audit log kept on the device: sanitisation records and receipts, newest
 * first, and their export as CSV. Every cell is quoted with inner quotes doubled
 * as section 2 of RFC 4180 prescribes (rules 5 to 7), but lines end in a bare
 * line feed rather than CRLF. The CSV is shown to be read back, by a reader of
 * that format, into the header and one row per entry.
 */
module LocalAudit {
  import opened Wrappers
  import opened Strings
  import opened Dicts

  datatype EntryType = TextEntry | ImageEntry

  /** A JavaScript object whose values are lists of strings (`{ textRules }`), in key order. */
  type PolicySnapshot = seq<(string, seq<string>)>

  datatype AuditEntry = AuditEntry(
    id: string,
    timestamp: string,
    entryType: EntryType,
    redactions: seq<string>,
    placeholders: Dict,
    policySnapshot: PolicySnapshot)

  datatype Receipt = Receipt(
    inputHash: string,
    timestamp: string,
    status: string,
    signature: string,
    keyVersion: string,
    ttlSeconds: int)

  /** `local_${Date.now()}_${suffix}`, the suffix being up to nine random base-36 digits. */
  function LocalId(now: nat, suffix: string): (id: string)
    ensures |id| > 6 && id[..6] == "local_"
  {
    "local_" + NatToString(now) + "_" + suffix
  }

  /** Different clock readings or suffixes give different ids: the decimal time cannot
      contain the `_` that ends it. */
  lemma LocalIdInjective(now1: nat, suffix1: string, now2: nat, suffix2: string)
    requires LocalId(now1, suffix1) == LocalId(now2, suffix2)
    ensures now1 == now2 && suffix1 == suffix2
  {
    var a, b := NatToString(now1), NatToString(now2);
    assert a + "_" + suffix1 == LocalId(now1, suffix1)[6..];
    assert b + "_" + suffix2 == LocalId(now2, suffix2)[6..];
    DigitsSeparatorInjective(a, suffix1, b, suffix2);
    NatToStringInjective(now1, now2);
  }

  /** Digits, `_`, rest: the digits and the rest can be read back. */
  lemma DigitsSeparatorInjective(a: string, s1: string, b: string, s2: string)
    requires forall i | 0 <= i < |a| :: '0' <= a[i] <= '9'
    requires forall i | 0 <= i < |b| :: '0' <= b[i] <= '9'
    requires a + "_" + s1 == b + "_" + s2
    ensures a == b && s1 == s2
  {
    var x := a + "_" + s1;
    DigitsThenSeparator(a, s1);
    DigitsThenSeparator(b, s2);
    assert |a| == |b|;
    assert x[..|a|] == a && x[..|b|] == b;
    assert x[|a| + 1..] == s1 && x[|b| + 1..] == s2;
  }

  /** The first `_` after a run of decimal digits is the one that ends it. */
  lemma DigitsThenSeparator(digits: string, rest: string)
    requires forall i | 0 <= i < |digits| :: '0' <= digits[i] <= '9'
    ensures Find(digits + "_" + rest, "_") == Some(|digits|)
  {
    var s := digits + "_" + rest;
    assert s[|digits|..|digits| + 1] == "_";
    forall j: nat | j < |digits| ensures !OccursAt(s, "_", j) {
      assert s[j..j + 1] == [digits[j]];
    }
    FindIs(s, "_", |digits|);
  }

  /** The two storage keys: their lists, newest first; a key never written reads as empty. */
  class LocalAuditLog {
    var entries: seq<AuditEntry>
    var receipts: seq<Receipt>

    constructor ()
      ensures entries == [] && receipts == []
    {
      entries := [];
      receipts := [];
    }

    /** The entry, given a fresh `local_` id, goes first; older entries keep their order. */
    method AddAuditEntry(entry: AuditEntry, now: nat, suffix: string)
      modifies this
      ensures entries == [entry.(id := LocalId(now, suffix))] + old(entries)
      ensures receipts == old(receipts)
    {
      var newEntry := entry.(id := LocalId(now, suffix));
      entries := [newEntry] + entries;
    }

    /** The receipt goes first; earlier receipts keep their order. */
    method AddReceipt(receipt: Receipt)
      modifies this
      ensures receipts == [receipt] + old(receipts)
      ensures entries == old(entries)
    {
      receipts := [receipt] + receipts;
    }
  }

  // ---------------------------------------------------------------------
  // CSV export

  const Headers: seq<string> := ["ID", "Timestamp", "Type", "Redactions", "Placeholders", "Policy"]

  function TypeName(t: EntryType): string {
    match t
    case TextEntry => "text"
    case ImageEntry => "image"
  }

  /** The six cells of an entry; the two objects are rendered by `JSON.stringify`,
      passed in as `objectJson` and `policyJson`. */
  function Cells(e: AuditEntry, objectJson: Dict -> string, policyJson: PolicySnapshot -> string): seq<string> {
    [e.id, e.timestamp, TypeName(e.entryType), Join(e.redactions, "; "),
     objectJson(e.placeholders), policyJson(e.policySnapshot)]
  }

  /** `cell.replace(/"/g, '""')`. */
  function Escape(cell: string): (r: string)
    ensures |r| >= |cell|
    decreases |cell|
  {
    if cell == [] then []
    else (if cell[0] == '"' then "\"\"" else [cell[0]]) + Escape(cell[1..])
  }

  /** A cell between double quotes, inner quotes doubled. */
  function Quote(cell: string): string {
    "\"" + Escape(cell) + "\""
  }

  function Quotes(cells: seq<string>): (r: seq<string>)
    ensures |r| == |cells|
  {
    seq(|cells|, i requires 0 <= i < |cells| => Quote(cells[i]))
  }

  /** One CSV line: the quoted cells joined with commas. */
  function Line(cells: seq<string>): string {
    Join(Quotes(cells), ",")
  }

  function Lines(rows: seq<seq<string>>): (r: seq<string>)
    ensures |r| == |rows|
  {
    seq(|rows|, i requires 0 <= i < |rows| => Line(rows[i]))
  }

  /** The rows of the export: the header, then one row per entry in log order. */
  function Rows(entries: seq<AuditEntry>, objectJson: Dict -> string, policyJson: PolicySnapshot -> string)
    : (rows: seq<seq<string>>)
    ensures |rows| == |entries| + 1 && rows[0] == Headers
    ensures forall i | 0 <= i < |entries| :: rows[i + 1] == Cells(entries[i], objectJson, policyJson)
  {
    [Headers] + seq(|entries|, i requires 0 <= i < |entries| => Cells(entries[i], objectJson, policyJson))
  }

  /** `generateAuditCSV`: the lines of the rows joined with line feeds. */
  function GenerateAuditCSV(entries: seq<AuditEntry>, objectJson: Dict -> string,
                            policyJson: PolicySnapshot -> string): string
  {
    Join(Lines(Rows(entries, objectJson, policyJson)), "\n")
  }

  // ---------------------------------------------------------------------
  // Reading the CSV back

  /** Collapses each doubled quote into one (the inverse of `Escape`). */
  function Unescape(s: string): string
    decreases |s|
  {
    if s == [] then []
    else if |s| >= 2 && s[0] == '"' && s[1] == '"' then "\"" + Unescape(s[2..])
    else [s[0]] + Unescape(s[1..])
  }

  /** Strips the outer quotes of a quoted cell and collapses the doubled ones inside. */
  function Unquote(q: string): string {
    if |q| >= 2 then Unescape(q[1..|q| - 1]) else q
  }

  lemma {:induction false} UnescapeEscape(cell: string)
    ensures Unescape(Escape(cell)) == cell
    decreases |cell|
  {
    if cell != [] {
      UnescapeEscape(cell[1..]);
      var e := Escape(cell[1..]);
      if cell[0] == '"' {
        assert ("\"\"" + e)[2..] == e;
      } else {
        assert ([cell[0]] + e)[1..] == e;
      }
    }
  }

  /** Stripping the quotes and collapsing the doubled ones gives the cell back. */
  lemma UnquoteQuote(cell: string)
    ensures Unquote(Quote(cell)) == cell
  {
    var q := Quote(cell);
    assert q[1..|q| - 1] == Escape(cell);
    UnescapeEscape(cell);
  }

  function Prepend(c: char, r: Option<(string, string)>): Option<(string, string)> {
    match r
    case None => None
    case Some((cell, rest)) => Some(([c] + cell, rest))
  }

  /** The body of a quoted cell, after its opening quote: the cell and what follows its
      closing quote; `None` when the closing quote is missing. */
  function ReadQuoted(s: string): (r: Option<(string, string)>)
    ensures r.Some? ==> |r.value.1| < |s|
    decreases |s|
  {
    if s == [] then None
    else if s[0] == '"' then
      if |s| >= 2 && s[1] == '"' then Prepend('"', ReadQuoted(s[2..])) else Some(("", s[1..]))
    else Prepend(s[0], ReadQuoted(s[1..]))
  }

  function ReadCell(s: string): (r: Option<(string, string)>)
    ensures r.Some? ==> |r.value.1| < |s|
  {
    if s != [] && s[0] == '"' then ReadQuoted(s[1..]) else None
  }

  /** The cells of one line, separated by commas, and what follows the line. */
  function ReadLine(s: string): (r: Option<(seq<string>, string)>)
    ensures r.Some? ==> |r.value.1| < |s|
    decreases |s|
  {
    match ReadCell(s)
    case None => None
    case Some((cell, rest)) =>
      if rest != [] && rest[0] == ',' then
        match ReadLine(rest[1..])
        case None => None
        case Some((cells, after)) => Some(([cell] + cells, after))
      else Some(([cell], rest))
  }

  /** A whole document of quoted cells: lines separated by line feeds. */
  function ReadCSV(s: string): Option<seq<seq<string>>>
    decreases |s|
  {
    match ReadLine(s)
    case None => None
    case Some((cells, rest)) =>
      if rest == [] then Some([cells])
      else if rest[0] == '\n' then
        match ReadCSV(rest[1..])
        case None => None
        case Some(rows) => Some([cells] + rows)
      else None
  }

  /** An escaped cell followed by the closing quote reads back as the cell, as long as the
      next character is not another quote. */
  lemma {:induction false} ReadEscaped(cell: string, rest: string)
    requires rest == [] || rest[0] != '"'
    ensures ReadQuoted(Escape(cell) + "\"" + rest) == Some((cell, rest))
    decreases |cell|
  {
    var s := Escape(cell) + "\"" + rest;
    if cell == [] {
      assert s == "\"" + rest;
      assert s[1..] == rest;
    } else {
      var tail := Escape(cell[1..]) + "\"" + rest;
      ReadEscaped(cell[1..], rest);
      if cell[0] == '"' {
        assert s == "\"\"" + tail;
        assert s[2..] == tail;
      } else {
        assert s == [cell[0]] + tail;
        assert s[1..] == tail;
      }
      assert [cell[0]] + cell[1..] == cell;
    }
  }

  lemma ReadQuote(cell: string, rest: string)
    requires rest == [] || rest[0] != '"'
    ensures ReadCell(Quote(cell) + rest) == Some((cell, rest))
  {
    var s := Quote(cell) + rest;
    assert s == "\"" + (Escape(cell) + "\"" + rest);
    assert s[1..] == Escape(cell) + "\"" + rest;
    ReadEscaped(cell, rest);
  }

  /** A line reads back as its cells when what follows it cannot continue it. */
  lemma {:induction false} ReadLineOf(cells: seq<string>, rest: string)
    requires cells != []
    requires rest == [] || (rest[0] != ',' && rest[0] != '"')
    ensures ReadLine(Line(cells) + rest) == Some((cells, rest))
    decreases |cells|
  {
    var q := Quotes(cells);
    if |cells| == 1 {
      assert Line(cells) == Quote(cells[0]);
      ReadQuote(cells[0], rest);
      assert [cells[0]] == cells;
    } else {
      assert q[1..] == Quotes(cells[1..]);
      var tail := Line(cells[1..]) + rest;
      assert Line(cells) + rest == Quote(cells[0]) + ("," + tail);
      ReadQuote(cells[0], "," + tail);
      assert ("," + tail)[1..] == tail;
      ReadLineOf(cells[1..], rest);
      assert [cells[0]] + cells[1..] == cells;
    }
  }

  /** Rows of at least one cell each, written as lines, read back as the same rows. */
  lemma {:induction false} ReadLines(rows: seq<seq<string>>)
    requires rows != [] && forall i | 0 <= i < |rows| :: rows[i] != []
    ensures ReadCSV(Join(Lines(rows), "\n")) == Some(rows)
    decreases |rows|
  {
    var ls := Lines(rows);
    if |rows| == 1 {
      assert Join(ls, "\n") == Line(rows[0]) + "";
      ReadLineOf(rows[0], "");
      assert [rows[0]] == rows;
    } else {
      assert ls[1..] == Lines(rows[1..]);
      var tail := Join(Lines(rows[1..]), "\n");
      assert Join(ls, "\n") == Line(rows[0]) + ("\n" + tail);
      ReadLineOf(rows[0], "\n" + tail);
      assert ("\n" + tail)[1..] == tail;
      ReadLines(rows[1..]);
      assert [rows[0]] + rows[1..] == rows;
    }
  }

  /** The export reads back as the header followed by one row per entry, in log order,
      every cell intact (the redactions joined with "; "). With no entries it is the
      header line alone. */
  lemma CSVRoundTrip(entries: seq<AuditEntry>, objectJson: Dict -> string, policyJson: PolicySnapshot -> string)
    ensures ReadCSV(GenerateAuditCSV(entries, objectJson, policyJson)) == Some(Rows(entries, objectJson, policyJson))
    ensures entries == [] ==> GenerateAuditCSV(entries, objectJson, policyJson) == Line(Headers)
  {
    ReadLines(Rows(entries, objectJson, policyJson));
  }
}
