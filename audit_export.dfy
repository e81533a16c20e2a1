/**
 * The server's audit table: how `append_audit_entry` fills a row from a loosely
 * typed entry (absent fields take defaults), and how `export_csv` builds its
 * parameterised query from the optional `from`/`to` bounds and defaults the
 * NULL columns of the rows it writes out.
 */
module AuditExport {
  import opened Wrappers
  import opened Strings

  /** A JSON-like Python value, as an entry of `Dict[str, Any]` may hold. */
  datatype Json =
    | JNull
    | JBool(b: bool)
    | JInt(i: int)
    | JStr(s: string)
    | JArray(items: seq<Json>)
    | JObject(entries: seq<(string, Json)>)

  type Entry = map<string, Json>

  /** Python `d.get(key, default)`: the stored value whenever the key is present, even `None`. */
  function Get(entry: Entry, key: string, default: Json): (v: Json)
    ensures key in entry ==> v == entry[key]
    ensures key !in entry ==> v == default
  {
    if key in entry then entry[key] else default
  }

  /** The values bound to the six placeholders of the INSERT. The last four go through
      `json.dumps`, passed in as `dumps`; `nowIso` is `datetime.utcnow().isoformat()`. */
  datatype InsertedRow = InsertedRow(
    requestId: Json,
    ts: Json,
    textRedactions: string,
    imageMasks: string,
    placeholdersUsed: string,
    policySnapshot: string)

  function RowOf(entry: Entry, nowIso: string, dumps: Json -> string): InsertedRow {
    InsertedRow(
      Get(entry, "request_id", JNull),
      Get(entry, "ts", JStr(nowIso + "Z")),
      dumps(Get(entry, "text_redactions", JArray([]))),
      dumps(Get(entry, "image_masks", JArray([]))),
      dumps(Get(entry, "placeholders_used", JObject([]))),
      dumps(Get(entry, "policy_snapshot", JObject([]))))
  }

  /** An absent field takes its default (no request id, the current time, empty lists and
      objects); a present one is stored as given. */
  lemma RowDefaults(entry: Entry, nowIso: string, dumps: Json -> string)
    ensures var row := RowOf(entry, nowIso, dumps);
      ("request_id" !in entry ==> row.requestId == JNull)
      && ("ts" !in entry ==> row.ts == JStr(nowIso + "Z"))
      && ("text_redactions" !in entry ==> row.textRedactions == dumps(JArray([])))
      && ("image_masks" !in entry ==> row.imageMasks == dumps(JArray([])))
      && ("placeholders_used" !in entry ==> row.placeholdersUsed == dumps(JObject([])))
      && ("policy_snapshot" !in entry ==> row.policySnapshot == dumps(JObject([])))
      && ("request_id" in entry ==> row.requestId == entry["request_id"])
      && ("ts" in entry ==> row.ts == entry["ts"])
      && ("text_redactions" in entry ==> row.textRedactions == dumps(entry["text_redactions"]))
      && ("image_masks" in entry ==> row.imageMasks == dumps(entry["image_masks"]))
      && ("placeholders_used" in entry ==> row.placeholdersUsed == dumps(entry["placeholders_used"]))
      && ("policy_snapshot" in entry ==> row.policySnapshot == dumps(entry["policy_snapshot"]))
  {
  }

  /** The audit table, oldest row first. */
  class AuditTable {
    var rows: seq<InsertedRow>

    constructor ()
      ensures rows == []
    {
      rows := [];
    }

    /** `append_audit_entry`: one row added after the existing ones. */
    method AppendAuditEntry(entry: Entry, nowIso: string, dumps: Json -> string)
      modifies this
      ensures rows == old(rows) + [RowOf(entry, nowIso, dumps)]
    {
      rows := rows + [RowOf(entry, nowIso, dumps)];
    }
  }

  // ---------------------------------------------------------------------
  // The export query

  /** The five columns the export selects, which are also the header of the CSV it writes. */
  const ExportHeader: seq<string> := ["request_id", "ts", "text_redactions", "image_masks", "placeholders_used"]

  /** `SELECT request_id, ts, text_redactions, image_masks, placeholders_used FROM audit`. */
  const BaseQuery: string := "SELECT " + Join(ExportHeader, ", ") + " FROM audit"
  const OrderBy: string := " ORDER BY ts ASC"

  /** A query parameter counts as given when it is present and not empty (Python truthiness). */
  predicate Given(bound: Option<string>) {
    bound.Some? && bound.value != ""
  }

  /** The four shapes of WHERE clause the export can use. */
  datatype Filter = Unbounded | Between(lo: string, hi: string) | AtLeast(lo: string) | AtMost(hi: string)

  /** The shape the given bounds call for: both, only `from`, only `to`, or neither. */
  function FilterOf(fromTs: Option<string>, toTs: Option<string>): Filter {
    if Given(fromTs) && Given(toTs) then Between(fromTs.value, toTs.value)
    else if Given(fromTs) then AtLeast(fromTs.value)
    else if Given(toTs) then AtMost(toTs.value)
    else Unbounded
  }

  function ClauseText(f: Filter): string {
    match f
    case Unbounded => ""
    case Between(_, _) => " WHERE ts BETWEEN ? AND ?"
    case AtLeast(_) => " WHERE ts >= ?"
    case AtMost(_) => " WHERE ts <= ?"
  }

  function Params(f: Filter): seq<string> {
    match f
    case Unbounded => []
    case Between(lo, hi) => [lo, hi]
    case AtLeast(lo) => [lo]
    case AtMost(hi) => [hi]
  }

  /** `export_csv` before it touches the database: only the CSV format is accepted (the
      `assert` fails otherwise); then the query is built by appending to the base query. */
  method ExportQuery(format: string, fromTs: Option<string>, toTs: Option<string>)
    returns (r: Result<(string, seq<string>), string>)
    ensures r.Err? <==> format != "csv"
    ensures r.Ok? ==>
      var f := FilterOf(fromTs, toTs);
      r.value.0 == BaseQuery + ClauseText(f) + OrderBy && r.value.1 == Params(f)
  {
    if format != "csv" {
      return Err("AssertionError");
    }
    var query := BaseQuery;
    var params: seq<string> := [];
    if Given(fromTs) && Given(toTs) {
      query := query + " WHERE ts BETWEEN ? AND ?";
      params := params + [fromTs.value, toTs.value];
    } else if Given(fromTs) {
      query := query + " WHERE ts >= ?";
      params := params + [fromTs.value];
    } else if Given(toTs) {
      query := query + " WHERE ts <= ?";
      params := params + [toTs.value];
    }
    query := query + OrderBy;
    return Ok((query, params));
  }

  /** The number of `?` placeholders in a query text. */
  function Marks(s: string): nat
    decreases |s|
  {
    if s == [] then 0 else (if s[0] == '?' then 1 else 0) + Marks(s[1..])
  }

  lemma {:induction false} MarksConcat(a: string, b: string)
    ensures Marks(a + b) == Marks(a) + Marks(b)
    decreases |a|
  {
    if a != [] {
      assert (a + b)[1..] == a[1..] + b;
      MarksConcat(a[1..], b);
    } else {
      assert a + b == b;
    }
  }

  lemma {:induction false} MarksNone(s: string)
    requires Unmarked(s)
    ensures Marks(s) == 0
    decreases |s|
  {
    if s != [] {
      MarksNone(s[1..]);
    }
  }

  /** Every `?` of the query has its parameter, no parameter is empty, the ordering comes
      last, and each bound that is given becomes a parameter. */
  lemma QueryShape(fromTs: Option<string>, toTs: Option<string>)
    ensures var f := FilterOf(fromTs, toTs);
      var query := BaseQuery + ClauseText(f) + OrderBy;
      Marks(query) == |Params(f)|
      && (forall p | p in Params(f) :: p != "")
      && query[|query| - |OrderBy|..] == OrderBy
      && (Given(fromTs) ==> fromTs.value in Params(f))
      && (Given(toTs) ==> toTs.value in Params(f))
  {
    var f := FilterOf(fromTs, toTs);
    ClauseMarks(f);
    QueryMarks(ClauseText(f));
  }

  lemma QueryMarks(clause: string)
    ensures Marks(BaseQuery + clause + OrderBy) == Marks(clause)
    ensures (BaseQuery + clause + OrderBy)[|BaseQuery + clause + OrderBy| - |OrderBy|..] == OrderBy
  {
    NoMarkInBase();
    Framed(BaseQuery, clause, OrderBy);
  }

  predicate Unmarked(s: string) {
    forall i | 0 <= i < |s| :: s[i] != '?'
  }

  lemma UnmarkedConcat(a: string, b: string)
    requires Unmarked(a) && Unmarked(b)
    ensures Unmarked(a + b)
  {
  }

  lemma {:induction false} UnmarkedJoin(parts: seq<string>, sep: string)
    requires Unmarked(sep) && forall i | 0 <= i < |parts| :: Unmarked(parts[i])
    ensures Unmarked(Join(parts, sep))
    decreases |parts|
  {
    if |parts| > 1 {
      UnmarkedJoin(parts[1..], sep);
      UnmarkedConcat(parts[0], sep);
      UnmarkedConcat(parts[0] + sep, Join(parts[1..], sep));
    }
  }

  /** The fixed texts of the query hold no `?`. */
  lemma NoMarkInBase()
    ensures Unmarked(BaseQuery) && Unmarked(OrderBy)
  {
    assert Unmarked(ExportHeader[0]) && Unmarked(ExportHeader[1]) && Unmarked(ExportHeader[2]);
    assert Unmarked(ExportHeader[3]) && Unmarked(ExportHeader[4]);
    UnmarkedJoin(ExportHeader, ", ");
    UnmarkedConcat("SELECT ", Join(ExportHeader, ", "));
    UnmarkedConcat("SELECT " + Join(ExportHeader, ", "), " FROM audit");
  }

  /** Text around a clause adds no `?` of its own and stays at its end. */
  lemma Framed(head: string, clause: string, tail: string)
    requires Unmarked(head) && Unmarked(tail)
    ensures Marks(head + clause + tail) == Marks(clause)
    ensures (head + clause + tail)[|head + clause + tail| - |tail|..] == tail
  {
    MarksNone(head);
    MarksNone(tail);
    MarksConcat(head, clause);
    MarksConcat(head + clause, tail);
  }

  lemma ClauseMarks(f: Filter)
    ensures Marks(ClauseText(f)) == |Params(f)|
  {
    match f
    case Unbounded =>
    case Between(_, _) => BetweenMarks();
    case AtLeast(_) =>
      assert ClauseText(f) == " WHERE ts >= " + "?";
      OneMark(" WHERE ts >= ");
    case AtMost(_) =>
      assert ClauseText(f) == " WHERE ts <= " + "?";
      OneMark(" WHERE ts <= ");
  }

  lemma OneMark(prefix: string)
    requires Unmarked(prefix)
    ensures Marks(prefix + "?") == 1
  {
    MarksConcat(prefix, "?");
    MarksNone(prefix);
  }

  lemma BetweenMarks()
    ensures Marks(" WHERE ts BETWEEN ? AND ?") == 2
  {
    var head := " WHERE ts BETWEEN ";
    var mid := " AND ";
    assert " WHERE ts BETWEEN ? AND ?" == (head + "?") + (mid + "?");
    OneMark(head);
    OneMark(mid);
    MarksConcat(head + "?", mid + "?");
  }

  /** SQLite's ordering of TEXT values: lexicographic by character. */
  predicate TextLe(a: string, b: string)
    decreases |a|
  {
    a == [] || (b != [] && (a[0] < b[0] || (a[0] == b[0] && TextLe(a[1..], b[1..]))))
  }

  /** Whether a row whose `ts` column holds `ts` (NULL when `None`) satisfies the clause;
      a comparison with NULL is never true. */
  predicate Admits(f: Filter, ts: Option<string>) {
    match f
    case Unbounded => true
    case Between(lo, hi) => ts.Some? && TextLe(lo, ts.value) && TextLe(ts.value, hi)
    case AtLeast(lo) => ts.Some? && TextLe(lo, ts.value)
    case AtMost(hi) => ts.Some? && TextLe(ts.value, hi)
  }

  /** The export keeps exactly the rows whose timestamp lies within the given bounds; a bound
      that is absent or empty imposes nothing, and with no bound every row is kept. */
  lemma WhereMeaning(fromTs: Option<string>, toTs: Option<string>, ts: Option<string>)
    ensures Admits(FilterOf(fromTs, toTs), ts) <==>
        (!Given(fromTs) && !Given(toTs))
        || (ts.Some?
            && (Given(fromTs) ==> TextLe(fromTs.value, ts.value))
            && (Given(toTs) ==> TextLe(ts.value, toTs.value)))
  {
  }

  // ---------------------------------------------------------------------
  // The exported rows

  /** One row as the query returns it: TEXT or NULL per column. */
  datatype FetchedRow = FetchedRow(
    requestId: Option<string>,
    ts: Option<string>,
    textRedactions: Option<string>,
    imageMasks: Option<string>,
    placeholdersUsed: Option<string>)

  /** Python `value or default`: NULL and the empty string both give the default. */
  function OrDefault(value: Option<string>, default: string): (r: string)
    ensures Given(value) ==> r == value.value
    ensures !Given(value) ==> r == default
  {
    if Given(value) then value.value else default
  }

  function ExportCells(row: FetchedRow): seq<string> {
    [OrDefault(row.requestId, ""), OrDefault(row.ts, ""), OrDefault(row.textRedactions, "[]"),
     OrDefault(row.imageMasks, "[]"), OrDefault(row.placeholdersUsed, "{}")]
  }

  /** The rows handed to the CSV writer: the header, then one row per fetched row. */
  function ExportRows(rows: seq<FetchedRow>): (out: seq<seq<string>>)
    ensures |out| == |rows| + 1 && out[0] == ExportHeader
    ensures forall i | 1 <= i < |out| :: out[i] == ExportCells(rows[i - 1])
  {
    [ExportHeader] + seq(|rows|, i requires 0 <= i < |rows| => ExportCells(rows[i]))
  }

  /** Every exported row has the header's five columns; the three JSON columns are never
      empty (NULL becomes an empty list or object), and a non-empty value is kept. */
  lemma ExportedCells(row: FetchedRow)
    ensures var cells := ExportCells(row);
      |cells| == |ExportHeader|
      && cells[2] != "" && cells[3] != "" && cells[4] != ""
      && (row.requestId.None? ==> cells[0] == "") && (row.ts.None? ==> cells[1] == "")
      && (row.textRedactions.None? ==> cells[2] == "[]") && (row.imageMasks.None? ==> cells[3] == "[]")
      && (row.placeholdersUsed.None? ==> cells[4] == "{}")
      && (Given(row.requestId) ==> cells[0] == row.requestId.value)
      && (Given(row.ts) ==> cells[1] == row.ts.value)
  {
  }
}
