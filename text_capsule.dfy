/**
 * The text screen of the app: the user's text is sanitized with the store's
 * text rules, the sanitization is logged on the device, only the sanitized
 * text is sent to the completion endpoint, and the placeholders in the reply
 * are put back locally.
 */
module TextCapsule {
  import opened Wrappers
  import opened Strings
  import opened Dicts
  import opened Matching
  import opened ClientPlaceholders
  import opened Store
  import opened LocalAudit

  /** The characters `String.prototype.trim` removes: ECMAScript white space and line terminators. */
  predicate IsJsSpace(c: char) {
    '\t' <= c <= '\r' || c == ' ' || c == '\U{a0}' || c == '\U{1680}' || '\U{2000}' <= c <= '\U{200a}'
    || c == '\U{2028}' || c == '\U{2029}' || c == '\U{202f}' || c == '\U{205f}' || c == '\U{3000}'
    || c == '\U{feff}'
  }

  /** `!s.trim()`: trimming leaves the empty string, that is, `s` is all white space. */
  predicate Blank(s: string) {
    forall i | 0 <= i < |s| :: IsJsSpace(s[i])
  }

  const AiFailure: string := "Failed to get AI response"

  /** `result.placeholders.map(p => p.category)`. */
  function Redactions(recs: seq<PlaceholderInfo>): (r: seq<string>)
    ensures |r| == |recs|
    ensures forall k | 0 <= k < |recs| :: r[k] == recs[k].category
  {
    seq(|recs|, k requires 0 <= k < |recs| => recs[k].category)
  }

  /** The `reduce` that builds `{ [placeholder]: original }`, one record after the other. */
  function PlaceholderObject(recs: seq<PlaceholderInfo>): Dict
    decreases |recs|
  {
    if recs == [] then []
    else
      var r := recs[|recs| - 1];
      Put(PlaceholderObject(recs[..|recs| - 1]), r.placeholder, r.original)
  }

  /** The object logged with a sanitization has one entry per token and, read as a map, is
      exactly the token-to-original table that reinsertion decodes with. */
  lemma {:induction false} PlaceholderObjectIsTable(recs: seq<PlaceholderInfo>)
    ensures DistinctKeys(PlaceholderObject(recs))
    ensures ToMap(PlaceholderObject(recs)) == RecordMap(recs)
    decreases |recs|
  {
    if recs != [] {
      var r := recs[|recs| - 1];
      PlaceholderObjectIsTable(recs[..|recs| - 1]);
      PutToMap(PlaceholderObject(recs[..|recs| - 1]), r.placeholder, r.original);
    }
  }

  /** The entry logged for a sanitization: its categories in record order, the token table
      and the text rules in force. The id is assigned by the log. */
  function SanitizeEntry(recs: seq<PlaceholderInfo>, nowIso: string, textRules: seq<string>): AuditEntry {
    AuditEntry("", nowIso, TextEntry, Redactions(recs), PlaceholderObject(recs), [("textRules", textRules)])
  }

  /** Every logged category is one of the text rules in force, and one the client has a
      pattern for. */
  lemma RedactionsFromRules(text: string, textRules: seq<string>, table: PatternTable)
    requires ValidTable(table)
    ensures var red := Redactions(Build(text, textRules, table).placeholders);
      forall k | 0 <= k < |red| :: red[k] in textRules && red[k] in table
  {
    RecordsShape(text, textRules, table);
  }

  class Capsule {
    const store: AppStore
    const log: LocalAuditLog
    /** The client's patterns, by category. */
    const table: PatternTable
    var inputText: string
    var sanitizedText: string
    var placeholders: seq<PlaceholderInfo>
    var aiResponse: string
    var isAiLoading: bool

    ghost predicate Valid()
      reads this
    {
      ValidTable(table)
    }

    constructor (store: AppStore, log: LocalAuditLog, table: PatternTable)
      requires ValidTable(table)
      ensures Valid() && this.store == store && this.log == log && this.table == table
      ensures inputText == "" && sanitizedText == "" && placeholders == [] && aiResponse == ""
      ensures !isAiLoading
    {
      this.store := store;
      this.log := log;
      this.table := table;
      inputText := "";
      sanitizedText := "";
      placeholders := [];
      aiResponse := "";
      isAiLoading := false;
    }

    /** The text field. */
    method SetInputText(text: string)
      modifies this
      ensures inputText == text
      ensures sanitizedText == old(sanitizedText) && placeholders == old(placeholders)
      ensures aiResponse == old(aiResponse) && isAiLoading == old(isAiLoading)
    {
      inputText := text;
    }

    /** `handleSanitize`. Blank input only raises the "Input Required" alert (`done` is
        false) and changes nothing. Otherwise the text is sanitized with the store's
        text rules, one text entry is logged first in the device log, and the store's
        error is cleared. `now`, `nowIso` and `suffix` are the clock and the random id part. */
    method HandleSanitize(now: nat, nowIso: string, suffix: string) returns (done: bool)
      requires Valid()
      modifies this, store, log
      ensures done == !Blank(old(inputText))
      ensures !done ==>
        sanitizedText == old(sanitizedText) && placeholders == old(placeholders)
        && log.entries == old(log.entries) && store.error == old(store.error)
      ensures done ==>
        var b := Build(old(inputText), old(store.textRules), table);
        sanitizedText == b.sanitized && placeholders == b.placeholders
        && log.entries == [SanitizeEntry(b.placeholders, nowIso, old(store.textRules)).(id := LocalId(now, suffix))]
                          + old(log.entries)
        && store.error == None
      ensures inputText == old(inputText) && aiResponse == old(aiResponse) && isAiLoading == old(isAiLoading)
      ensures log.receipts == old(log.receipts)
      ensures store.textRules == old(store.textRules) && store.imageRules == old(store.imageRules)
      ensures store.locationFuzzRadius == old(store.locationFuzzRadius) && store.isLoading == old(store.isLoading)
    {
      if Blank(inputText) {
        return false;
      }
      var textRules := store.textRules;
      var result := BuildPlaceholders(inputText, textRules, table);
      sanitizedText := result.sanitized;
      placeholders := result.placeholders;
      log.AddAuditEntry(SanitizeEntry(result.placeholders, nowIso, textRules), now, suffix);
      store.SetError(None);
      return true;
    }

    /** `handleAskAI`. Without sanitized text only the "No Sanitized Text" alert shows and
        nothing is sent (`sent` is None). Otherwise the request body is the sanitized text
        and nothing else; `reply` is the completion of a successful response, None when the
        request fails. Both loading flags end up off. */
    method HandleAskAI(reply: Option<string>) returns (sent: Option<string>)
      modifies this, store
      ensures Blank(old(sanitizedText)) ==>
        sent == None && aiResponse == old(aiResponse) && isAiLoading == old(isAiLoading)
        && store.error == old(store.error) && store.isLoading == old(store.isLoading)
      ensures !Blank(old(sanitizedText)) ==>
        sent == Some(old(sanitizedText)) && !isAiLoading && !store.isLoading
        && (reply.Some? ==> aiResponse == reply.value && store.error == None)
        && (reply.None? ==> aiResponse == old(aiResponse) && store.error == Some(AiFailure))
      ensures inputText == old(inputText) && sanitizedText == old(sanitizedText)
      ensures placeholders == old(placeholders)
      ensures store.textRules == old(store.textRules) && store.imageRules == old(store.imageRules)
      ensures store.locationFuzzRadius == old(store.locationFuzzRadius)
    {
      if Blank(sanitizedText) {
        return None;
      }
      isAiLoading := true;
      store.SetLoading(true);
      sent := Some(sanitizedText);
      if reply.Some? {
        aiResponse := reply.value;
        store.SetError(None);
      } else {
        store.SetError(Some(AiFailure));
      }
      isAiLoading := false;
      store.SetLoading(false);
    }

    /** `handleReinsert`. Without a reply only the "No AI Response" alert shows; otherwise
        the reply's tokens are replaced by the originals of this screen's records. */
    method HandleReinsert() returns (done: bool)
      modifies this, store
      ensures done == !Blank(old(aiResponse))
      ensures !done ==> aiResponse == old(aiResponse) && store.error == old(store.error)
      ensures done ==> aiResponse == Reinsert(old(aiResponse), placeholders) && store.error == None
      ensures inputText == old(inputText) && sanitizedText == old(sanitizedText)
      ensures placeholders == old(placeholders) && isAiLoading == old(isAiLoading)
      ensures store.textRules == old(store.textRules) && store.imageRules == old(store.imageRules)
      ensures store.locationFuzzRadius == old(store.locationFuzzRadius) && store.isLoading == old(store.isLoading)
    {
      if Blank(aiResponse) {
        return false;
      }
      var finalText := ReinsertPlaceholders(aiResponse, placeholders);
      aiResponse := finalText;
      store.SetError(None);
      return true;
    }
  }
}
