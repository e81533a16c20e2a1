# QuantumQuokkas privacy core in Dafny

QuantumQuokkas is a privacy layer for sending text to a language model. The
mobile app and the API server each have a placeholder engine. It replaces
e-mail addresses, phone numbers, street addresses, names and other
identifying text by tokens such as `[EMAIL_1]`. Only the sanitized text goes
to the completion endpoint. The tokens in the reply are then put back
locally. Around the engines sit:

- the app's policy store and settings screen (which categories to redact, the
  location fuzzing radius);
- the text screen that drives sanitize, ask and reinsert;
- the device audit log and its CSV export;
- the receipt input fingerprint;
- the server's completion endpoint, with its per-client rate limit and its
  idempotency cache;
- the server's audit table and CSV export query;
- the reading of comma-separated settings from the environment.

Each module models one source file:

| module | models |
|---|---|
| `ClientPlaceholders` | `app/rn/pac-rn/src/lib/placeholders.ts` |
| `ServerPlaceholders` | `api/placeholders.py` |
| `TextCapsule` | `app/rn/pac-rn/src/screens/TextCapsule.tsx` |
| `SettingsScreen` | `app/rn/pac-rn/src/screens/Settings.tsx` |
| `Store` | `app/rn/pac-rn/src/store/index.ts` |
| `LocalAudit` | `app/rn/pac-rn/src/lib/audit.ts` |
| `ReceiptHash` | `generateSHA256Hash` of `app/rn/pac-rn/src/lib/receipts.ts` |
| `AiProxy` | `api/ai_proxy.py` |
| `AuditExport` | `api/audit.py` |
| `EnvSettings` | `_get_list` of `api/settings.py` |

Shared modules:

- `Wrappers`: Option and Result.
- `Strings`:
  - JavaScript first-occurrence `replace`;
  - Python every-occurrence `str.replace`;
  - `split`, `join` and decimal rendering.
- `Dicts`: a Python dict as its entries in insertion order.
- `Sorting`: the stable longest-first sort both reinsert functions use.
- `Matching`: spans, pattern tables and the `[CATEGORY_n]` token.
- `Brackets`: a proof device.
  - It reads a text without stray brackets as plain text and `[...]` segments.
  - It decodes that text through a token table.
  - The round-trip lemmas of both engines are stated with it.

Stateful code is modelled as classes whose methods update fields:

- the store;
- the two screens;
- the device log;
- the proxy's dictionaries;
- the audit table.

Each method states its whole new state. The engines' loops are methods proved
equal to specification functions (`Build`, `Reinsert`), and the properties are
lemmas about those functions.

The regular expressions are not modelled. A category's pattern is a
`Matcher`: a function from a text to its matches, in order, non-empty,
non-overlapping and free of brackets (`ValidTable`). Clocks, random id parts,
`JSON.stringify`/`json.dumps` and the network are parameters.

Where the code and the design intent differ, the model follows the code:

- The server's `reinsert_placeholders` replaces every occurrence of each key
  (Python `str.replace`). The client's `reinsertPlaceholders` replaces only the
  first occurrence of each token.
- Both engines number tokens from 1 per category. The server's pass runs over
  the already-sanitized text. The client's loop matches the original text and
  replaces the first occurrence in the sanitized text.
- The round trip holds only under the conditions in the lemmas below:
  - the text holds no bracket;
  - client: no category is requested twice, and no matched text occurs inside a
    token;
  - server: on a text whose only bracketed parts are tokens `[c_n]` of
    categories with a pattern, no match starts inside one of those tokens
    (`AvoidsOpenBrackets`). The program's patterns have this property: a token
    body holds only upper-case letters, `_` and digits, and none of them can
    start a match there. Texts with an unmatched `[` are not covered, and on
    them the email pattern can match after the `[`.
- `generateSHA256Hash` is a 32-bit polynomial string hash, not SHA-256.

## Model

| member | source | states |
|---|---|---|
| ClientPlaceholders.BuildPlaceholders | app/rn/pac-rn/src/lib/placeholders.ts:8-42 | Returns exactly `Build`: the records of every requested category that has a pattern, in category order, and the text after each record's match was replaced by its token |
| ClientPlaceholders.AddMatches | app/rn/pac-rn/src/lib/placeholders.ts:27-38 | The inner loop appends one record per match, numbered from 1, and keeps the sanitized text equal to the records' first-occurrence replacements applied in order |
| ClientPlaceholders.ReinsertPlaceholders | app/rn/pac-rn/src/lib/placeholders.ts:44-54 | Returns exactly `Reinsert`: the records sorted longest token first, then the first occurrence of each token replaced by its original |
| ClientPlaceholders.RecordsShape | app/rn/pac-rn/src/lib/placeholders.ts:23-35 | Every record belongs to a requested category that has a pattern and carries the token `[category_n]` with n >= 1 and a non-empty, bracket-free original |
| ClientPlaceholders.RecordsDistinct | app/rn/pac-rn/src/lib/placeholders.ts:28-30 | With no category requested twice, no two records share a token |
| ClientPlaceholders.UnknownCategoriesSkipped | app/rn/pac-rn/src/lib/placeholders.ts:24-25 | Categories without a pattern leave the text unchanged and add no record |
| ClientPlaceholders.GpsIgnoredByClient | app/rn/pac-rn/src/lib/placeholders.ts:16-21 | With the client's four patterns, asking for GPS changes nothing |
| ClientPlaceholders.BuildDecodes | app/rn/pac-rn/src/lib/placeholders.ts:29-37 | After every record the sanitized text is well bracketed, holds each token at most once, holds only tokens of the records so far, and decodes back to the original text |
| ClientPlaceholders.ReinsertDecodes | app/rn/pac-rn/src/lib/placeholders.ts:47-51 | Replacing each record's token once, in any order, decodes the text through the table of those records |
| ClientPlaceholders.SortedRecords | app/rn/pac-rn/src/lib/placeholders.ts:47 | The sorted copy holds the same records, so its table is the records' table |
| ClientPlaceholders.ClientRoundTrip | app/rn/pac-rn/src/lib/placeholders.ts:8-54 | Reinserting into the sanitized text with its records gives the original text back, for a text without brackets, distinct categories and matches that never occur inside a token |
| ClientPlaceholders.RoundTripRecords | app/rn/pac-rn/src/lib/placeholders.ts:44-54 | The same round trip for any list of distinct, well-formed records |
| ClientPlaceholders.ReinsertNoToken | app/rn/pac-rn/src/lib/placeholders.ts:49-51 | A text in which no token occurs comes back unchanged |
| ServerPlaceholders.BuildPlaceholders | api/placeholders.py:32-56 | Returns exactly `Build`: one `regex.sub` pass per requested category with a pattern, in order, over the current sanitized text |
| ServerPlaceholders.ReinsertPlaceholders | api/placeholders.py:59-66 | Returns exactly `Reinsert`: the entries sorted longest key first, then every occurrence of each key replaced by its value |
| ServerPlaceholders.AddEntriesAppend | api/placeholders.py:41-47 | When the category's next tokens are new, the callback's dictionary writes append one entry per match in match order |
| ServerPlaceholders.PassAppends | api/placeholders.py:43-46 | A pass adds `[c_(n+1)]` to `[c_(n+k)]` for its k matches, raises the counter by k, and keeps the keys distinct and equal to the issued tokens |
| ServerPlaceholders.PassDictionary | api/placeholders.py:43-46 | After a pass the dictionary holds the new entries and keeps the value of every token already in the text |
| ServerPlaceholders.PassText | api/placeholders.py:55 | The text after a pass is well bracketed and decodes to the text before it |
| ServerPlaceholders.PassKeeps | api/placeholders.py:51-55 | One pass keeps the building invariant: the text decodes to the original through the dictionary, and every token in it is a key |
| ServerPlaceholders.SanitizedTokens | api/placeholders.py:43-46 | Under the invariant, every token in the sanitized text was handed out by a pass of a category with a pattern |
| ServerPlaceholders.TablePassKeeps | api/placeholders.py:51-55 | The pass of a category with a pattern keeps the invariant, and still only categories with a pattern have been counted |
| ServerPlaceholders.RunPassesKeeps | api/placeholders.py:51-55 | All the passes keep that invariant, when the patterns never start a match inside a token of the text |
| ServerPlaceholders.RunPassesUnknown | api/placeholders.py:52-54 | Passes over categories without a pattern leave text, dictionary and counts unchanged |
| ServerPlaceholders.ServerUnknownSkipped | api/placeholders.py:38-56 | Requesting only categories without a pattern returns the text unchanged, an empty dictionary and every count at 0 |
| ServerPlaceholders.BuildKeeps | api/placeholders.py:32-56 | Building from a text without brackets ends in a state satisfying the invariant |
| ServerPlaceholders.RunPassesIssued | api/placeholders.py:41-55 | The passes keep the dictionary's keys distinct, bracket-free in value and equal to the issued tokens |
| ServerPlaceholders.RunPassesCounts | api/placeholders.py:38-55 | The passes keep the set of counted categories and leave a category without a pattern at its count |
| ServerPlaceholders.BuildCounts | api/placeholders.py:38 | `counts` has exactly the requested categories, and one without a pattern stays at 0 |
| ServerPlaceholders.BuildKeys | api/placeholders.py:43-46 | The keys are distinct; every key is a token `[c_n]`, and such a token is a key exactly when c was requested and 1 <= n <= counts[c] |
| ServerPlaceholders.ApplyAllDecodes | api/placeholders.py:64-65 | Replacing every occurrence of each key, in any order, decodes the text through the dictionary cut down to those keys |
| ServerPlaceholders.SortedEntries | api/placeholders.py:62 | The sorted items are the dictionary's entries and cover all its keys |
| ServerPlaceholders.ReinsertDecodes | api/placeholders.py:59-66 | Reinserting into a well-bracketed text decodes it through the whole dictionary |
| ServerPlaceholders.ServerRoundTrip | api/placeholders.py:32-66 | Reinserting into the sanitized text with its dictionary gives the original text back, for a text without brackets, when no pattern starts a match inside a token of a text made of plain characters and tokens |
| ServerPlaceholders.ReinsertPlain | api/placeholders.py:59-66 | A text without brackets comes back unchanged |
| Matching.TokenInjective | api/placeholders.py:44-45 | Different categories or counters give different tokens |
| Matching.TokenIsSegment | api/placeholders.py:45 | A token of a bracket-free category is one bracketed segment |
| Strings.ReplaceFirstSpec | app/rn/pac-rn/src/lib/placeholders.ts:36 | First-occurrence replacement equals the reference built on the index of the first occurrence: text before, replacement, text after; no occurrence, no change |
| Strings.Split | api/settings.py:8 | The pieces contain no separator and join back to the input |
| Sorting.SortDesc | api/placeholders.py:62 | The result is a permutation of the input, sorted by non-increasing key length |
| Dicts.PutToMap | api/placeholders.py:46 | Writing a key into an insertion-ordered dict keeps the keys distinct and reads as a map update |
| Dicts.Put | api/placeholders.py:46 | A new key is appended at the end; an existing key keeps its position |
| TextCapsule.Capsule.HandleSanitize | app/rn/pac-rn/src/screens/TextCapsule.tsx:21-49 | Blank input changes nothing. Otherwise the screen holds the client engine's result, one text entry with the categories, token table and text rules goes first in the device log, and the store's error is cleared |
| TextCapsule.Capsule.HandleAskAI | app/rn/pac-rn/src/screens/TextCapsule.tsx:51-84 | Without sanitized text nothing is sent. Otherwise exactly the sanitized text is sent; a reply sets the response and clears the error, a failure sets the error; both loading flags end off |
| TextCapsule.Capsule.HandleReinsert | app/rn/pac-rn/src/screens/TextCapsule.tsx:86-100 | Without a response nothing changes. Otherwise the response becomes the client reinsertion with this screen's records and the error is cleared |
| TextCapsule.Capsule.SetInputText | app/rn/pac-rn/src/screens/TextCapsule.tsx:12 | Only the input text changes |
| TextCapsule.Capsule.constructor | app/rn/pac-rn/src/screens/TextCapsule.tsx:12-17 | All texts empty, no records, not loading |
| TextCapsule.PlaceholderObjectIsTable | app/rn/pac-rn/src/screens/TextCapsule.tsx:37-40 | The logged token object has distinct keys and is exactly the records' token table |
| TextCapsule.RedactionsFromRules | app/rn/pac-rn/src/screens/TextCapsule.tsx:28-36 | Every logged category is an enabled text rule the client has a pattern for |
| SettingsScreen.Without | app/rn/pac-rn/src/screens/Settings.tsx:28 | The rule is gone and every other rule keeps its number of occurrences |
| SettingsScreen.WithoutConcat | app/rn/pac-rn/src/screens/Settings.tsx:28 | Filtering distributes over concatenation, so the kept rules keep their order |
| SettingsScreen.Toggle | app/rn/pac-rn/src/screens/Settings.tsx:27-29 | The rule is enabled afterwards iff it was not before; other rules are untouched |
| SettingsScreen.ToggleKeepsDistinct | app/rn/pac-rn/src/screens/Settings.tsx:26-31 | Toggling keeps a rule list free of duplicates |
| SettingsScreen.ToggleTwice | app/rn/pac-rn/src/screens/Settings.tsx:26-31 | Enabling then disabling gives the list back; disabling then enabling moves the rule to the end |
| SettingsScreen.RadiusDown | app/rn/pac-rn/src/screens/Settings.tsx:171 | The "-" button lowers by at most 100 and never goes below 100 |
| SettingsScreen.RadiusUp | app/rn/pac-rn/src/screens/Settings.tsx:177 | The "+" button raises by at most 100 and never goes above 1000 |
| SettingsScreen.RadiusButtons | app/rn/pac-rn/src/screens/Settings.tsx:171-177 | Both buttons keep the radius in [100, 1000], and away from the ends they undo each other |
| SettingsScreen.DefaultsOffered | app/rn/pac-rn/src/screens/Settings.tsx:23-24 | Every default category has a switch; GPS has one but is off by default |
| SettingsScreen.Settings.constructor | app/rn/pac-rn/src/screens/Settings.tsx:19-21 | The local copy starts as the store's policy |
| SettingsScreen.Settings.HandleTextRuleToggle | app/rn/pac-rn/src/screens/Settings.tsx:26-31 | Only the local text rules change, by `Toggle` |
| SettingsScreen.Settings.HandleImageRuleToggle | app/rn/pac-rn/src/screens/Settings.tsx:33-38 | Only the local image rules change, by `Toggle` |
| SettingsScreen.Settings.DecreaseRadius | app/rn/pac-rn/src/screens/Settings.tsx:169-174 | The local radius goes down one step and stays in range |
| SettingsScreen.Settings.IncreaseRadius | app/rn/pac-rn/src/screens/Settings.tsx:175-180 | The local radius goes up one step and stays in range |
| SettingsScreen.Settings.HandleReset | app/rn/pac-rn/src/screens/Settings.tsx:54-70 | Confirming puts the defaults into the local copy only; cancelling changes nothing |
| SettingsScreen.Settings.HandleSave | app/rn/pac-rn/src/screens/Settings.tsx:40-52 | The store gets the local policy and no error; its loading flag is untouched |
| Store.AppStore.constructor | app/rn/pac-rn/src/store/index.ts:28-32 | The initial policy and UI state |
| Store.AppStore.SetTextRules | app/rn/pac-rn/src/store/index.ts:35 | Replaces the text rules only |
| Store.AppStore.SetImageRules | app/rn/pac-rn/src/store/index.ts:36 | Replaces the image rules only |
| Store.AppStore.SetLocationFuzzRadius | app/rn/pac-rn/src/store/index.ts:37 | Replaces the radius only |
| Store.AppStore.SetLoading | app/rn/pac-rn/src/store/index.ts:38 | Replaces the loading flag only |
| Store.AppStore.SetError | app/rn/pac-rn/src/store/index.ts:39 | Replaces the error only |
| Store.AppStore.ResetError | app/rn/pac-rn/src/store/index.ts:40 | Clears the error only |
| Store.DefaultsDistinct | app/rn/pac-rn/src/store/index.ts:28-29 | GPS is off by default and no default category is listed twice |
| LocalAudit.LocalId | app/rn/pac-rn/src/lib/audit.ts:34 | Every id starts with `local_` |
| LocalAudit.LocalIdInjective | app/rn/pac-rn/src/lib/audit.ts:34 | Equal ids come from equal clock readings and random parts |
| LocalAudit.LocalAuditLog.constructor | app/rn/pac-rn/src/lib/audit.ts:24-25 | Both storage keys start empty |
| LocalAudit.LocalAuditLog.AddAuditEntry | app/rn/pac-rn/src/lib/audit.ts:27-42 | The entry, with a fresh `local_` id, goes first; the older entries keep their order; receipts are untouched |
| LocalAudit.LocalAuditLog.AddReceipt | app/rn/pac-rn/src/lib/audit.ts:54-63 | The receipt goes first; the older receipts keep their order; entries are untouched |
| LocalAudit.UnquoteQuote | app/rn/pac-rn/src/lib/audit.ts:126 | Stripping the quotes and collapsing doubled quotes gives the cell back |
| LocalAudit.ReadQuote | app/rn/pac-rn/src/lib/audit.ts:126 | A reader of quoted CSV cells reads a written cell back |
| LocalAudit.ReadLineOf | app/rn/pac-rn/src/lib/audit.ts:126 | A written line reads back as its cells |
| LocalAudit.ReadLines | app/rn/pac-rn/src/lib/audit.ts:125-127 | Lines joined with line feeds read back as the rows |
| LocalAudit.CSVRoundTrip | app/rn/pac-rn/src/lib/audit.ts:114-128 | The export reads back as the header and one row per entry; an empty log exports the header line alone |
| ReceiptHash.ToInt32 | app/rn/pac-rn/src/lib/receipts.ts:91 | The result is a signed 32-bit integer congruent to its argument modulo 2^32 |
| ReceiptHash.StepWraps | app/rn/pac-rn/src/lib/receipts.ts:90-91 | One loop step is h := 31·h + c wrapped to 32 bits |
| ReceiptHash.HashIsPolynomial | app/rn/pac-rn/src/lib/receipts.ts:85-92 | The loop computes the sum of c_i·31^(n-1-i), wrapped to 32 bits |
| ReceiptHash.GenerateSHA256Hash | app/rn/pac-rn/src/lib/receipts.ts:81-99 | "0" for the empty input, otherwise the hexadecimal of the hash's absolute value |
| ReceiptHash.Hex | app/rn/pac-rn/src/lib/receipts.ts:94 | Lowercase hexadecimal digits without a leading zero |
| ReceiptHash.ParseHexOfHex | app/rn/pac-rn/src/lib/receipts.ts:94 | The hexadecimal text reads back as the number |
| ReceiptHash.HashHexShape | app/rn/pac-rn/src/lib/receipts.ts:81-99 | The output is 1 to 8 hex digits, never a 64-digit SHA-256 digest, reads back as the hash's absolute value, and is "80000000" for -2^31 |
| AiProxy.RateLimitKey | api/ai_proxy.py:19-20 | `rl:` followed by the address |
| AiProxy.RateLimitKeyInjective | api/ai_proxy.py:19-20 | Distinct clients have distinct windows |
| AiProxy.Prune | api/ai_proxy.py:35 | Keeps exactly the times later than 60 seconds before now, each as often as it occurs, in their original order |
| AiProxy.PruneIdempotent | api/ai_proxy.py:35 | Pruning twice at the same instant equals pruning once |
| AiProxy.EchoBounded | api/ai_proxy.py:47 | The dummy reply ends with the start of the prompt, at most 120 characters of it |
| AiProxy.Proxy.constructor | api/ai_proxy.py:15-16 | Both dictionaries start empty |
| AiProxy.Proxy.AiComplete | api/ai_proxy.py:24-63 | A cached key replays its response and changes nothing. Otherwise the window is pruned; a full window answers 429 without recording the request; an accepted one records `now`, logs one audit row without content, and caches its response when keyed. Windows never exceed 30 |
| AiProxy.WindowAfterAccept | api/ai_proxy.py:35-38 | After an accepted request the window holds `now` and at most 30 times, all within the last 60 seconds |
| AiProxy.RefusedMeansFull | api/ai_proxy.py:36-37 | A refusal means 30 requests within the last minute |
| AuditExport.RowDefaults | api/audit.py:59-65 | An absent field takes its default (no id, the current time, empty lists and objects); a present one is stored as given |
| AuditExport.AuditTable.constructor | api/audit.py:16-32 | The table starts empty |
| AuditExport.AuditTable.AppendAuditEntry | api/audit.py:50-70 | One row is added after the existing ones |
| AuditExport.ExportQuery | api/audit.py:74-90 | Fails iff the format is not CSV; otherwise the base query, the WHERE clause the given bounds call for, the ordering, and one parameter per bound |
| AuditExport.QueryShape | api/audit.py:79-90 | Every `?` has its parameter, no parameter is empty, the ordering comes last, and each given bound is a parameter |
| AuditExport.WhereMeaning | api/audit.py:81-89 | The clause keeps exactly the rows whose timestamp lies within the given bounds; with no bound every row is kept |
| AuditExport.ExportedCells | api/audit.py:100-107 | Five cells per row; the JSON columns are never empty; a non-empty value is kept |
| EnvSettings.StripShape | api/settings.py:8 | Stripping removes only characters of the input, leaves no whitespace at either end, keeps a string without surrounding whitespace, and empties exactly the blank strings |
| EnvSettings.GetListShape | api/settings.py:6-8 | Every item is non-empty, comma-free and without surrounding whitespace |
| EnvSettings.GetListOfJoin | api/settings.py:6-8 | Joining well-formed items with commas and reading them back gives the same list |
| EnvSettings.BlankGivesNothing | api/settings.py:8 | Pieces made only of whitespace, empty ones included, give no items |
| EnvSettings.PiecesBlank | api/settings.py:8 | Splitting a value made only of whitespace and commas gives only blank pieces |
| EnvSettings.RawBlank | api/settings.py:6-8 | A value made only of whitespace and commas, the empty one included, gives an empty list |
| EnvSettings.GetListSource | api/settings.py:7 | An unset variable reads its default, a set one its own value even when empty; an empty value (the RETIRED_SECRETS default) gives no items |

## Left out

- The regular expressions themselves: each is a `Matcher` parameter. `ValidTable` and, on the server, `AvoidsOpenBrackets` state what the model assumes of them.
- ClientPlaceholders.ClientRoundTrip and ServerPlaceholders.ServerRoundTrip: they require a text with no bracket at all. The code only needs a text without token-shaped substrings, so these are stronger preconditions than necessary.
- JavaScript `String.prototype.replace` with a string pattern expands `$&`, `$1` and similar in the replacement. An original containing `$` is not modelled; the model inserts it literally.
- JavaScript object keys that clash with `Object.prototype` names (a category called `toString`) are not modelled.
- Sorting.SortDesc: stability is not stated. Nothing proved depends on the order of equal-length tokens.
- ServerPlaceholders.BuildPlaceholders: the iteration inside `regex.sub` is modelled by the functions `SubFrom` and `AddEntries`, not as a loop. The source has no loop of its own there.
- ServerPlaceholders: that the dictionary's size equals the sum of the counts is not stated separately. `BuildKeys` states which keys there are, in both directions, and that they are distinct.
- AsyncStorage, zustand `persist`, JSON parsing and writing, and file sharing: storage is the class fields. `JSON.stringify` and `json.dumps` are function parameters.
- The `try`/`catch` paths for storage or rendering failures are left out: `addAuditEntry`, `handleSave`, `handleSanitize`, `handleReinsert`.
- Alert dialogs are the `done` results and the `confirmed` parameter.
- `getAuditEntries`, `getReceipts`, `exportLocalAuditCSV`, `exportBackendAuditCSV` and `createCSVBlob` read storage or share a file. The log's fields stand for the stored lists.
- The `isProcessing` state of the text screen is never set by the handlers and is left out.
- The completion request is the `reply` parameter of `HandleAskAI`. The network, the HTTP status and the JSON body are left out.
- UTF-16: a Dafny `string` is a sequence of Unicode scalar values, not of UTF-16 code units. Lone surrogates, and the `.length` of 2 that JavaScript gives a character outside the Basic Multilingual Plane, are not captured. Only `ReceiptHash` works on code units, as numbers in [0, 65535].
- TextCapsule.Capsule.HandleSanitize: the `addAuditEntry` call is not awaited, and `addAuditEntry` reads the stored list and writes it back. The model prepends the entry atomically, so the update lost when two sanitizations overlap is not modelled.
- `Date.now()`, `Math.random()`, `datetime.utcnow()` and their renderings are parameters.
- AiProxy: the `ai_vision` endpoint is left out.
- AiProxy: the dictionaries are per process; concurrency between requests is not modelled.
- AiProxy: a clock that runs backwards is allowed by the model but excluded from `WindowAfterAccept`.
- AuditExport: SQLite execution, `ORDER BY` and the CSV writer's quoting are not modelled. The rows the query returns are an input.
- AuditExport.ExportQuery: Python `assert` is modelled as an error result. Under `python -O` the assert is skipped, which is not modelled.
- EnvSettings: the process environment is a map parameter. The default literal of ALLOWED_ORIGINS is not evaluated.
- `TextCapsule.Capsule.HandleAskAI` does not model the reply's JSON shape; `reply.value` stands for `result.completion`.
