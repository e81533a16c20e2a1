/**
 * The completion endpoint's in-memory state: a per-client sliding window of
 * request times (at most 30 requests in any 60 seconds, answered with status
 * 429 of section 4 of RFC 6585 beyond that) and a cache of responses by
 * idempotency key, so that a retried request is answered without being
 * counted or logged again.
 */
module AiProxy {
  import opened Wrappers
  import AuditExport

  /** Request times are instants in microseconds, read from the clock by the caller. */
  const WindowLength: int := 60_000_000
  const MaxRequests: nat := 30
  const TooManyRequests: int := 429
  /** How much of the prompt the dummy completion echoes. */
  const EchoLength: nat := 120

  datatype Response = Response(completion: string)

  /** `request.client.host`, or "unknown" when the client address is missing. */
  function ClientIp(host: Option<string>): (ip: string)
    ensures host.Some? ==> ip == host.value
    ensures host.None? ==> ip == "unknown"
  {
    if host.Some? then host.value else "unknown"
  }

  /** `_rate_limit_key`. */
  function RateLimitKey(ip: string): (key: string)
    ensures |key| == |ip| + 3 && key[..3] == "rl:"
  {
    "rl:" + ip
  }

  /** Distinct clients have distinct windows. */
  lemma RateLimitKeyInjective(ip1: string, ip2: string)
    requires RateLimitKey(ip1) == RateLimitKey(ip2)
    ensures ip1 == ip2
  {
    assert ip1 == RateLimitKey(ip1)[3..];
  }

  /** An idempotency key takes part only when present and non-empty (Python truthiness). */
  predicate Keyed(key: Option<string>) {
    key.Some? && key.value != ""
  }

  /** `a` is `b` with some elements left out, the rest in their order. */
  predicate Subsequence(a: seq<int>, b: seq<int>)
    decreases |b|
  {
    a == [] || (b != [] && ((a[0] == b[0] && Subsequence(a[1..], b[1..])) || Subsequence(a, b[1..])))
  }

  /** The times still inside the window that ends at `now`, in their order: each time
      later than `now - 60 s` is kept as often as it occurs, every other one dropped. */
  function Prune(times: seq<int>, now: int): (kept: seq<int>)
    ensures |kept| <= |times|
    ensures forall t :: t in kept <==> t in times && t > now - WindowLength
    ensures forall t :: multiset(kept)[t] == if t > now - WindowLength then multiset(times)[t] else 0
    ensures Subsequence(kept, times)
    decreases |times|
  {
    if times == [] then []
    else
      var rest := Prune(times[1..], now);
      assert times == [times[0]] + times[1..];
      if times[0] > now - WindowLength then [times[0]] + rest else rest
  }

  /** The reply text: a fixed notice when a provider key is configured, otherwise an echo
      of the first 120 characters of the prompt. `nowIso` is `now.isoformat()`. */
  function Completion(apiKey: string, nowIso: string, prompt: string): string {
    if apiKey != "" then "[LLM completion simulated at " + nowIso + "Z]"
    else "[dummy completion at " + nowIso + "Z] You said: " + prompt[..if |prompt| < EchoLength then |prompt| else EchoLength]
  }

  /** The dummy reply ends with the start of the prompt, never more than 120 characters of it. */
  lemma EchoBounded(nowIso: string, prompt: string)
    ensures exists n: nat | n <= EchoLength && n <= |prompt| ::
      var c := Completion("", nowIso, prompt);
      |c| >= n && c[|c| - n..] == prompt[..n] && (n < |prompt| ==> n == EchoLength)
  {
    var n := if |prompt| < EchoLength then |prompt| else EchoLength;
    var c := Completion("", nowIso, prompt);
    assert c[|c| - n..] == prompt[..n];
  }

  /** The audit entry of an answered request: its idempotency key or a time-based id, and
      no content (`nowTimestamp` is `now.timestamp()` rendered as Python does). */
  function AuditEntryOf(key: Option<string>, nowIso: string, nowTimestamp: string): AuditExport.Entry {
    map[
      "request_id" := AuditExport.JStr(if Keyed(key) then key.value else "req-" + nowTimestamp),
      "ts" := AuditExport.JStr(nowIso + "Z"),
      "text_redactions" := AuditExport.JArray([]),
      "image_masks" := AuditExport.JArray([]),
      "placeholders_used" := AuditExport.JObject([]),
      "policy_snapshot" := AuditExport.JObject([])]
  }

  /** The client's request times still inside the window that ends at `now`. */
  function Window(rateLimit: map<string, seq<int>>, host: Option<string>, now: int): seq<int> {
    var k := RateLimitKey(ClientIp(host));
    Prune(if k in rateLimit then rateLimit[k] else [], now)
  }

  class Proxy {
    var rateLimit: map<string, seq<int>>
    var idempotencyCache: map<string, Response>
    /** `settings.ai_api_key`. */
    const apiKey: string
    const auditTable: AuditExport.AuditTable

    /** No window holds more than 30 times. */
    predicate WindowsBounded()
      reads this
    {
      forall k | k in rateLimit :: |rateLimit[k]| <= MaxRequests
    }

    constructor (apiKey: string, auditTable: AuditExport.AuditTable)
      ensures rateLimit == map[] && idempotencyCache == map[]
      ensures this.apiKey == apiKey && this.auditTable == auditTable
      ensures WindowsBounded()
    {
      rateLimit := map[];
      idempotencyCache := map[];
      this.apiKey := apiKey;
      this.auditTable := auditTable;
    }

    /** `ai_complete`. A cached key replays its response and touches nothing. Otherwise the
        client's window is pruned (and stays pruned even if the request is then refused);
        a full window refuses with 429 without recording `now`; an accepted request records
        `now`, logs one audit row and, when keyed, caches its response. */
    method AiComplete(prompt: string, host: Option<string>, key: Option<string>,
                      now: int, nowIso: string, nowTimestamp: string,
                      dumps: AuditExport.Json -> string)
      returns (r: Result<Response, int>)
      modifies this, auditTable
      ensures old(WindowsBounded()) ==> WindowsBounded()
      ensures Keyed(key) && key.value in old(idempotencyCache) ==>
        r == Ok(old(idempotencyCache)[key.value])
        && rateLimit == old(rateLimit) && idempotencyCache == old(idempotencyCache)
        && auditTable.rows == old(auditTable.rows)
      ensures !(Keyed(key) && key.value in old(idempotencyCache))
              && |Window(old(rateLimit), host, now)| >= MaxRequests ==>
        r == Err(TooManyRequests)
        && rateLimit == old(rateLimit)[RateLimitKey(ClientIp(host)) := Window(old(rateLimit), host, now)]
        && idempotencyCache == old(idempotencyCache) && auditTable.rows == old(auditTable.rows)
      ensures !(Keyed(key) && key.value in old(idempotencyCache))
              && |Window(old(rateLimit), host, now)| < MaxRequests ==>
        var response := Response(Completion(apiKey, nowIso, prompt));
        r == Ok(response)
        && rateLimit == old(rateLimit)[RateLimitKey(ClientIp(host)) := Window(old(rateLimit), host, now) + [now]]
        && auditTable.rows == old(auditTable.rows)
             + [AuditExport.RowOf(AuditEntryOf(key, nowIso, nowTimestamp), nowIso, dumps)]
        && idempotencyCache == (if Keyed(key) then old(idempotencyCache)[key.value := response]
                                else old(idempotencyCache))
    {
      var clientIp := ClientIp(host);
      if Keyed(key) && key.value in idempotencyCache {
        return Ok(idempotencyCache[key.value]);
      }
      var k := RateLimitKey(clientIp);
      var kept := Window(rateLimit, host, now);
      if |kept| >= MaxRequests {
        rateLimit := rateLimit[k := kept];
        return Err(TooManyRequests);
      }
      rateLimit := rateLimit[k := kept + [now]];
      var response := Response(Completion(apiKey, nowIso, prompt));
      auditTable.AppendAuditEntry(AuditEntryOf(key, nowIso, nowTimestamp), nowIso, dumps);
      if Keyed(key) {
        idempotencyCache := idempotencyCache[key.value := response];
      }
      return Ok(response);
    }
  }

  /** Only the caller's window changes, and after an accepted request it holds `now` and at
      most 30 times, all within the last 60 seconds (given a clock that did not run back). */
  lemma WindowAfterAccept(times: seq<int>, now: int)
    requires |Prune(times, now)| < MaxRequests
    requires forall t | t in times :: t <= now
    ensures var w := Prune(times, now) + [now];
      |w| <= MaxRequests && now in w
      && forall t | t in w :: now - WindowLength < t <= now
  {
  }

  /** A refused request leaves a full window of recent times: 30 requests in the last minute. */
  lemma RefusedMeansFull(times: seq<int>, now: int)
    requires |Prune(times, now)| >= MaxRequests
    ensures |times| >= MaxRequests
    ensures forall t | t in Prune(times, now) :: t > now - WindowLength
  {
  }

  /** Pruning twice at the same instant changes nothing more. */
  lemma {:induction false} PruneIdempotent(times: seq<int>, now: int)
    ensures Prune(Prune(times, now), now) == Prune(times, now)
    decreases |times|
  {
    if times != [] {
      PruneIdempotent(times[1..], now);
      var rest := Prune(times[1..], now);
      if times[0] > now - WindowLength {
        assert ([times[0]] + rest)[1..] == rest;
      }
    }
  }
}
