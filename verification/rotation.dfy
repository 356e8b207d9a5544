/**
  The key-rotation failover of `fetchWithRotation` (app.js lines 22-51).
  The upstream conversion API is not called: what it answers to the request
  made with the i-th key of the pool is the given `outcomes[i]`, and the
  loop becomes a left fold over the pool that stops at the first answer or
  at the first error that is not a rate-limit or quota error.
*/
module Rotation {
  import opened Options
  import opened JsText
  import Keys

  /** The upstream settings read at start-up: the `apiUrl` base and the `apiHost` identity. */
  datatype Settings = Settings(apiUrl: string, apiHost: string)

  /** One HTTP call to the conversion API, as handed to the HTTP client. */
  datatype Request = Request(
    httpMethod: string,
    url: string,
    apiKey: string,
    apiHost: string,
    maxRedirects: nat,
    timeoutMs: nat)

  /** The call made with `key`: `GET <apiUrl>/dl?id=<videoId>`, the key trimmed into its header. */
  function RequestFor(settings: Settings, videoId: string, key: string): Request
  {
    Request("GET", settings.apiUrl + "/dl?id=" + videoId, Trim(key), Trim(settings.apiHost), 10, 10000)
  }

  /** The fields of an answer's `data` the relay reads; `title` is `None` when absent. */
  datatype Payload = Payload(link: string, title: Option<string>)

  /**
    An error thrown by one call: either it carries an HTTP response
    (`e.response.status`), or it has none (a network error, a timeout).
  */
  datatype UpstreamError =
    | HttpError(status: int, message: string)
    | NoResponse(message: string)

  /** How one call ends. */
  datatype Attempt = Answered(data: Payload) | Failed(error: UpstreamError)

  /** What the loop throws: `undefined` when it never assigned `lastError`. */
  datatype Thrown = Undefined | Raised(error: UpstreamError)

  /** How `fetchWithRotation` ends: it returns an answer or throws. */
  datatype Fetch = Fetched(data: Payload) | Threw(thrown: Thrown)

  /** The end of the loop together with the calls it made, in order. */
  datatype Rotation = Rotation(result: Fetch, sent: seq<Request>)

  /** How the fold over the attempts ends, and after how many attempts. */
  datatype Decision = Decision(result: Fetch, attempts: nat)

  /** Only a response with status 429 (rate limited) or 403 (quota) moves on to the next key. */
  predicate Rotates(e: UpstreamError)
  {
    e.HttpError? && (e.status == 429 || e.status == 403)
  }

  /** An attempt after which the loop tries the next key. */
  predicate HandsOver(a: Attempt)
  {
    a.Failed? && Rotates(a.error)
  }

  /**
    The index of the first attempt that does not hand over to the next key,
    or `|outcomes|` when all of them do: the attempt that decides the loop.
  */
  function FirstStop(outcomes: seq<Attempt>): (k: nat)
    ensures k <= |outcomes|
    ensures forall j :: 0 <= j < k ==> HandsOver(outcomes[j])
    ensures k < |outcomes| ==> !HandsOver(outcomes[k])
  {
    if |outcomes| == 0 || !HandsOver(outcomes[0]) then 0 else 1 + FirstStop(outcomes[1..])
  }

  /** `FirstStop` is the only index with its two properties. */
  lemma FirstStopUnique(outcomes: seq<Attempt>, k: nat)
    requires k <= |outcomes|
    requires forall j :: 0 <= j < k ==> HandsOver(outcomes[j])
    requires k < |outcomes| ==> !HandsOver(outcomes[k])
    ensures FirstStop(outcomes) == k
  {
  }

  /** The last attempt made, `a`, decides `result`; a handed-over `a` ends the loop only when the pool is `exhausted`. */
  predicate Settles(a: Attempt, result: Fetch, exhausted: bool)
  {
    || (a.Answered? && result == Fetched(a.data))
    || (a.Failed? && result == Threw(Raised(a.error)) && (Rotates(a.error) ==> exhausted))
  }

  /**
    The fold from attempt `i` on, with `lastError` recorded so far: it
    carries on past every attempt that hands over and stops at the first
    that does not, or throws `lastError` at the end of the pool.
  */
  function RotateFrom(outcomes: seq<Attempt>, i: nat, lastError: Thrown): (d: Decision)
    requires i <= |outcomes|
    ensures i <= d.attempts <= |outcomes|
    ensures forall j :: i <= j < d.attempts - 1 ==> HandsOver(outcomes[j])
    ensures d.attempts == i ==> i == |outcomes| && d.result == Threw(lastError)
    ensures d.attempts > i ==> Settles(outcomes[d.attempts - 1], d.result, d.attempts == |outcomes|)
    decreases |outcomes| - i
  {
    if i == |outcomes| then Decision(Threw(lastError), i)
    else
      match outcomes[i]
      case Answered(data) => Decision(Fetched(data), i + 1)
      case Failed(e) =>
        if Rotates(e) then RotateFrom(outcomes, i + 1, Raised(e))
        else Decision(Threw(Raised(e)), i + 1)
  }

  /** The calls made with the given keys, in order. */
  function Calls(settings: Settings, videoId: string, keys: seq<string>): seq<Request>
  {
    seq(|keys|, j requires 0 <= j < |keys| => RequestFor(settings, videoId, keys[j]))
  }

  /** One more key tried is one more call at the end. */
  lemma CallsGrow(settings: Settings, videoId: string, keys: seq<string>, i: nat)
    requires i < |keys|
    ensures Calls(settings, videoId, keys[..i + 1])
      == Calls(settings, videoId, keys[..i]) + [RequestFor(settings, videoId, keys[i])]
  {
    var longer := Calls(settings, videoId, keys[..i + 1]);
    var shorter := Calls(settings, videoId, keys[..i]);
    forall j | 0 <= j < i
      ensures longer[j] == shorter[j]
    {
      assert keys[..i + 1][j] == keys[..i][j];
    }
    assert longer[i] == RequestFor(settings, videoId, keys[i]);
  }

  /**
    `fetchWithRotation(videoId)` against the pool `keys`, the upstream
    answering `outcomes[i]` to the call made with `keys[i]`. The keys are
    tried in pool order, each with the same request but for the key header;
    the first attempt that does not hand over decides the result and no key
    after it is tried; when every key hands over, the last error is thrown,
    and `undefined` when the pool is empty.
  */
  function FetchWithRotation(settings: Settings, videoId: string, keys: seq<string>,
                             outcomes: seq<Attempt>): (r: Rotation)
    requires |outcomes| == |keys|
    ensures |r.sent| <= |keys|
    ensures forall j :: 0 <= j < |r.sent| ==> r.sent[j] == RequestFor(settings, videoId, keys[j])
  {
    var d := RotateFrom(outcomes, 0, Undefined);
    Rotation(d.result, Calls(settings, videoId, keys[..d.attempts]))
  }

  /**
    The rotation is decided by the first attempt that does not hand over:
    the calls stop right after it and its answer or error is the result;
    when there is none, every key is called and the last error is thrown,
    or `undefined` when the pool is empty.
  */
  lemma RotationDecision(settings: Settings, videoId: string, keys: seq<string>, outcomes: seq<Attempt>)
    requires |outcomes| == |keys|
    ensures var r := FetchWithRotation(settings, videoId, keys, outcomes);
      var k := FirstStop(outcomes);
      if k < |keys| then
        && |r.sent| == k + 1
        && r.result == (if outcomes[k].Answered? then Fetched(outcomes[k].data) else Threw(Raised(outcomes[k].error)))
      else
        && |r.sent| == |keys|
        && r.result == (if |keys| == 0 then Threw(Undefined) else Threw(Raised(outcomes[|keys| - 1].error)))
  {
    var n := RotateFrom(outcomes, 0, Undefined).attempts;
    if n > 0 {
      FirstStopUnique(outcomes, if HandsOver(outcomes[n - 1]) then n else n - 1);
    }
  }

  /** When key `i` is the first that does not hand over, exactly the calls with keys `0..i` are made and its outcome decides. */
  lemma RotationStopsAt(settings: Settings, videoId: string, keys: seq<string>,
                        outcomes: seq<Attempt>, i: nat)
    requires |outcomes| == |keys| && i < |keys|
    requires forall j :: 0 <= j < i ==> HandsOver(outcomes[j])
    requires !HandsOver(outcomes[i])
    ensures FetchWithRotation(settings, videoId, keys, outcomes)
      == Rotation(if outcomes[i].Answered? then Fetched(outcomes[i].data) else Threw(Raised(outcomes[i].error)),
                  Calls(settings, videoId, keys[..i + 1]))
  {
    RotationDecision(settings, videoId, keys, outcomes);
    FirstStopUnique(outcomes, i);
    var r := FetchWithRotation(settings, videoId, keys, outcomes);
    assert r.sent == Calls(settings, videoId, keys[..i + 1]);
  }

  /** When every key hands over, one call per key is made and the last error, or `undefined`, is thrown. */
  lemma RotationRunsOut(settings: Settings, videoId: string, keys: seq<string>, outcomes: seq<Attempt>)
    requires |outcomes| == |keys|
    requires forall j :: 0 <= j < |keys| ==> outcomes[j].Failed? && Rotates(outcomes[j].error)
    ensures FetchWithRotation(settings, videoId, keys, outcomes)
      == Rotation(if |keys| == 0 then Threw(Undefined) else Threw(Raised(outcomes[|keys| - 1].error)),
                  Calls(settings, videoId, keys))
  {
    RotationDecision(settings, videoId, keys, outcomes);
    FirstStopUnique(outcomes, |keys|);
    var r := FetchWithRotation(settings, videoId, keys, outcomes);
    assert r.sent == Calls(settings, videoId, keys);
  }

  /**
    The same loop written as the source writes it: a `for` over the keys
    that returns on an answer, records each error as `lastError`, continues
    on 429/403 and throws any other error, and throws `lastError` once the
    keys run out.
  */
  method FetchWithRotationLoop(settings: Settings, videoId: string, keys: seq<string>,
                               outcomes: seq<Attempt>) returns (result: Fetch, sent: seq<Request>)
    requires |outcomes| == |keys|
    ensures Rotation(result, sent) == FetchWithRotation(settings, videoId, keys, outcomes)
  {
    var lastError := Undefined;
    sent := [];
    for i := 0 to |keys|
      invariant sent == Calls(settings, videoId, keys[..i])
      invariant RotateFrom(outcomes, i, lastError) == RotateFrom(outcomes, 0, Undefined)
    {
      CallsGrow(settings, videoId, keys, i);
      sent := sent + [RequestFor(settings, videoId, keys[i])];
      match outcomes[i]
      case Answered(data) =>
        return Fetched(data), sent;
      case Failed(e) =>
        lastError := Raised(e);
        if !Rotates(e) {
          return Threw(lastError), sent;
        }
    }
    assert keys[..|keys|] == keys;
    result := Threw(lastError);
  }

  /** When the first keys hand over and key `k` is answered, that answer is returned after exactly `k + 1` calls. */
  lemma SuccessStopsRotation(settings: Settings, videoId: string, keys: seq<string>,
                             outcomes: seq<Attempt>, k: nat)
    requires |outcomes| == |keys| && k < |keys|
    requires forall j :: 0 <= j < k ==> HandsOver(outcomes[j])
    requires outcomes[k].Answered?
    ensures var r := FetchWithRotation(settings, videoId, keys, outcomes);
      r.result == Fetched(outcomes[k].data) && |r.sent| == k + 1
  {
    RotationDecision(settings, videoId, keys, outcomes);
  }

  /** An error other than 429/403 from the first key is thrown at once, after one call. */
  lemma FatalErrorStopsAtOnce(settings: Settings, videoId: string, keys: seq<string>,
                              outcomes: seq<Attempt>)
    requires |outcomes| == |keys| && |keys| > 0
    requires outcomes[0].Failed? && !Rotates(outcomes[0].error)
    ensures var r := FetchWithRotation(settings, videoId, keys, outcomes);
      r.result == Threw(Raised(outcomes[0].error)) && |r.sent| == 1
  {
    RotationDecision(settings, videoId, keys, outcomes);
  }

  /** When every key hands over, every key is tried and the last error, not the first, is thrown. */
  lemma ExhaustedPoolThrowsLastError(settings: Settings, videoId: string, keys: seq<string>,
                                     outcomes: seq<Attempt>)
    requires |outcomes| == |keys| && |keys| > 0
    requires forall j :: 0 <= j < |keys| ==> outcomes[j].Failed? && Rotates(outcomes[j].error)
    ensures var r := FetchWithRotation(settings, videoId, keys, outcomes);
      r.result == Threw(Raised(outcomes[|keys| - 1].error)) && |r.sent| == |keys|
  {
    RotationDecision(settings, videoId, keys, outcomes);
  }

  /** With an empty pool no call is made and `undefined` is thrown. */
  lemma EmptyPoolThrowsUndefined(settings: Settings, videoId: string)
    ensures FetchWithRotation(settings, videoId, [], []) == Rotation(Threw(Undefined), [])
  {
    RotationDecision(settings, videoId, [], []);
  }

  /** A pool of one key passes the single call's outcome straight through. */
  lemma SingleKeyPassesThrough(settings: Settings, videoId: string, key: string, outcome: Attempt)
    ensures var r := FetchWithRotation(settings, videoId, [key], [outcome]);
      && r.sent == [RequestFor(settings, videoId, key)]
      && r.result == (if outcome.Answered? then Fetched(outcome.data) else Threw(Raised(outcome.error)))
  {
    RotationDecision(settings, videoId, [key], [outcome]);
  }

  /**
    Any two calls of one rotation agree on method, URL, host header,
    redirect limit and timeout, and the URL is `<apiUrl>/dl?id=<videoId>`;
    only the key header differs.
  */
  lemma RequestsDifferOnlyInKey(settings: Settings, videoId: string, keys: seq<string>,
                                outcomes: seq<Attempt>, j: nat, j': nat)
    requires |outcomes| == |keys|
    requires var r := FetchWithRotation(settings, videoId, keys, outcomes); j < |r.sent| && j' < |r.sent|
    ensures var r := FetchWithRotation(settings, videoId, keys, outcomes);
      && r.sent[j].(apiKey := "") == r.sent[j'].(apiKey := "")
      && r.sent[j].url == settings.apiUrl + "/dl?id=" + videoId
      && r.sent[j].apiKey == Trim(keys[j])
  {
  }

  /**
    For a pool loaded from the `API_KEYS` setting the key header is the
    loaded key itself, and `undefined` is never thrown, since the loaded
    pool always holds at least one key.
  */
  lemma LoadedPoolRotation(settings: Settings, videoId: string, setting: string,
                           outcomes: seq<Attempt>)
    requires |outcomes| == |Keys.ParseKeys(setting)|
    ensures var keys := Keys.ParseKeys(setting);
      var r := FetchWithRotation(settings, videoId, keys, outcomes);
      && r.result != Threw(Undefined)
      && forall j :: 0 <= j < |r.sent| ==> r.sent[j].apiKey == keys[j]
  {
    RotationDecision(settings, videoId, Keys.ParseKeys(setting), outcomes);
  }
}
