/**
  The start and status handlers (app.js lines 57-108) over the in-memory job
  registry `downloadMap`, a map from video ID to the download link and title
  the upstream returned. The start handler gives back its reply and the
  registry after the call; the status handler only reads the registry.
*/
module Handlers {
  import opened Options
  import opened Rotation
  import VideoId

  /**
    A field of a request: absent (or `null`, `false`, `0`), a string, or
    some other truthy value such as a number or an object.
  */
  datatype Field = Absent | Text(text: string) | OtherTruthy

  /** JavaScript truthiness of a field: the empty string is falsy. */
  predicate Truthy(f: Field)
  {
    f.OtherTruthy? || (f.Text? && f.text != "")
  }

  /** One registry entry, `{downloadUrl, title}`. */
  datatype Job = Job(downloadUrl: string, title: string)

  /** `downloadMap`: video ID to job. */
  type Registry = map<string, Job>

  /** What a handler's `catch` reports: a thrown error's message, or the `TypeError` of calling `callee` on a value that has no such method. */
  datatype ErrorCause = Message(text: string) | NotAFunction(callee: string)

  /** The reply of `POST /api/start`. */
  datatype StartReply =
    | BadRequest(error: string)                               // 400
    | Started(pid: string, title: string, downloadUrl: string) // 200, `success: true`
    | ServerError(cause: ErrorCause)                          // 500
    | Unanswered  // the `catch` block itself throws, reading `.message` of `undefined`

  datatype StartResult = StartResult(reply: StartReply, registry: Registry)

  /** `response.data.title || 'audio'`. */
  function JobTitle(title: Option<string>): (t: string)
    ensures t != ""
    ensures title.Some? && title.value != "" ==> t == title.value
    ensures title.None? || title.value == "" ==> t == "audio"
  {
    match title
    case Some(t) => if t != "" then t else "audio"
    case None => "audio"
  }

  /**
    `POST /api/start` with body field `url`. The upstream answers
    `outcomes[i]` to the call made with `keys[i]`.
  */
  function Start(registry: Registry, settings: Settings, keys: seq<string>, outcomes: seq<Attempt>,
                 url: Field): (r: StartResult)
    requires |outcomes| == |keys|
    ensures !Truthy(url) <==> r.reply == BadRequest("URL required")
    ensures r.reply == BadRequest("Invalid YouTube URL") <==>
      url.Text? && url.text != "" && VideoId.Extract(url.text).None?
    ensures r.reply.Started? ==>
      && url.Text? && VideoId.Extract(url.text) == Some(r.reply.pid)
      && VideoId.IsVideoId(r.reply.pid)
      && var fetched := FetchWithRotation(settings, r.reply.pid, keys, outcomes).result;
      && fetched.Fetched?
      && r.reply.downloadUrl == fetched.data.link
      && r.reply.title == JobTitle(fetched.data.title)
      && r.registry == registry[r.reply.pid := Job(r.reply.downloadUrl, r.reply.title)]
    ensures !r.reply.Started? ==> r.registry == registry
    ensures r.reply == Unanswered ==> |keys| == 0
    ensures url.OtherTruthy? ==> r.reply == ServerError(NotAFunction("match"))
    ensures url.Text? && VideoId.Extract(url.text).Some? ==>
      var videoId := VideoId.Extract(url.text).value;
      match FetchWithRotation(settings, videoId, keys, outcomes).result
      case Fetched(data) => r.reply == Started(videoId, JobTitle(data.title), data.link)
      case Threw(Raised(e)) => r.reply == ServerError(Message(e.message))
      case Threw(Undefined) => r.reply == Unanswered
  {
    match url
    case Absent => StartResult(BadRequest("URL required"), registry)
    case OtherTruthy => StartResult(ServerError(NotAFunction("match")), registry)
    case Text(text) =>
      if text == "" then StartResult(BadRequest("URL required"), registry)
      else
        match VideoId.Extract(text)
        case None => StartResult(BadRequest("Invalid YouTube URL"), registry)
        case Some(videoId) =>
          match FetchWithRotation(settings, videoId, keys, outcomes).result
          case Fetched(data) =>
            var title := JobTitle(data.title);
            StartResult(Started(videoId, title, data.link), registry[videoId := Job(data.link, title)])
          case Threw(Raised(e)) => StartResult(ServerError(Message(e.message)), registry)
          case Threw(Undefined) => StartResult(Unanswered, registry)
  }

  /** The reply of `GET /api/status`. */
  datatype StatusReply = StatusReply(progress: int, status: string, downloadUrl: Option<string>)

  /**
    `GET /api/status?id=<id>`; `id` is `None` when the query has no single
    string `id`. A known ID is ready with its link; any other ID, known or
    not, waits: an unknown ID is not an error. The registry is only read.
  */
  function Status(registry: Registry, id: Option<string>): (r: StatusReply)
    ensures r.status == "ready" <==> id.Some? && id.value in registry
    ensures r.status == "ready" ==> r.progress == 1000 && r.downloadUrl == Some(registry[id.value].downloadUrl)
    ensures r.status != "ready" ==> r == StatusReply(0, "waiting", None)
  {
    if id.Some? && id.value in registry then
      StatusReply(1000, "ready", Some(registry[id.value].downloadUrl))
    else
      StatusReply(0, "waiting", None)
  }

  /** After a successful start, the status of its ID is ready with the same link the start replied with. */
  lemma StartThenStatusIsReady(registry: Registry, settings: Settings, keys: seq<string>,
                               outcomes: seq<Attempt>, url: Field)
    requires |outcomes| == |keys|
    requires Start(registry, settings, keys, outcomes, url).reply.Started?
    ensures var r := Start(registry, settings, keys, outcomes, url);
      Status(r.registry, Some(r.reply.pid)) == StatusReply(1000, "ready", Some(r.reply.downloadUrl))
  {
  }

  /** A start changes the status of no other ID. */
  lemma StartKeepsOtherStatuses(registry: Registry, settings: Settings, keys: seq<string>,
                                outcomes: seq<Attempt>, url: Field, other: string)
    requires |outcomes| == |keys|
    requires var r := Start(registry, settings, keys, outcomes, url);
      !r.reply.Started? || other != r.reply.pid
    ensures var r := Start(registry, settings, keys, outcomes, url);
      Status(r.registry, Some(other)) == Status(registry, Some(other))
  {
  }

  /** With the first key answering, a valid URL starts a job that is then reported ready. */
  lemma FirstKeyAnswersEndToEnd(registry: Registry, settings: Settings, keys: seq<string>,
                                outcomes: seq<Attempt>, url: string)
    requires |outcomes| == |keys| && |keys| > 0 && outcomes[0].Answered?
    requires VideoId.Extract(url).Some?
    ensures var r := Start(registry, settings, keys, outcomes, Text(url));
      && r.reply == Started(VideoId.Extract(url).value, JobTitle(outcomes[0].data.title), outcomes[0].data.link)
      && Status(r.registry, Some(r.reply.pid)).status == "ready"
  {
    SuccessStopsRotation(settings, VideoId.Extract(url).value, keys, outcomes, 0);
  }
}
