/**
 * The `/api/events` route: `POST` turns the multipart form into an event record
 * (image upload, field collection, mode normalisation) and `GET` lists the
 * events, mapping its failure to an error detail. The image host upload and the
 * database calls are parameters: `upload` maps the file bytes to the hosted URL
 * or the rejection, `create` maps the record to the stored document or the
 * thrown error, and `query` is the outcome of the listing query.
 */
module EventsRoute {
  import opened Wrappers
  import opened JsStrings
  import opened FormData
  import opened Connection

  /** The `Record<string, unknown>` handed to `Event.create`. */
  type EventRecord = map<string, FormValue>

  const ImageField := "image"
  const ModeField := "mode"
  /**
   * Assigning to this key of a plain object goes to its prototype setter and
   * never creates an own property, so the key never reaches the record.
   */
  const ProtoKey := "__proto__"

  const Hybrid := "hybrid"
  const Online := "online"
  const Offline := "offline"

  const ImageRequiredMessage := "Image file is required"
  const CreatedMessage := "Event Created Successfully"
  const CreateFailedMessage := "Event creation failed"
  const FetchedMessage := "Events fetched successfully"
  const FetchFailedMessage := "Event fetching failed"
  const UnknownError := "Unknown error"
  const UriKeyword := "MONGODB_URI"
  const UriHintPrefix := "Database connection string not configured. Please set "
  const UriHint := UriHintPrefix + UriKeyword + " environment variable."
  /** What calling `arrayBuffer()` on a string entry throws. */
  const NotAFileMessage := "file.arrayBuffer is not a function"

  /** The JSON response: status and envelope `{message, event?, events?, error?}`. */
  datatype Response<D> = Response(
    status: nat,
    message: string,
    event: Option<D>,
    events: Option<seq<D>>,
    error: Option<string>)

  // ---------------------------------------------------------------------------
  // Field collection

  /** The last element of a non-empty list. */
  function Last<T>(xs: seq<T>): T
    requires |xs| > 0
  {
    xs[|xs| - 1]
  }

  /** Whether assigning under this name creates or overwrites an own key of the record. */
  predicate Copied(name: string) {
    name != ImageField && name != ProtoKey
  }

  /**
   * The form's entries visited in order and written into the record `rec`,
   * each write overwriting the previous value of its name; entries named
   * `image` are skipped, and a `__proto__` entry adds no key.
   */
  function CollectFrom(rec: EventRecord, form: Form): EventRecord
    decreases |form|
  {
    if |form| == 0 then rec
    else
      var e := form[0];
      CollectFrom(if Copied(e.name) then rec[e.name := e.value] else rec, form[1..])
  }

  /** After the visit, a copied key holds its last value in the form, or its old value when absent. */
  lemma {:induction false} CollectFromLast(rec: EventRecord, form: Form, k: string)
    requires Copied(k)
    ensures var r := CollectFrom(rec, form);
      var vs := GetAll(form, k);
      && (k in r <==> k in rec || vs != [])
      && (k in r ==> r[k] == if vs != [] then Last(vs) else rec[k])
    decreases |form|
  {
    if |form| > 0 {
      var e := form[0];
      var rec' := if Copied(e.name) then rec[e.name := e.value] else rec;
      CollectFromLast(rec', form[1..], k);
    }
  }

  /** The visit never touches the image key nor the prototype key. */
  lemma {:induction false} CollectFromImage(rec: EventRecord, form: Form, k: string)
    requires !Copied(k)
    ensures var r := CollectFrom(rec, form);
      (k in r <==> k in rec) && (k in r ==> r[k] == rec[k])
    decreases |form|
  {
    if |form| > 0 {
      var e := form[0];
      CollectFromImage(if Copied(e.name) then rec[e.name := e.value] else rec, form[1..], k);
    }
  }

  /**
   * The fields of the form copied into a fresh record: every name but `image`
   * and `__proto__` appears, and a repeated name keeps the value of its last
   * occurrence.
   */
  function CollectFields(form: Form): (r: EventRecord)
    ensures ImageField !in r && ProtoKey !in r
    ensures forall k :: k != ImageField && k != ProtoKey ==> (k in r <==> GetAll(form, k) != [])
    ensures forall k :: k in r ==> r[k] == Last(GetAll(form, k))
  {
    var r := CollectFrom(map[], form);
    CollectFromImage(map[], form, ImageField);
    CollectFromImage(map[], form, ProtoKey);
    forall k | k != ImageField && k != ProtoKey
      ensures (k in r <==> GetAll(form, k) != []) && (k in r ==> r[k] == Last(GetAll(form, k)))
    {
      CollectFromLast(map[], form, k);
    }
    r
  }

  // ---------------------------------------------------------------------------
  // Mode normalisation

  predicate IsModeToken(s: string) {
    s == Hybrid || s == Online || s == Offline
  }

  /** The lower-cased value contains one of the three mode tokens. */
  predicate MentionsMode(v: string) {
    var lower := ToLower(v);
    Contains(lower, Hybrid) || Contains(lower, Online) || Contains(lower, Offline)
  }

  /** A string contains itself. */
  lemma ContainsSelf(s: string)
    ensures Contains(s, s)
  {
    ContainsSpec(s, s);
    assert OccursAt(s, s, 0);
  }

  /** Each token mentions itself, and no token mentions an earlier-ranked one. */
  lemma TokenFacts()
    ensures ToLower(Hybrid) == Hybrid && ToLower(Online) == Online && ToLower(Offline) == Offline
    ensures Contains(Hybrid, Hybrid) && Contains(Online, Online) && Contains(Offline, Offline)
    ensures !Contains(Online, Hybrid) && !Contains(Offline, Hybrid) && !Contains(Offline, Online)
  {
    ToLowerOfLower(Hybrid);
    ToLowerOfLower(Online);
    ToLowerOfLower(Offline);
    ContainsSelf(Hybrid);
    ContainsSelf(Online);
    ContainsSelf(Offline);
    ContainsSpec(Online, Hybrid);
    ContainsSpec(Offline, Hybrid);
    ContainsSpec(Offline, Online);
    assert Offline[1] != Online[1] && Offline[1..][0] != Online[0];
    assert !OccursAt(Offline, Online, 0) && !OccursAt(Offline, Online, 1);
  }

  /**
   * The normalised mode: the first of `hybrid`, `online`, `offline` that the
   * lower-cased value contains, or the value itself, case kept, when it
   * contains none.
   */
  function NormalizeMode(v: string): (r: string)
    ensures MentionsMode(v) <==> IsModeToken(r)
    ensures !MentionsMode(v) ==> r == v
    ensures IsModeToken(r) ==> Contains(ToLower(v), r)
    ensures Contains(ToLower(v), Hybrid) ==> r == Hybrid
    ensures r == Offline ==> !Contains(ToLower(v), Online)
  {
    TokenFacts();
    var lower := ToLower(v);
    if Contains(lower, Hybrid) then Hybrid
    else if Contains(lower, Online) then Online
    else if Contains(lower, Offline) then Offline
    else v
  }

  /** Normalising a normalised mode changes nothing. */
  lemma NormalizeModeIdempotent(v: string)
    ensures NormalizeMode(NormalizeMode(v)) == NormalizeMode(v)
  {
    TokenFacts();
  }

  /**
   * `if (event.mode && typeof event.mode === 'string') ...`: a non-empty string
   * mode is normalised; an absent, empty or file mode, and every other field,
   * is left alone.
   */
  function NormalizeModeField(rec: EventRecord): (r: EventRecord)
    ensures r.Keys == rec.Keys
    ensures forall k :: k in rec && k != ModeField ==> r[k] == rec[k]
    ensures ModeField in rec && rec[ModeField].Text? && rec[ModeField].text != "" ==>
      r[ModeField] == Text(NormalizeMode(rec[ModeField].text))
    ensures ModeField in rec && !(rec[ModeField].Text? && rec[ModeField].text != "") ==>
      r[ModeField] == rec[ModeField]
  {
    if ModeField in rec && rec[ModeField].Text? && rec[ModeField].text != "" then
      rec[ModeField := Text(NormalizeMode(rec[ModeField].text))]
    else rec
  }

  /** Normalising a record twice is normalising it once. */
  lemma NormalizeModeFieldIdempotent(rec: EventRecord)
    ensures NormalizeModeField(NormalizeModeField(rec)) == NormalizeModeField(rec)
  {
    if ModeField in rec && rec[ModeField].Text? && rec[ModeField].text != "" {
      NormalizeModeIdempotent(rec[ModeField].text);
    }
  }

  /**
   * The record handed to `Event.create`: the collected fields, `image` set to
   * the hosted URL whatever the form held under that name, and the mode
   * normalised.
   */
  function BuildRecord(form: Form, url: string): (r: EventRecord)
    ensures ImageField in r && r[ImageField] == Text(url)
    ensures ProtoKey !in r
    ensures forall k :: k != ImageField && k != ProtoKey ==> (k in r <==> GetAll(form, k) != [])
    ensures forall k :: k in r && k != ImageField && k != ModeField ==> r[k] == Last(GetAll(form, k))
    ensures ModeField in r ==> r[ModeField] == match Last(GetAll(form, ModeField))
      case Text(s) => Text(if s == "" then s else NormalizeMode(s))
      case File(f) => File(f)
  {
    NormalizeModeField(CollectFields(form)[ImageField := Text(url)])
  }

  // ---------------------------------------------------------------------------
  // Handlers

  /** `e instanceof Error ? e.message : 'Unknown error'`. */
  function ErrorText(e: Thrown): string {
    match e
    case ErrorObject(m) => m
    case NonErrorValue => UnknownError
  }

  /** The 500 response of `POST`. */
  function CreateFailed<D>(e: Thrown): Response<D> {
    Response(500, CreateFailedMessage, None, None, Some(ErrorText(e)))
  }

  /** `!file` holds for a missing entry and for an empty string. */
  predicate ImageMissing(form: Form) {
    Get(form, ImageField).None? || Get(form, ImageField) == Some(Text(""))
  }

  /** A non-empty string under `image`: it passes `!file` but has no `arrayBuffer`. */
  predicate ImageIsText(form: Form) {
    Get(form, ImageField).Some? && Get(form, ImageField).value.Text? && Get(form, ImageField).value.text != ""
  }

  /** What one `POST` does: the cache after it, the response, and the calls it made. */
  datatype PostResult<D> = PostResult(
    cache: Cache,
    response: Response<D>,
    uploaded: Option<seq<bv8>>,
    created: Option<EventRecord>)

  /**
   * `POST /api/events`. The connection comes first; then a missing image is a
   * 400, a string image throws, and a file is uploaded. An upload failure
   * creates nothing; otherwise the built record goes to `Event.create`. Any
   * thrown error becomes a 500.
   */
  function Post<D>(
    cache: Cache, env: Env, readyOnEntry: bool, readyAfterAwait: bool,
    form: Form,
    upload: seq<bv8> -> Result<string, Thrown>,
    create: EventRecord -> Result<D, Thrown>): (r: PostResult<D>)
    ensures var (c', connected) := ConnectDB(cache, env, readyOnEntry, readyAfterAwait);
      && r.cache == c'
      && (connected.Err? ==> r.response == CreateFailed(connected.error) && r.uploaded.None? && r.created.None?)
      && (connected.Ok? && ImageMissing(form) ==>
            r.response == Response(400, ImageRequiredMessage, None, None, None)
            && r.uploaded.None? && r.created.None?)
      && (r.uploaded.Some? <==> connected.Ok? && Get(form, ImageField).Some? && Get(form, ImageField).value.File?)
    ensures r.uploaded.Some? ==> r.uploaded.value == Get(form, ImageField).value.file.bytes
    ensures r.created.Some? <==> r.uploaded.Some? && upload(r.uploaded.value).Ok?
    ensures r.created.Some? ==> r.created.value == BuildRecord(form, upload(r.uploaded.value).value)
    ensures r.response.status == 201 <==> r.created.Some? && create(r.created.value).Ok?
    ensures r.response.status == 201 ==>
      r.response == Response(201, CreatedMessage, Some(create(r.created.value).value), None, None)
    ensures r.response.status == 400 <==>
      ConnectDB(cache, env, readyOnEntry, readyAfterAwait).1.Ok? && ImageMissing(form)
    ensures r.response.status in {201, 400, 500}
    ensures r.response.status == 500 ==> r.response.message == CreateFailedMessage && r.response.error.Some?
    ensures ConnectDB(cache, env, readyOnEntry, readyAfterAwait).1.Ok? && ImageIsText(form) ==>
      r.response == CreateFailed(ErrorObject(NotAFileMessage)) && r.uploaded.None? && r.created.None?
    ensures r.uploaded.Some? && upload(r.uploaded.value).Err? ==>
      r.response == CreateFailed(upload(r.uploaded.value).error)
    ensures r.created.Some? && create(r.created.value).Err? ==>
      r.response == CreateFailed(create(r.created.value).error)
  {
    var (c', connected) := ConnectDB(cache, env, readyOnEntry, readyAfterAwait);
    if connected.Err? then PostResult(c', CreateFailed(connected.error), None, None)
    else match Get(form, ImageField)
      case None => PostResult(c', Response(400, ImageRequiredMessage, None, None, None), None, None)
      case Some(Text(s)) =>
        if s == "" then PostResult(c', Response(400, ImageRequiredMessage, None, None, None), None, None)
        else PostResult(c', CreateFailed(ErrorObject(NotAFileMessage)), None, None)
      case Some(File(f)) =>
        match upload(f.bytes)
        case Err(e) => PostResult(c', CreateFailed(e), Some(f.bytes), None)
        case Ok(url) =>
          var rec := BuildRecord(form, url);
          match create(rec)
          case Err(e) => PostResult(c', CreateFailed(e), Some(f.bytes), Some(rec))
          case Ok(doc) => PostResult(c', Response(201, CreatedMessage, Some(doc), None, None), Some(f.bytes), Some(rec))
  }

  /**
   * The `error` detail of a failed `GET`: the fixed hint exactly when the error
   * is an `Error` whose message mentions `MONGODB_URI`, otherwise the message,
   * or "Unknown error" for a thrown non-`Error`.
   */
  function GetErrorDetail(e: Thrown): (d: string)
    ensures d == UriHint <==> e.ErrorObject? && Contains(e.message, UriKeyword)
    ensures d != UriHint ==> d == ErrorText(e)
  {
    ContainsSpec(UriHint, UriKeyword);
    assert OccursAt(UriHint, UriKeyword, |UriHintPrefix|);
    if e.ErrorObject? && Contains(e.message, UriKeyword) then UriHint else ErrorText(e)
  }

  /**
   * `GET /api/events`: 200 with the listed events when the connection and the
   * query succeed, otherwise 500 with the mapped error detail.
   */
  function GetEvents<D>(
    cache: Cache, env: Env, readyOnEntry: bool, readyAfterAwait: bool,
    query: Result<seq<D>, Thrown>): (r: (Cache, Response<D>))
    ensures var (c', connected) := ConnectDB(cache, env, readyOnEntry, readyAfterAwait);
      && r.0 == c'
      && (r.1.status == 200 <==> connected.Ok? && query.Ok?)
      && (r.1.status == 200 ==> r.1 == Response(200, FetchedMessage, None, Some(query.value), None))
      && (connected.Err? ==> r.1 == Response(500, FetchFailedMessage, None, None, Some(GetErrorDetail(connected.error))))
      && (connected.Ok? && query.Err? ==> r.1 == Response(500, FetchFailedMessage, None, None, Some(GetErrorDetail(query.error))))
  {
    var (c', connected) := ConnectDB(cache, env, readyOnEntry, readyAfterAwait);
    var outcome := if connected.Err? then Err(connected.error) else query;
    match outcome
    case Ok(events) => (c', Response(200, FetchedMessage, None, Some(events), None))
    case Err(e) => (c', Response(500, FetchFailedMessage, None, None, Some(GetErrorDetail(e))))
  }

  /**
   * With no URI configured and nothing cached, `GET` answers with the fixed
   * hint, while `POST` reports the raw configuration message.
   */
  lemma MissingUriResponses<D>(
    env: Env, ready: bool, form: Form,
    upload: seq<bv8> -> Result<string, Thrown>, create: EventRecord -> Result<D, Thrown>,
    query: Result<seq<D>, Thrown>)
    requires !env.uriConfigured
    ensures GetEvents(Initial, env, ready, ready, query).1.error == Some(UriHint)
    ensures Post(Initial, env, ready, ready, form, upload, create).response.error == Some(MissingUriMessage)
  {
    ContainsSpec(MissingUriMessage, UriKeyword);
    assert OccursAt(MissingUriMessage, UriKeyword, |MissingUriPrefix|);
  }
}
