# Dev-Events core, modelled in Dafny

Dev-Events is a Next.js application for listing and creating events, backed by
MongoDB through Mongoose. Its images are hosted on Cloudinary. This project
models the four pieces of its logic that run in sequence and can be stated
precisely:

- **The create-event handler** (`POST /api/events`) and the error detail of
  the listing handler (`GET /api/events`). `POST` connects to the database and
  rejects a form without an image. It uploads the image, copies the other form
  entries into a record where the last occurrence of a repeated key wins, and
  puts the hosted URL under `image`. It normalises `mode` to `hybrid`, `online`
  or `offline` by case-insensitive substring match, in that priority. Then it
  calls `Event.create` and picks the status and JSON envelope. `GET` maps an
  error that mentions `MONGODB_URI` to a fixed hint.
- **The submit handler of the create page.** The `tags` field is split on `,`
  and the `agenda` field on line breaks. Each piece is trimmed and empty pieces
  are dropped. The original entry is deleted and the pieces are appended as
  repeated entries.
- **`connectDB`**, the process-wide connection cache `{conn, promise}`. One
  call is split at its `await` into `Begin` and `Finish`, so that waiting for
  the promise is an explicit step. `readyState === 1` is an abstract readiness
  flag.
- **The toast queue of `ToastProvider`**: a list of `{id, message, type}` with
  a module-level counter. The four-second timer becomes an explicit
  `TimerFired(id)` event.

Files, one module each:

- `wrappers.dfy` (`Wrappers`): `Option`, `Result`, and `Thrown`, a thrown value
  that is either an `Error` with a message or some other value.
- `js_strings.dfy` (`JsStrings`): `trim`, `split` on one character, `join`,
  `includes` and `toLowerCase`.
- `form_data.dfy` (`FormData`): the Web `FormData` as an ordered list of named
  text or file entries.
- `create_form.dfy` (`CreatePage`): the split-trim-filter and the submit
  handler's rewrite of the form.
- `connection.dfy` (`Connection`): `connectDB`.
- `events_route.dfy` (`EventsRoute`): the two handlers.
- `end_to_end.dfy` (`Submission`): what the page's form becomes in the
  handler's record.
- `toast.dfy` (`Toasts`): the toast queue.

External calls are parameters of the handler functions:

- the Cloudinary upload is `upload: seq<bv8> -> Result<string, Thrown>`, from
  the file bytes to the hosted URL or the rejection;
- `Event.create` is `create: EventRecord -> Result<D, Thrown>`;
- the result of `Event.find().sort(...)` is `query`;
- how the `n`-th `mongoose.connect` of the process settles is
  `Env.settle(n)`;
- whether `MONGODB_URI` is set is `Env.uriConfigured`.

Behaviour of the code worth knowing:

- A zero-length image `File` passes the `!file` check and is uploaded. Only
  a missing entry or an empty string gets the 400.
- A text (non-file) `image` entry passes the check. `file.arrayBuffer` then
  throws, which gives a 500.
- The create page posts every tag and agenda item as its own entry. The
  handler's `forEach` overwrites on repeated keys, so `Event.create` receives
  only the last tag and the last agenda item, not the sequences.
  `Submission.OnlyLastPieceReachesCreate` states this.
- A cached connection that is no longer ready is not re-established by the
  same call. The old promise is awaited again, the readiness check fails and
  the cache is cleared. A fresh connect starts only on the next call.
- On success `cached.promise` is kept, not cleared.

## Model

| member | source | states |
|---|---|---|
| JsStrings.TrimSpec | my-app/app/events/create/page.tsx:25 | `trim` gives a slice of the input that neither starts nor ends with whitespace, and only whitespace lies before and after that slice |
| JsStrings.TrimUnique | my-app/app/events/create/page.tsx:25 | any trimmed slice with only whitespace around it is the trim, so the property above determines `trim` |
| JsStrings.TrimEmptyIff | my-app/app/events/create/page.tsx:25-26 | a piece trims to the empty string, and is dropped by `filter(Boolean)`, exactly when it is whitespace only |
| JsStrings.TrimIdempotent | my-app/app/events/create/page.tsx:25 | trimming a trimmed piece changes nothing |
| JsStrings.SplitPieces | my-app/app/events/create/page.tsx:23-24 | `split` gives one piece more than there are separators, and no piece holds the separator |
| JsStrings.JoinSplit | my-app/app/events/create/page.tsx:23-24 | joining the pieces of a split with the separator gives the raw string back |
| JsStrings.SplitJoin | my-app/app/events/create/page.tsx:23-24 | splitting the join of separator-free pieces gives those pieces back |
| JsStrings.SplitAppend | my-app/app/events/create/page.tsx:23-24 | the pieces of the text before a separator come first, in order, then the pieces of the text after it |
| JsStrings.ContainsSpec | my-app/app/api/events/route.ts:55-59 | `includes` holds exactly when some position of the string starts an occurrence of the searched text |
| FormData.Get | my-app/app/events/create/page.tsx:21 | `get` is null exactly when the name has no entry; otherwise it is the first value under the name |
| FormData.Delete | my-app/app/events/create/page.tsx:22 | `delete` removes every entry with the name, keeps every other entry, and leaves the values of other names unchanged |
| FormData.AppendAll | my-app/app/events/create/page.tsx:27 | appending the items puts them after the existing values of the name, in order, and no other name changes |
| CreatePage.CleanItemsTrimmed | my-app/app/events/create/page.tsx:25-26 | no item left after trim-and-filter is empty, and none has leading or trailing whitespace |
| CreatePage.CleanMembers | my-app/app/events/create/page.tsx:25-26 | an item is kept exactly when it is the non-empty trim of some piece |
| CreatePage.CleanAppend | my-app/app/events/create/page.tsx:25-26 | trim-and-filter keeps the relative order: the items from the first pieces come before those from the later ones |
| CreatePage.SplitTrimFilter | my-app/app/events/create/page.tsx:23-27 | every resulting item is non-empty and trimmed, and there are at most as many items as separators plus one |
| CreatePage.SplitTrimFilterAppend | my-app/app/events/create/page.tsx:23-27 | the items of the raw text before a separator come first, in order, then those after it |
| CreatePage.SplitTrimFilterPiece | my-app/app/events/create/page.tsx:23-27 | a raw text without a separator gives its trim as the only item, or no item when it is blank |
| CreatePage.SplitTrimFilterJoin | my-app/app/events/create/page.tsx:23-36 | splitting text built by joining clean items with the separator and optional whitespace, as the edit page pre-fills with `tags.join(", ")` and `agenda.join("\n")`, gives back exactly those items |
| CreatePage.TrimPadded | my-app/app/events/create/page.tsx:25 | whitespace in front of a piece changes neither its trim nor whether it is blank |
| CreatePage.RawText | my-app/app/events/create/page.tsx:21 | the raw text exists exactly when the first entry of the field is text; a missing field or a file cannot be split |
| CreatePage.ReplaceWithPieces | my-app/app/events/create/page.tsx:21-27 | after delete-then-append, the field holds exactly the cleaned pieces of its old first value, and every other field is unchanged |
| CreatePage.PrepareSubmission | my-app/app/events/create/page.tsx:20-36 | the posted form has `tags` replaced by the comma-split pieces and `agenda` replaced by the line-split pieces, with all other fields unchanged; there is no posted form when either field is missing or a file |
| Connection.Begin | my-app/lib/mongodb.ts:30-55 | the fast path is taken exactly when a connection is cached and ready; a cached promise is reused without a new connect; otherwise a missing URI throws the configuration error, and with a URI exactly one connect starts and its promise is published |
| Connection.Finish | my-app/lib/mongodb.ts:57-72 | the call succeeds exactly when the promise resolved and the connection is ready; success stores the value and keeps the promise; any failure clears both fields and propagates the rejection or the not-ready error |
| Connection.ConnectDB | my-app/lib/mongodb.ts:30-73 | the fast path leaves the state unchanged; no connect starts while a promise is cached and at most one starts per call; a missing URI leaves the state unchanged; other failures reset both fields; success caches the awaited value; sequential calls keep the cache coherent |
| Connection.StaleConnectionNeedsTwoCalls | my-app/lib/mongodb.ts:32-69 | a cached connection that is no longer ready makes the call fail with "not ready" and clear the cache, and only the next call starts a fresh connect |
| Connection.InterleavedCallsShareOneConnect | my-app/lib/mongodb.ts:36-59 | a second call that begins while the first is awaiting reuses the first call's promise, so the two share one connect |
| EventsRoute.CollectFromLast | my-app/app/api/events/route.ts:42-47 | after the `forEach`, a key other than `image` and `__proto__` is present exactly when the form has it (or it was there before), and holds the value of its last occurrence |
| EventsRoute.CollectFromImage | my-app/app/api/events/route.ts:43-47 | the `forEach` never writes the `image` key, and a `__proto__` entry adds no key, since that assignment goes to the prototype setter |
| EventsRoute.CollectFields | my-app/app/api/events/route.ts:42-47 | the collected record has every form key except `image` and `__proto__`, each holding the value of its last occurrence |
| EventsRoute.NormalizeMode | my-app/app/api/events/route.ts:53-61 | the result is a mode token exactly when the lower-cased value mentions one; it is the first match in the order hybrid, online, offline; a value that mentions none is kept as it was, case included |
| EventsRoute.NormalizeModeIdempotent | my-app/app/api/events/route.ts:53-62 | normalising a normalised mode changes nothing |
| EventsRoute.NormalizeModeField | my-app/app/api/events/route.ts:53-62 | only a non-empty text `mode` is normalised; an absent, empty or file mode and every other key are left alone |
| EventsRoute.NormalizeModeFieldIdempotent | my-app/app/api/events/route.ts:53-62 | normalising the record twice is normalising it once |
| EventsRoute.BuildRecord | my-app/app/api/events/route.ts:42-62 | the record holds the hosted URL under `image` whatever the form held there, every other form key but `__proto__` with its last value, and the normalised mode |
| EventsRoute.Post | my-app/app/api/events/route.ts:13-82 | the connection comes first and its failure is a 500 carrying its error; the status is 400 exactly when the connection succeeded and the image is missing or empty, with no upload and no create; a non-empty text image is a 500 with the `arrayBuffer` error; a file is uploaded; an upload error means no create and a 500 carrying the upload error; otherwise the built record is created, a failed create is a 500 carrying its error, and success is a 201 carrying the created event; the status is always 201, 400 or 500 |
| EventsRoute.GetErrorDetail | my-app/app/api/events/route.ts:95-98 | the detail is the fixed hint exactly when the error is an `Error` whose message contains `MONGODB_URI`; otherwise it is the message, or "Unknown error" for a non-`Error` |
| EventsRoute.GetEvents | my-app/app/api/events/route.ts:84-104 | the response is 200 with the events exactly when the connection and the query succeed; otherwise it is 500 with the mapped detail of whichever failed first |
| EventsRoute.MissingUriResponses | my-app/app/api/events/route.ts:94-98 | with no URI configured, `GET` reports the fixed hint while `POST` reports the raw configuration message |
| Submission.OnlyLastPieceReachesCreate | my-app/app/api/events/route.ts:43-46 | for a form the create page prepared, the record holds `tags` and `agenda` exactly when the split produced pieces, and then holds only the last piece |
| Toasts.RemoveIdMembers | my-app/components/Toast.tsx:41 | a toast survives the filter exactly when it was in the list and has another id |
| Toasts.RemoveIdAppend | my-app/components/Toast.tsx:41 | the filter works piecewise on a concatenation, so the survivors keep their order |
| Toasts.RemoveIdKeepsIncreasing | my-app/components/Toast.tsx:41 | filtering a list with increasing ids leaves a list with increasing ids |
| Toasts.ShowToast | my-app/components/Toast.tsx:30-32 | the new id is larger than every id handed out before; exactly one toast is appended at the end, earlier toasts are unchanged, and the type defaults to info; validity is preserved |
| Toasts.Dismiss | my-app/components/Toast.tsx:40-42 | every toast with the id goes and all others stay; dismissing an absent id changes nothing; the counter is untouched and validity is preserved |
| Toasts.DismissRemovesOne | my-app/components/Toast.tsx:40-42 | in a valid queue, dismissing the id at one position removes exactly that toast and keeps the rest in order |
| Toasts.RunPreservesValid | my-app/components/Toast.tsx:25-42 | any sequence of shows, dismiss clicks and timer firings keeps ids increasing and at most the counter, and never lowers the counter |
| Toasts.TimerAfterDismissIsNoOp | my-app/components/Toast.tsx:35-42 | the auto-dismiss for a toast that was already dismissed does nothing |
| Toasts.ShownIdsAreFresh | my-app/components/Toast.tsx:25-31 | after any run, the next toast gets an id larger than the counter, than every id on screen, and than every id on screen before the run |

## Left out

- The Cloudinary upload and the `Buffer` conversion (my-app/app/api/events/route.ts:27-39) are a foreign network call. They become the `upload` parameter.
- `Event.create`, `Event.find().sort({ createdAt: -1 })` and `mongoose.connect` with its options are database calls. They become the `create`, `query` and `Env.settle` parameters. The sort order is not modelled.
- `mongoose.connection.readyState` is an abstract flag: one value read on entry and one after the await.
- Concurrency: `connectDB` is modelled sequentially. `Connection.InterleavedCallsShareOneConnect` covers only two calls that interleave at the await.
- A `__proto__` form entry whose value is a `File` replaces the prototype of the record in the source. The model drops the entry, which gives the same own keys, but does not model the changed prototype.
- `req.formData()` parse failures, `console.error` logging and `NextResponse` serialisation are left out. The response is a datatype holding a status and an envelope.
- EventsRoute.NormalizeMode: `toLowerCase` lower-cases only the ASCII letters, because full Unicode case mapping is out of scope. A value whose non-ASCII letters lower-case to a token is not normalised by the model.
- JsStrings.ContainsSpec: strings are sequences of Unicode scalar values, not UTF-16 code units. This makes no difference for the ASCII tokens searched for.
- React state, hooks, JSX and `setTimeout` in Toast.tsx are replaced by the `ToastEvent` sequence. The counter is shared by all providers in the source and belongs to one state here. `useToast`'s missing-provider error is not modelled.
- The client's `fetch`, JSON parsing, toasts and router navigation after submit (my-app/app/events/create/page.tsx:38-57) are not modelled. Neither are environment-variable reads or the Cloudinary configuration.
- The other files of the repository: the pages, the navigation bars, the button, the `[slug]` and `id/[id]` routes and the edit page's own submit handler. They are UI or other handlers. Only the edit page's pre-filled `join` is used, as the partner of the split.
