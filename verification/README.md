# DataPorch: a verified model of its hard parts

DataPorch is a read-only gateway between agents and databases. This project models, in Dafny, the parts of it
whose correctness spans several functions, several goroutines or several stores, and proves what those parts are for.
`dafny verify dfyconfig.toml` checks everything.

What is modelled, with the modules that hold it:

- **The runtime cache of the PostgreSQL and MySQL adapters** (`OpenerModel`, `OpenerInvariant`, `OpenerFreshness`,
  `OpenerCloseErrors`, `OpenerShutdown`, `OpenerTheorems`, `OpenerExactness`, `OpenerAnswers`, `OpenerObject`). A
  transition system: each critical section under the opener's mutex is one step, and so is each call that leaves it
  (preparing, making, pinging and closing). Registrations are part of the state, as a commit followed by the
  invalidations of the runtimes it touches. The methods of the class `RuntimeCache` are proved to take the steps of the
  system, so what holds of runs holds of it.
- **The lease runtime of the SQLite adapter** (`LeaseModel`, `LeaseTheorems`, `LeaseObject`).
- **Bounded results** (`QueryResult`, `RowReader`, `ResultReading`): incremental byte accounting against the full JSON
  encoding, and what a client reads out of it.
- **Bounded failures** (`ErrorBound`, `FailureWire`, `FailureReading`): one budget shared by seventeen strings, the size
  of JSON in JSON, and what a client reads out of both layers. `Text`, `Unicode`, `Json` and `JsonValue` are what these
  rest on: UTF-8, code points, and JSON texts with a reader.
- **Definitions, secrets and imports** (`Connection`, `Reference`, `SecretStore`, `Repository`, `Registrar`, `Saga`,
  `Importer`): stores that fail at any step, compensation, and what is left afterwards. `Replacement` joins imports to
  the runs of the pooled runtimes: an import that returned is what later calls are served, or something later.
- **The access token** (`Timestamp`, `TokenStore`, `TokenService`) and **local credentials** (`Base64`, `Credential`).
- **Cursor pagination** (`Order`, `Paging`, `Delimited`, `Cursor`, `SourceList`, `SourceWalk`, `RelationalList`).
- **Shutdown** (`AppShutdown`): the wait for three one-shot channels.
- **Printers and grouping loops** (`Strconv`, `SystemdUnit`, `MysqlConstraints`, `SqliteConstraints`).

Conventions. Strings are byte sequences. Pointers shared between goroutines are indices into tables that only grow.
WaitGroups are counters. What may fail is an argument: how a write fares, whether a context has ended, what random bytes
and adapters give; so a contract says exactly when an operation succeeds. A write of a store file is intact, did not
happen, or is torn: the file was renamed into place and the directory could not be synced, which its writer sees as a
failure. The hash, the cipher, the JSON reader of cursors, case mapping and the printable-character table are
functions, with the hypotheses they need stated where they are used.

Where the code does less than one might expect, the exact condition is proved, and an input that fails it:

- A call is sure to be served a definition no older than a given registration exactly when no earlier registration
  of this kind has, among those after it that touch the kind, only such as have yet to invalidate it
  (`OpenerExactness.FreshnessIsExact`). A registration that has returned meets this when it touches the kind, or when
  none before it still has the kind to invalidate (`OpenerFreshness.ReturnedIsSettled`); registrations that overlap and
  change kinds need not (`OpenerExactness.OverlapServesStale`).
- A definition file that was written is read back as the definitions in memory exactly when every kind and every
  setting is UTF-8 (`Repository.RestartKeeps`): JSON has U+FFFD for each byte that is no part of a code point. An
  adapter that unescapes the path of a connection string need not yield UTF-8: the database of
  `postgres://u:p@h/d%FF` is another one after a restart (`Connection.SettingIsReplaced`). References and ids are
  always kept, so no secret is lost by it (`Saga.RestartBacks`).
- The cursor after a row comes back as it was exactly when its name is UTF-8 and short enough when encoded
  (`RelationalList.CursorLeadsBack`). After a longer name the cursor is refused (`Cursor.LongNameIsRefused`). After a
  name that is not UTF-8 it is accepted as the position after the name with U+FFFD in place of the bytes that are no
  code point (`Cursor.InvalidNameComesAgain`), so that rows can come again, for ever (`RelationalList.WalkForEver`), or
  be passed over. All walks of a catalog list it in order and reach its end exactly when the last name of each full page
  with rows after it is short enough and what comes back of it still lies between that row and the next
  (`RelationalList.WalksAreExact`).
- A token file that was written is read back exactly when its years have four digits and its two times are in the
  order of the wall clock (`TokenStore.DecodeEncode`). The order is checked by the monotonic clock when a token is
  rotated and by the wall clock when the file is read, so a rotation after the clock was set back leaves a file that is
  refused (`TokenStore.ClockSetBack`), and so does a year with five digits (`TokenStore.FarFuture`).
- The reader of the unit's own tests recovers the environment exactly when no name has a percent sign: it undoubles
  values only (`SystemdUnit.UnitRoundTrip`, `SystemdUnit.PercentNameIsDoubled`).
- The credential decoder accepts more spellings than the validator (`Credential.DecoderIsLenient`).

## Model

| member | source | states |
|---|---|---|
| OpenerTheorems.Freshness | internal/app/replacement_registrar.go:33-50 | A call of openRaw at which a registration of its id is settled never yields a client built from an earlier definition or of another kind, in every run, whatever attempts and registrations are in flight |
| OpenerTheorems.FreshOnceReturned | internal/app/replacement_registrar.go:33-50 | A call that starts once a registration has returned sees it or a later one: always when the registration touches the kind, however others of the kind overlap, and otherwise when none before it still has the kind to invalidate |
| OpenerExactness.FreshnessIsExact | internal/app/replacement_registrar.go:33-50 | For every possible history of an id, calls are sure to see a registration or a later one if and only if it is settled: no earlier registration of the kind has only pending ones of the kind after it |
| OpenerExactness.StaleIsServed | internal/app/replacement_registrar.go:41-47 | Whenever that fails, a run from the start that makes these registrations, opens a pool of the earlier definition and serves it to a call |
| OpenerExactness.HistoriesArePossible | internal/app/replacement_registrar.go:33-50 | In every run each registration of an id has done some of its invalidations, in their order: the histories the exact condition speaks of |
| OpenerExactness.OverlapServesStale | internal/app/replacement_registrar.go:41-47 | A run in which registrations of different kinds overlap, the last has returned, and a call is served the client of a definition it replaced |
| OpenerTheorems.PoolConservation | internal/connection/postgres/opener.go:198-272 | In every reachable state each pool made is in exactly one place, an unfinished attempt, a cache entry or a closer; its Close has run once if its closer has got that far, and otherwise not at all |
| OpenerTheorems.ClosedMeansDrained | internal/connection/postgres/opener.go:472-476 | When closeDone is closed, the cache is empty, every attempt has ended with its done closed once, and every pool ever made has been closed once |
| OpenerTheorems.NoAddAfterWait | internal/connection/postgres/opener.go:407-470 | From the close on no attempt is added to the WaitGroup its Wait is on; past that Wait, when the one on the closers starts, no pool and no closer either; neither counter is ever negative |
| OpenerTheorems.CloseErrorsComplete | internal/connection/mysql/opener.go:347-419 | When Close of the MySQL opener completes, the joined error holds each error that Close calls of its pools returned in the run as often as it was returned; before, never more; the PostgreSQL opener joins none |
| OpenerTheorems.ReportedAreReturned | internal/connection/mysql/opener.go:347-419 | At every moment of every run the reports of the closers are the errors that Close calls have returned so far |
| OpenerTheorems.EntriesAreCurrent | internal/connection/postgres/opener.go:134-182 | Each entry holds exactly one of a client and an unfinished attempt, at the current generation of its id |
| OpenerTheorems.ResultIsSetOnce | internal/connection/postgres/opener.go:243-319 | Every step leaves an attempt as it was, or closes its done once with exactly one of client and error set first; only an attempt of the current generation, still in its entry, publishes a client |
| OpenerTheorems.ResultPersists | internal/connection/postgres/opener.go:243-319 | From the moment its done is closed an attempt keeps its result for the rest of the run |
| OpenerTheorems.WaitersAgree | internal/connection/postgres/opener.go:321-336 | Two callers waiting on one attempt, neither ended by its own context, return the same client or error |
| OpenerAnswers.CallIsAnswered | internal/connection/postgres/opener.go:134-182 | A call on an open runtime is answered by what its entry then holds, a client or the attempt to wait for; an attempt is started exactly when there is no entry, so callers share it |
| OpenerAnswers.WaiterIsTold | internal/connection/postgres/opener.go:321-336 | A waiting caller whose context lives gets the client of its attempt if and only if that was published, and its error if and only if it has one |
| OpenerAnswers.EndedIsTold | internal/connection/postgres/opener.go:321-336 | An end of the caller's own context is told as such, and touches neither the opener nor other callers |
| OpenerAnswers.CallIsServed | internal/connection/postgres/opener.go:134-255 | From any reachable open state without an entry and with a registration of the kind: a call whose attempt meets no failure is served the pool made for it, of the latest registration |
| OpenerAnswers.PublishedWhenCurrent | internal/connection/postgres/opener.go:243-319 | An attempt publishes if and only if it has a client and its entry is still its own, which the tests of the generation and of the close then cannot fail; otherwise it ends with the error of the closed runtime, its own, or that of a stale success |
| OpenerAnswers.FailureIsNamed | internal/connection/postgres/opener.go:198-241 | A failed attempt ends with the first cause of its cancellation, and otherwise with the error of the stage that failed |
| OpenerAnswers.CancelledIsTold | internal/connection/postgres/opener.go:198-241 | An attempt cancelled before its pool passed the check never publishes, and its waiters are told the cause, but for an error of the definition, the pool or the closed runtime |
| OpenerAnswers.InvalidationDrops | internal/connection/postgres/opener.go:364-393 | An invalidation cancels the attempt of its id or hands its client to a new closer, moves the generation on, and leaves other entries |
| OpenerAnswers.ShutdownDrops | internal/connection/postgres/opener.go:416-470 | Close does so for every entry, whatever the order |
| OpenerTheorems.ClosedForever | internal/connection/postgres/opener.go:416-448 | Once closed, the cache is closed and empty in every later state, and later calls are refused |
| OpenerTheorems.RunHolds | internal/connection/postgres/opener.go:134-476 | Ownership, freshness of what is cached, and the counters hold in every state of every run |
| OpenerInvariant.StepKeeps | internal/connection/postgres/opener.go:134-476 | Every step of the opener keeps the invariant that ties attempts, entries, pools, closers, WaitGroups and the completer |
| OpenerInvariant.FinishKeeps | internal/connection/postgres/opener.go:243-319 | finishAttempt keeps the invariant in its three outcomes: published, failed, and rejected as stale |
| OpenerInvariant.InvalidateKeeps | internal/connection/postgres/opener.go:364-393 | Invalidate keeps the invariant: the entry goes, its attempt is cancelled or its pool gets a closer, the generation moves on |
| OpenerInvariant.ShutdownKeeps | internal/connection/postgres/opener.go:416-470 | Close keeps the invariant whatever the order in which it visits the entries |
| OpenerFreshness.StepFresh | internal/connection/postgres/opener.go:134-393 | Every step keeps the freshness invariant: whatever could still be served and is older than a settled registration has an invalidation pending before it |
| OpenerFreshness.SettledIsCovered | internal/app/replacement_registrar.go:33-50 | No registration that is settled is later than a definition that is stale only while invalidations of its kind are pending |
| OpenerFreshness.ReturnedIsSettled | internal/app/replacement_registrar.go:33-50 | A registration that has returned is settled when it touches the kind, and otherwise when none before it has still to invalidate the kind |
| OpenerFreshness.PublishFresh | internal/connection/postgres/opener.go:274-296 | Publishing a client keeps freshness: what its waiters may expect is no newer than what it was built from |
| OpenerFreshness.RegisterFresh | internal/connection/manager.go:56-74 | Committing a definition keeps freshness: what it makes stale is covered by its own pending invalidations |
| OpenerCloseErrors.StepAccounts | internal/connection/mysql/opener.go:347-419 | Every step keeps the account: the errors recorded are those of the closers that are past recording |
| OpenerShutdown.NoDeadlock | internal/connection/postgres/opener.go:416-476 | After Close, until it completes some step of the opener itself is possible, with no caller and no registration needed |
| OpenerShutdown.ShutdownTerminates | internal/connection/postgres/opener.go:416-476 | After Close the internal steps of any run, together with the work left, are bounded by the work there was, so they come to an end |
| OpenerShutdown.StuckMeansCompleted | internal/connection/postgres/opener.go:472-476 | A closed opener that can take no internal step has completed its close |
| OpenerObject.RuntimeCache.OpenRaw | internal/connection/postgres/opener.go:134-182 | The method serves the cached client, joins the attempt or starts one, and leaves exactly the state the transition system gives |
| OpenerObject.RuntimeCache.FinishAttempt | internal/connection/postgres/opener.go:243-319 | The method publishes, fails or rejects the attempt exactly as the step does, for both dialects |
| OpenerObject.RuntimeCache.CloseTracked | internal/connection/postgres/opener.go:395-414 | The pool of a failed or rejected attempt is handed to one new closer |
| OpenerObject.RuntimeCache.Invalidate | internal/connection/postgres/opener.go:364-393 | The method takes the invalidation step, and none once closed |
| OpenerObject.RuntimeCache.Close | internal/connection/postgres/opener.go:416-448 | The loop over the entries detaches each once, in the order it reports |
| LeaseTheorems.LeasesAreCounted | internal/connection/sqlite/runtime.go:163-202 | In every run the runtime counts the leases out, which is also the sum of the counts of all entries, attached or detached |
| LeaseTheorems.ReleaseNeverMasks | internal/connection/sqlite/runtime.go:183-202 | Every release lowers both counters by one: the guards against going below zero never act |
| LeaseTheorems.ReleasedOnce | internal/connection/sqlite/runtime.go:105-161 | A session releases its lease at most once, by failing to open or by the first close of its client |
| LeaseTheorems.DrainMeansReleased | internal/connection/sqlite/runtime.go:219-256 | The drain is closed, exactly once, when and only when the runtime is closed and every session has released |
| LeaseTheorems.InvalidationSeparates | internal/connection/sqlite/runtime.go:204-217 | A session that begins after an invalidation of its id shares its entry with no session from before |
| LeaseTheorems.ReleasedForever | internal/connection/sqlite/runtime.go:294-306 | A session that has released stays released, however often its client is closed |
| LeaseModel.StepKeeps | internal/connection/sqlite/runtime.go:163-256 | Every step keeps the counts, the map of attached entries in use, and the drain |
| LeaseModel.LastHolder | internal/connection/sqlite/runtime.go:187-197 | While another session holds the entry its count is above one, so a release does not remove it |
| LeaseObject.LeaseRuntime.Acquire | internal/connection/sqlite/runtime.go:163-181 | Refuses when closed; otherwise counts a lease on the attached entry, or on a new one |
| LeaseObject.LeaseRuntime.Release | internal/connection/sqlite/runtime.go:183-202 | Uncounts, removes an attached entry no longer in use, and closes the drain after the last lease of a closed runtime |
| LeaseObject.LeaseRuntime.Close | internal/connection/sqlite/runtime.go:219-239 | The loop detaches every attached entry and no other |
| LeaseObject.LeaseRuntime.Invalidate | internal/connection/sqlite/runtime.go:204-217 | Detaches the entry of the id, and nothing once closed |
| LeaseObject.Client.Close | internal/connection/sqlite/runtime.go:294-306 | Releases the first time only |
| LeaseObject.Open | internal/connection/sqlite/runtime.go:105-161 | Returns a client if and only if nothing fails, and keeps its lease exactly then; on every other path the lease taken is released |
| LeaseObject.ResolvedPath | internal/connection/sqlite/runtime.go:258-277 | A path exactly for the id and kind asked for, one secret, a non-empty text without NUL |
| RowReader.ReadRawRows | internal/connection/postgres/query_result.go:53-110 | Succeeds exactly when the rows kept have the right arity and their full encoding, none left over, fits the limit; delivers the first rows as they are, truncated exactly when one was left |
| RowReader.ReadTypedRows | internal/connection/sqlite/query_result.go:50-94 | The same for typed values, which fail otherwise only on an unknown type; each cell says its value: none for NULL, the decimal of the integer, the text itself, the literal of the bytes |
| RowReader.ReadRow | internal/connection/sqlite/query_result.go:96-141 | Rejects a value early only when the row cannot fit; otherwise renders every value, so that it can be read back |
| RowReader.GuardsLoseNothing | internal/connection/sqlite/query_result.go:110-141 | A text longer than the limit, or a blob longer than half of what is left of it, cannot fit once encoded |
| RowReader.EncodedRowSize | internal/connection/postgres/query_result.go:231-275 | The size of the row encoding when it fits and nothing otherwise, with the length guard or without it |
| RowReader.BlobLiteral | internal/connection/sqlite/query_result.go:143-158 | The buffer of exactly 3 + 2n bytes is the literal |
| RowReader.BlobTextInjective | internal/connection/mysql/query_result.go:75-90 | Different binary values have different literals |
| RowReader.BlobIsRead | internal/connection/sqlite/query_result.go:143-158 | Reading the literal as hexadecimal gives the bytes back |
| Text.FormatIntIsRead | internal/connection/sqlite/query_result.go:114-116 | Each integer is read from the text it is formatted as, and from no other |
| RowReader.DeliveredFits | internal/connection/postgres/query_result.go:80-110 | What is delivered fits too: the truncation flag makes the encoding no longer |
| QueryResult.Budget.FitsAdditionalRow | internal/connection/postgres/query_result.go:204-220 | True exactly when the full encoding with one more row fits, with no overflow on the way |
| QueryResult.Budget.RetainRow | internal/connection/postgres/query_result.go:222-229 | The counters stay those of the full encoding |
| QueryResult.Budget.Fits | internal/connection/postgres/query_result.go:191-202 | True exactly when no part is negative and their sum is within the limit, though nothing is added up |
| QueryResult.EncodeSize | internal/connection/postgres/query_result.go:147-189 | The full encoding is the fixed part, the rows, the digits of the count and the flag |
| QueryResult.OutputGrows | internal/connection/postgres/query_result.go:53-110 | Results with fewer rows have encodings no longer, so stopping at the first row that does not fit loses nothing |
| ResultReading.EncodingIsJson | internal/execution/query.go:31-38 | The bytes that are counted are the JSON text of the result and its columns and rows, member by member |
| ResultReading.ResultIsRead | internal/execution/query.go:31-38 | A client that reads the encoding gets kind, source, columns, rows, count and flag by their names, with texts made UTF-8 |
| Json.EscapeAtLeast | internal/connection/postgres/query_result.go:231-275 | The JSON encoding of any byte string is at least as long, valid UTF-8 or not |
| Json.EscapeTwiceAtMost | internal/transports/mcp/query.go:205-225 | Encoding a valid string twice takes at most seven bytes for each of its bytes |
| Json.EscapeConcat | internal/transports/mcp/query.go:312-331 | Encoding distributes over concatenation at code point boundaries |
| Json.UnescapeEscape | internal/transports/mcp/query.go:312-331 | Reading an encoded string gives its bytes with those that are not UTF-8 replaced |
| Json.EscapeInjective | internal/transports/mcp/query.go:312-331 | Valid strings with equal encodings are equal |
| JsonValue.ParseRender | internal/transports/mcp/query.go:312-331 | The text of any value, nested lists and objects with all their names, is read back as the value, with its texts made UTF-8, whatever follows |
| Json.EscapedAre | internal/transports/mcp/query.go:312-331 | Control characters, quotation marks, backslashes and the signs of HTML are escaped, and no other ASCII |
| Unicode.ScalarIsRune | internal/transports/mcp/query.go:270-310 | The code points that are no surrogates are exactly those whose encodings are recognised, and each is decoded again |
| Unicode.StartsWithRune | internal/transports/mcp/query.go:295-300 | A string starts with a code point exactly when it starts with its encoding: no overlong form and no surrogate is taken for one |
| ErrorBound.BoundUtf8String | internal/transports/mcp/query.go:270-310 | The clipped string, what is left of the budget, and whether a tail was dropped; the fast path equals the loop |
| ErrorBound.ClipIsLongest | internal/transports/mcp/query.go:270-310 | The clipped string is the longest prefix of the sanitised value, at a code point boundary, that fits the room |
| ErrorBound.BoundDatabaseError | internal/transports/mcp/query.go:227-268 | The seventeen strings in their order spend one budget, the flag is set when a tail was dropped, and the original size is reported |
| ErrorBound.BoundedStrings | internal/transports/mcp/query.go:227-268 | Each bounded string is valid UTF-8 and the longest that fits what the ones before it left, and together they keep the budget |
| ErrorBound.BoundedFields | internal/transports/mcp/query.go:227-268 | Field by field: each string takes the most it can of what kind, code, severities, message and the rest before it left, and the numbers stay |
| ErrorBound.FittingError | internal/transports/mcp/query.go:227-268 | An error that fits the budget is kept whole, but for bytes that are no text, and is not marked |
| ErrorBound.DroppedMeansShorter | internal/transports/mcp/query.go:227-268 | A tail is dropped exactly when some string does not come out whole |
| ErrorBound.BoundOnce | internal/transports/mcp/query.go:227-268 | Bounding again with the same budget changes nothing |
| FailureWire.BoundedFailureFits | internal/transports/mcp/query.go:205-331 | For any database error and any limit of at least 65536, the bounded failure, JSON in JSON, is within the limit |
| FailureWire.FinishRelationalQueryError | internal/transports/mcp/query.go:147-188 | What is sent fits any limit New accepts, also when the context ends between the two classifications; for configured limits it is the failure itself, with the bounded database error and its message, or the end of the context, and never the fallback |
| FailureWire.BoundedReports | internal/transports/mcp/query.go:205-225 | The message of a response is that of its bounded database error, or the fixed text when nothing of it is left; all strings come whole when they fit a sixteenth of the limit, up to the maximum |
| FailureWire.FallbackFits | internal/transports/mcp/handler.go:126-135 | The fallback failure, whatever became of the context, is no longer than the one the limit was checked for |
| FailureWire.ConfiguredLimitsAreAccepted | internal/config/config.go:24 | The smallest configurable limit is accepted by New |
| FailureWire.FailureCost | internal/transports/mcp/query.go:312-331 | The doubly encoded failure costs at most seven bytes for each byte of its strings, and a constant |
| FailureWire.PlainFailureSize | internal/transports/mcp/query.go:312-331 | The exact size of a failure without a database error: a frame, its name and its message |
| FailureReading.FailureIsRead | internal/transports/mcp/query.go:312-331 | A client reads the text out of the tool result, and out of the text category, message, flag and every field of the database error that is not empty, by its name |
| FailureReading.BoundedIsRead | internal/transports/mcp/query.go:205-225 | So it does of every bounded failure, whatever bytes the database put into its error |
| Connection.CollectDefinitions | internal/connection/filestore/store.go:127-140 | The loop of load and NewManager: a map by id exactly when all are valid and no id repeats |
| Connection.CollectSorted | internal/connection/filestore/store.go:152-166 | Collecting definitions listed in order, before they are encoded, gives the same definitions: so a manager takes over what a store lists |
| Connection.ReadBack | internal/connection/filestore/store.go:127-150 | A file of definitions is read as the definitions with their texts made UTF-8: the same ones exactly when every kind and setting is UTF-8 |
| Connection.StoredIsValid | internal/connection/definition.go:37-67 | Writing a valid definition keeps it valid, with its id and references, and changes it exactly when its kind or a setting is not UTF-8 |
| Connection.DefinitionIs | internal/connection/definition.go:37-67 | Valid are definitions with an identifier, a kind, field names shared by no setting and secret, and references that parse |
| Connection.IdentifierIs | internal/connection/definition.go:99-111 | Identifiers are 1 to 128 letters, numerals, points, underscores and hyphens |
| Connection.FieldNameIs | internal/connection/definition.go:113-125 | Field names are a letter followed by letters, numerals, underscores and hyphens |
| Connection.BlankIs | internal/connection/definition.go:42-44 | Blank strings are exactly the encodings of sequences of white-space code points |
| Connection.SettingIsReplaced | internal/connection/postgres/adapter.go:201-226 | The database with the byte FF is valid, and is read back from its file as another one |
| Connection.SortDefinitions | internal/connection/filestore/store.go:152-166 | The definitions in the order of their ids |
| Order.SortStrings | internal/connection/filestore/store.go:152-158 | The one increasing sequence of the members |
| Order.LessMeans | internal/connection/filestore/store.go:152-158 | The first byte that differs decides the order of two strings, and a proper prefix comes first |
| Order.IncreasingUnique | internal/connection/filestore/store.go:152-158 | Increasing sequences with the same members are equal |
| Reference.LocalParts | internal/secret/reference.go:26-47 | A local reference exists exactly for a visible identifier without a slash, and its parts are the scheme and that identifier |
| Reference.GeneratedIsLocal | internal/secret/local/store.go:92-97 | The encoding of random bytes always makes a local reference |
| Reference.CutAfter | internal/secret/reference.go:15-24 | The cut is at the first separator |
| Reference.SchemeIs | internal/secret/reference.go:15-32 | Schemes are a lower-case letter followed by lower-case letters, numerals and hyphens |
| Reference.ControlIs | internal/secret/reference.go:15-32 | Control characters are those below the space and from DEL to U+009F |
| SecretStore.Store.Put | internal/secret/local/store.go:80-118 | A new secret with exactly this value under the new id when its write succeeds, and otherwise nothing changed |
| SecretStore.Store.Resolve | internal/secret/local/store.go:120-163 | The stored value, or the error that says why there is none |
| SecretStore.ResolutionIs | internal/secret/local/store.go:120-163 | Each outcome exactly when: an invalid reference, another provider, an id that is no encoding, no such secret, or its value |
| SecretStore.Store.Delete | internal/secret/local/store.go:165-192 | Exactly one secret goes when it is there and the write succeeds; otherwise none, and the failure is counted |
| Repository.FileStore.Upsert | internal/connection/filestore/store.go:74-97 | Succeeds exactly on a valid definition whose write succeeds: one definition replaced in memory, and the file written from that; otherwise memory is unchanged |
| Repository.FileStore.Lookup | internal/connection/filestore/store.go:46-60 | The definition, not found exactly when there is none, or the end of the context |
| Repository.RestartKeeps | internal/connection/filestore/store.go:99-141 | Without a torn write, opening the file again gives the definitions as written: those in memory exactly when every kind and setting is UTF-8; opening it once more changes nothing |
| Repository.Manager.Register | internal/connection/manager.go:56-74 | Fails exactly on an invalid definition; otherwise replaces one definition and returns the previous one |
| Repository.Manager.Prepare | internal/connection/manager.go:105-153 | The definition with every secret resolved, if and only if it is registered, each reference resolves and the context lasts for all of them; not registered is told exactly when it is so |
| Repository.Manager.List | internal/connection/manager.go:88-103 | The definitions in the order of their ids |
| Registrar.ReplacementRegistrar.Register | internal/app/replacement_registrar.go:33-50 | Commits the definition, then invalidates the id once in each runtime of the previous and the new kind, and in no other; an invalid definition changes nothing |
| Registrar.ReplacementRegistrar.Invalidate | internal/app/replacement_registrar.go:52-59 | Invalidates the runtime of the kind, if there is one, and no other |
| Registrar.TouchedTwice | internal/app/replacement_registrar.go:41-47 | One invalidation when the kind stays, two when it changes |
| Replacement.RegisterIsServed | internal/app/replacement_registrar.go:33-50 | A registration continues any run of a pooled runtime to the state it leaves the runtime in; from there, however things go on, no call for the id is served a client of an older definition, if it touches the kind or nothing earlier is pending for the kind |
| Replacement.ImportIsServed | internal/connection/importer.go:90-146 | The same of an import that returned, whether it keeps or changes the kind |
| Replacement.EffectiveIsSeen | internal/app/replacement_registrar.go:33-50 | A registration that has returned stays in effect: whatever registrations, calls and failures follow, every later call sees it or a later one |
| Importer.ConnectionImporter.Import | internal/connection/importer.go:90-146 | Succeeds if and only if id and kind are valid, the adapter is found, the parsed connection is valid and nothing the import needs fails; a bad connection string is told exactly as such. Whatever fails, stores and manager agree, every reference resolves and none is shared; an error leaves definitions and runtimes as they were; a success stores what was parsed; nothing leaks unless a deletion failed, which a success meets exactly when a deletion of an old secret fails |
| Importer.ConnectionImporter.ImportAll | internal/connection/importer.go:90-174 | Over any sequence of imports with any failures each succeeds exactly as it would alone and the stores stay consistent; when no deletion failed nothing leaked, and if nothing had leaked before, the live secrets are exactly those the stored definitions use |
| Importer.ConnectionImporter.ImportParsed | internal/connection/importer.go:117-146 | The same for the part after the connection string was parsed; the registration cannot fail |
| Importer.ConnectionImporter.SaveDefinition | internal/connection/importer.go:117-131 | Secrets and definition are stored exactly when no write fails, or the definitions are unchanged and, unless a deletion failed, so are the secrets |
| Importer.ConnectionImporter.NewDefinition | internal/connection/importer.go:148-174 | A valid definition whose references lead to the parsed values, or, unless a deletion failed, the secrets there were |
| Importer.ConnectionImporter.StoreSecrets | internal/connection/importer.go:201-224 | All secrets are stored under fresh ids with their values exactly when no write fails; otherwise, unless a deletion failed, the store has the secrets it had |
| Importer.ConnectionImporter.DeleteNew | internal/connection/importer.go:226-230 | Every reference is tried; nothing else changes, and all are gone exactly when no deletion fails |
| Importer.ConnectionImporter.DeleteOld | internal/connection/importer.go:232-239 | Stops and warns at the first failure; all are gone and nobody is warned exactly when no deletion fails |
| Importer.ConnectionImporter.EverythingResolves | internal/connection/manager.go:128-152 | In a consistent state every reference of every registered definition resolves to its secret |
| Importer.ConnectionImporter.ImportedIsPrepared | internal/connection/manager.go:128-152 | What was imported is what Prepare delivers: the parsed settings and the parsed secrets |
| Saga.ReplaceKeeps | internal/connection/importer.go:128-139 | Replacing a definition keeps every other one backed, and no reference shared, though old secrets go |
| Saga.RestartBacks | internal/connection/filestore/store.go:99-141 | After a restart the definitions read back use the same secrets, each its own, and none more is unused |
| Saga.LeakedReplaced | internal/connection/importer.go:137-139 | When the old secrets are deleted, the secrets in no use are those there were before |
| Saga.UsedReplaced | internal/connection/importer.go:128-139 | The secrets in use after a replacement: without the old ones, with the new ones |
| Saga.CommitKeeps | internal/connection/importer.go:128-139 | After a commit and a deletion that may stop half way, all is backed, and nothing leaked if it did not stop |
| Saga.AbortKeeps | internal/connection/importer.go:122-131 | After an abort everything is backed as before |
| Saga.ParsedIsDefinition | internal/connection/importer.go:192-199 | A definition with stored references is valid exactly when its names passed validateParsed |
| TokenService.Service.Create | internal/mcptoken/service.go:96-128 | Issues a token if and only if there is none, and random bytes and the write succeed: the prefix and the encoding of those bytes; the history grows by exactly that |
| TokenService.Service.Rotate | internal/mcptoken/service.go:140-178 | Replaces the token if and only if there is one and nothing fails, and keeps its creation time; the old one stays valid otherwise |
| TokenService.Service.Revoke | internal/mcptoken/service.go:180-203 | Afterwards there is no token, also out of a degraded state; fails exactly when the deletion does, and then changes nothing |
| TokenService.Service.Verify | internal/mcptoken/service.go:205-227 | Accepts exactly the token of the last Create or Rotate that succeeded with no successful Revoke after it, for tokens without a hash collision; rejects all when degraded |
| TokenService.New | internal/mcptoken/service.go:63-94 | A service on the store an earlier one left accepts what that one would have; it is degraded exactly when the file cannot be read, or holds a year of more than four digits, or a rotation that the wall clock put before the creation |
| TokenService.TokensDiffer | internal/mcptoken/service.go:244-253 | Different random bytes make different tokens |
| TokenStore.DecodeEncode | internal/mcptoken/local/store.go:171-252 | A state that was written is read back, but for its monotonic readings, if and only if its years have four digits and its times are in the order of the wall clock; otherwise the file is refused |
| TokenStore.ClockSetBack | internal/mcptoken/local/store.go:187-189 | A rotation after the wall clock was set back by a second is written, by the order of the monotonic readings, and refused when it is read |
| TokenStore.FarFuture | internal/mcptoken/local/store.go:254-286 | A token created in the year 10000 is written, and refused when it is read |
| TokenStore.Store.Save | internal/mcptoken/local/store.go:105-128 | Succeeds exactly on a state with a verifier and two times in order whose write succeeds; the file then holds its encoding, and otherwise is unchanged or the write was torn |
| TokenStore.Store.Load | internal/mcptoken/local/store.go:54-103 | Nothing, the decoded state, or an error exactly when the file is unreadable or corrupt |
| Timestamp.FormatRoundTrip | internal/mcptoken/local/store.go:254-286 | A time with a year of four digits, other than the zero time, is read back from its text |
| Timestamp.FormatOutOfRange | internal/mcptoken/local/store.go:254-286 | The text of any other year is refused |
| Timestamp.FractionRoundTrip | internal/mcptoken/local/store.go:254-286 | Nanoseconds survive the removal of trailing zeros |
| Timestamp.CivilOrder | internal/mcptoken/local/store.go:187-189 | One time is before another exactly when its fields, as one number, are smaller |
| Timestamp.BeforeIs | internal/mcptoken/local/store.go:187-189 | Two readings of the monotonic clock decide, and otherwise the fields |
| Timestamp.MonthsAre | internal/mcptoken/local/store.go:254-286 | The days of the months of every year, with the leap years of the Gregorian calendar |
| Credential.ValidateExactly | internal/mcpcontrol/token.go:28-35 | Accepted are exactly the encodings of 32 bytes |
| Credential.ValidateSpelling | internal/mcpcontrol/token.go:28-35 | The same by characters: 43 letters, the last with its two spare bits zero |
| Credential.VerifyExactly | internal/mcpcontrol/token.go:37-52 | Succeeds exactly when both are accepted and equal as strings |
| Credential.DecoderIsLenient | internal/mcpcontrol/token.go:28-35 | The decoder alone takes other spellings of every accepted credential: a line break, a spare bit |
| Base64.DecodeEncode | internal/mcpcontrol/token.go:15-26 | Decoding inverts encoding |
| Base64.EncodeUngrouped | internal/mcpcontrol/token.go:28-35 | A string of letters is the encoding of what it decodes to exactly when its spare bits are zero |
| Cursor.CursorRoundTrip | internal/execution/cursor.go:33-101 | A cursor is read back for its own request exactly when its payload is within the limit, with a name as its sanitised bytes |
| Cursor.CursorsBind | internal/execution/cursor.go:95-111 | A cursor is accepted for one request only, up to digest collisions |
| Cursor.AcceptedIs | internal/execution/cursor.go:55-101 | A cursor is accepted exactly when it is short enough, decodes, and is read as a payload of this version and request, with a name or with a positive ordinal; the test of hexadecimal digits follows from that |
| Cursor.NamesAreNotOrdinals | internal/execution/cursor.go:90-93 | No bytes at all are accepted both as a name cursor and as an ordinal cursor |
| Cursor.FingerprintBinds | internal/execution/cursor.go:103-112 | Requests with one fingerprint are the same request, up to digest collisions |
| Cursor.MarshalRequestInjective | internal/execution/cursor.go:103-112 | Requests of valid strings are told apart by their encodings |
| Cursor.NamePayloadSize | internal/execution/cursor.go:39-51 | The exact size of a payload with a name |
| Cursor.WrittenIsReadBack | internal/execution/cursor.go:69-75 | The reader of texts in the form in which they are written reads back every payload, with a name as its sanitised bytes: what the others assume of the reader |
| Cursor.LongNameIsRefused | internal/execution/cursor.go:60-67 | The cursor on a name of four thousand letters is emitted and then refused |
| Cursor.InvalidNameComesAgain | internal/execution/cursor.go:39-51 | The cursor on the byte FF comes back as the position after U+FFFD, which is before that name |
| Delimited.QuotePeel | internal/execution/cursor.go:103-112 | Two texts that begin with encoded strings and are equal begin with the same one |
| SourceList.ListDataSources | internal/execution/discovery_service.go:97-168 | Filter, sort, binary search and slice: an id is listed if and only if it is registered, the search is found somewhere in it, case aside, it comes after the cursor, and it is not past the end of a full page, after which a cursor is given exactly when more follow; each error exactly when its check fails |
| SourceList.SearchAfter | internal/execution/discovery_service.go:148-152 | The binary search finds where the ids after the position begin |
| SourceList.SortSources | internal/execution/discovery_service.go:146 | The same sources in the order of their ids |
| SourceList.FilterSources | internal/execution/discovery_service.go:124-146 | The sources whose ids match the search, each once |
| SourceList.ContainsIs | internal/execution/discovery_service.go:130-132 | A string contains another exactly when that is found at some position of it |
| SourceList.EffectiveLimit | internal/execution/discovery_service.go:170-180 | Always between one and the maximum; refused exactly when asked outside of it |
| SourceWalk.WalkMissesNothing | internal/execution/discovery_service.go:97-168 | Following next cursors through any changes of the registry, ids increase strictly, and a source that matched all along appears exactly once |
| SourceWalk.FixedRegistry | internal/execution/discovery_service.go:97-168 | On a registry that stays the same any walk lists the ids in order, as many as its answers hold; it ends exactly when that is all of them, and none is longer than that takes, one answer when there are none |
| SourceWalk.CursorsLeadOn | internal/execution/discovery_service.go:159-165 | No next cursor is refused, whatever the registry has become |
| SourceList.CursorIsForOneSearch | internal/execution/discovery_service.go:108-117 | A cursor is good for one search and one limit, up to collisions |
| SourceWalk.EmittedCursorDecodes | internal/execution/cursor.go:33-101 | A cursor on a valid id decodes to that id for its request |
| Paging.CompleteWalk | internal/execution/discovery_service.go:124-165 | In a completed walk over changing lists no key comes twice, and one present throughout comes once |
| Paging.WalkIncreases | internal/execution/discovery_service.go:124-165 | What a walk has emitted increases strictly and does not pass its position |
| Paging.PresentIsEmitted | internal/execution/discovery_service.go:124-165 | A key in every list so far is emitted or still ahead |
| Paging.FixedWalkCompletes | internal/execution/discovery_service.go:124-165 | Any walk over a fixed list has emitted as many keys as its pages hold, is complete exactly when that is the whole list, and is never longer than that takes |
| RelationalList.WalkListsAll | internal/execution/discovery_service.go:246-315 | Any walk by names or by gapped ordinals whose cursors are carried lists the catalog in order, as many rows as its answers hold; it ends exactly when that is all of them, and is never longer than that takes |
| RelationalList.NoEmptyPage | internal/execution/discovery_service.go:302-312 | No page is empty unless the catalog is, and all but the last are full |
| RelationalList.WalkIsBounded | internal/execution/discovery_service.go:318-400 | No walk whose cursors are carried goes on for ever: each further page means as many more rows |
| RelationalList.WalksAreExact | internal/execution/discovery_service.go:246-400 | All walks of a catalog list it in order and go on to its end, if and only if each cursor after a full page is carried |
| RelationalList.CursorLeadsOn | internal/execution/discovery_service.go:302-312 | A next cursor is answered with the rows that follow exactly when its name is short enough and what comes back of it lies between the last row of the page and the next; otherwise it is refused or the next row does not come first |
| RelationalList.WalkForEver | internal/execution/cursor.go:39-51 | Two names that are not UTF-8, on pages of one row: walks of any length show the first again and again |
| RelationalList.CursorLeadsBack | internal/execution/discovery_service.go:392-397 | The cursor after a row is read back as the position after it exactly when its key is a text short enough or a positive integer |
| RelationalList.PastAnItem | internal/connection/postgres/table_discovery.go:58-109 | The rows past the key of a row are those after it |
| RelationalList.DiscoverPage | internal/connection/postgres/column_discovery.go:151-175 | All rows but the one too many, which is reported as more |
| RelationalList.ListItems | internal/execution/discovery_service.go:276-314 | The answer to a cursor is the page of the catalog after it |
| AppShutdown.WaitForServers | internal/app/app.go:268-332 | It goes on over harmless reports until the context ends, the public server fails or the local transport does, and then exactly the aftermath of that follows: cancel, stop and receive what is still open, close the runtimes; it returns exactly what failed |
| AppShutdown.FailLocalMCP | internal/app/app.go:334-355 | After a failure of the local transport the others are stopped, received and the runtimes closed |
| AppShutdown.Shutdown | internal/app/app.go:357-391 | The same after the end of the context, with every report still open received |
| AppShutdown.ReceivedAtMostOnce | internal/app/app.go:268-332 | No channel is received from twice |
| AppShutdown.ClosedOnceAndLast | internal/app/app.go:268-402 | The runtimes are closed once, after every transport that was started has reported |
| AppShutdown.WaitsEnd | internal/app/app.go:404-420 | A receive waits only for a transport that was told to stop and has not reported, so none waits for ever |
| AppShutdown.FailuresAre | internal/app/app.go:289-303 | What is returned names a public report other than a plain close, a local one that is no cancellation or close, a server and runtimes that did not stop cleanly, and nothing else |
| SystemdUnit.UnitRoundTrip | internal/cli/service_systemd.go:96-123 | Reading the unit recovers executable and arguments of every accepted definition, and the environment exactly when no name has a percent sign |
| SystemdUnit.PercentNameIsDoubled | internal/cli/service_systemd_test.go:229-246 | A variable named with a percent sign is read back under two of them |
| SystemdUnit.RenderSystemdUnit | internal/cli/service_systemd.go:96-123 | A unit for exactly the accepted definitions, line by line |
| SystemdUnit.ValidateDefinition | internal/cli/service_definition.go:65-103 | Accepts exactly definitions with an executable, names without an equals sign and unique, and no NUL or line break |
| SystemdUnit.ExecRoundTrip | internal/cli/service_systemd.go:106-114 | The command line is read back, whatever bytes the arguments hold |
| SystemdUnit.EnvironmentRoundTrip | internal/cli/service_systemd.go:115-121 | The environment is read back with the percent signs of its names doubled |
| SystemdUnit.UndoubledDoubled | internal/cli/service_systemd.go:100-105 | Undoubling percent signs inverts doubling them |
| Strconv.UnquoteQuote | internal/cli/service_systemd.go:104 | Any bytes survive quoting and unquoting, whichever characters count as printable |
| Strconv.QuoteEnds | internal/cli/service_systemd.go:104 | The first quotation mark not escaped is the closing one, and no line break comes before it |
| Strconv.PlainIsQuoted | internal/cli/service_systemd.go:104 | Printable ASCII without quotation marks and backslashes is quoted as it is |
| MysqlConstraints.Accumulate | internal/connection/mysql/constraint_discovery.go:115-174 | One accumulator for each name, in first-seen order, gathered from exactly the rows of that name |
| MysqlConstraints.ListConstraints | internal/connection/mysql/constraint_discovery.go:180-199 | The constraints of the names in first-seen order, without those of other columns; fails exactly on an unknown name of a type, option or action |
| MysqlConstraints.ListedOnce | internal/connection/mysql/constraint_discovery.go:180-199 | No constraint is listed twice |
| MysqlConstraints.NamedAfterRows | internal/connection/mysql/constraint_discovery.go:247-303 | A constraint has the name of its rows and, unless it is a check, all their columns sorted |
| MysqlConstraints.ConstraintDescribes | internal/connection/mysql/constraint_discovery.go:247-303 | A constraint says what its rows say: type, sorted columns, check, rules, match and referenced table, each from the last row that has it, the reference only within the database; it fails exactly on an unknown type or name, and is left out exactly when no column of it is on the page |
| MysqlConstraints.GatheredFields | internal/connection/mysql/constraint_discovery.go:142-174 | Of each field the accumulator has the value of the last row that has one |
| MysqlConstraints.GatheredColumns | internal/connection/mysql/constraint_discovery.go:135-158 | Every column of the rows is gathered and no other, in their order |
| MysqlConstraints.ColumnsAre | internal/connection/mysql/constraint_discovery.go:135-158 | A column is gathered exactly when a row names it and is no check, with its ordinal or zero |
| MysqlConstraints.SortColumnsStable | internal/connection/mysql/constraint_discovery.go:352-364 | Sorting leaves the columns of each ordinal as they were: none lost, none invented, none swapped |
| MysqlConstraints.SortColumnsAscending | internal/connection/mysql/constraint_discovery.go:352-364 | Sorted columns are in the order of their ordinals |
| MysqlConstraints.SortedAlike | internal/connection/mysql/constraint_discovery.go:352-364 | Two orders of the rows give the same columns exactly when they agree on each ordinal |
| MysqlConstraints.RowOrderDoesNotMatter | internal/connection/mysql/constraint_discovery.go:352-364 | With distinct ordinals the order of the columns does not matter |
| MysqlConstraints.GatheredInAnyOrder | internal/connection/mysql/constraint_discovery.go:119-199 | The rows of a constraint in any order give the same column lists, when no two columns of a list have the same ordinal |
| SqliteConstraints.ListForeignKeys | internal/connection/sqlite/constraint_discovery.go:212-297 | Succeeds exactly when every run of rows of one id is valid and ordered, with one constraint for each run |
| SqliteConstraints.NoColumnLost | internal/connection/sqlite/constraint_discovery.go:249-262 | The constraints' columns, one after the other, are the rows' columns |
| SqliteConstraints.OneRunPerId | internal/connection/sqlite/constraint_discovery.go:226-244 | In rows ordered by id there is one constraint for each id |
| SqliteConstraints.RunsAreCuts | internal/connection/sqlite/constraint_discovery.go:226-244 | The runs are the rows, cut where the id changes |

## Left out

- The order of loops over Go maps: it is arbitrary, and where it could be seen (closing the entries of the cache) it is an argument.
- Time: timeouts and context ends are nondeterministic events, and nothing is said about how long a step takes.
- Aliasing of entries, attempts and logical entries through Go pointers is modelled by indices; fields are updated in place in `RuntimeCache` and `LeaseRuntime`.
- openRaw's check of its id before it locks: an id that is not valid has no registration.
- The opener's attempts resolve definitions and secrets in one step (`Prepare`); that a definition's secrets resolve is the subject of `Importer`.
- Connection pools are what the factory makes: drivers, TLS, dialling and the SQL itself are not part of this model. A catalog query is its specification: rows past a key, in order, limited.
- Row readers: errors of the database and ends of the context between rows; numbers other than integers, booleans and times arrive as the text the runtime formats; the table of binary MySQL types decides only whether a value is `Text` or `Blob`.
- The JSON of tool results around the failure text is a constant frame of 54 bytes, as the SDK writes it; the SDK itself is not part of this model.
- The classification of database errors is taken as given (`Classify` starts from the failure a live context yields); the log line is not modelled.
- The JSON reader (`JsonValue.Parse`, with `Json.Unescape` for strings) takes texts in the form in which they are written: no white space, fractions, exponents or surrogate escapes. For cursors it is any function that reads what is written, of which `Cursor.ReadPayload` is one. Store files are records: their JSON is read back as what it was written from, but for bytes of definitions that are not UTF-8; secrets and token files hold ASCII only.
- File permissions, locks, symbolic links and size limits of store files; adapter URI parsing; sockets, HTTP and command lines.
- Restarting after a torn write: the file may then be ahead of what its writer was told, and the next service reads it. What is proved of a torn write is that the memory of the running service stays right.
- The monotonic reading of a time is present or not, as the clock gives it; its epoch and its resets over a suspension are not modelled.
- Timestamp.Parse: the leniencies of the library beyond the layout (a one-digit hour, a comma for the point) are not accepted here, so it is stricter than the original on texts the store did not write.
- Imports of one id that overlap, and two imports of the same random secret id.
- App.Run before its wait: an ended context closes the runtimes at once, and a failure to listen returns without closing them.
- The runtimes' concurrent closing in `closeRuntimeLifecycles` is one event; each runtime's own shutdown is proved in `OpenerShutdown` and `LeaseTheorems`.
- The success path of the query tool: it sends a result that is within the limit, and takes the failure path with a result that is not.
- Contexts that have ended before a listing begins, and authorisation beyond its answer.
- Order of the members of an error joined from several: `AppShutdown` returns the set of failures.
- LeaseObject.Open: is stated for a caller alone on the runtime; interleavings of sessions are the subject of `LeaseTheorems`.
- SystemdUnit: the reader is the one the unit's own tests use; what systemd itself makes of specifiers and of a dollar sign is not modelled.
- MySQL and SQLite names of match options and actions are functions from text to text; primary keys, unique indexes and checks of SQLite are not modelled, since they have no grouping.
- The schema, table and column rows beyond their paging keys are carried along unread.
