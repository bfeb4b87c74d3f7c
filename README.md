# Session binding, SSE event store and Lambda authorizer of a streamable MCP server

This project models the core of a streamable-HTTP MCP server and its API Gateway authorizer
in Dafny, and proves properties of that model. It has three parts.

- **Event store** (`event_store.dfy`, module `EventStore`). This is `InMemoryEventStore`, the
  store behind resumable Server-Sent Events. A reconnecting client presents a `Last-Event-ID`
  (section 9.2 of the WHATWG HTML Living Standard, "Server-sent events").
  - The store keeps one bounded FIFO of entries per stream, capped at
    `max_events_per_stream`.
  - Beside the FIFOs is an index from event id to entry.
  - The class `InMemoryEventStore` holds the two structures as map fields.
  - `StoreEvent` and `ReplayEventsAfter` are methods. The replay method keeps the source's
    `found_last` loop.
  - Their contracts are tied to the pure specification `Stored` / `After`. The two-structure
    consistency invariant `Consistent` is proved to be preserved.
- **Session router** (`session_router.dfy`, module `SessionRouter`). This is the part of
  `handle_streamable_http` that classifies a request by its `mcp-session-id` header:
  dispatch to a known session, create a new session, or answer 400.
  - The class `Router` holds the `server_instances` registry.
  - It also holds a log of the calls it makes to the transport and the task group.
- **Authorizer** (`auth.dfy`, `text.dfy`, modules `Auth` and `Text`). This is `lambda_handler`,
  a pure decision over the authorizer event.
  - It requires an ARN.
  - It picks the credential by source precedence.
  - It parses the credential as `Bearer <token>` (section 2.1 of RFC 6750).
  - The `Text` module models Python's argument-less `str.split()`, with Python's exact
    whitespace set, and lower-casing.

Inputs the model cannot compute are parameters:

- the id `uuid4` generates for a new event (required fresh: `eventId !in eventIndex`);
- the id `uuid4` generates for a new session (not required fresh; the lemmas state what
  freshness adds);
- whether the global task group exists (`taskGroupReady`);
- the server's `json_response` flag.

Four facts about the code shape the router and the authorizer:

- **Registration order.** The code registers the transport in `server_instances`
  (src/server.py:283) before it starts the server task (line 300) and before it handles the
  request (line 303). If the task group is missing, the entry stays and the handler raises.
- **Session creation.** Every request without a session header creates a session; the
  request payload is never looked at.
- **No teardown.** No code path removes an entry from `server_instances`.
- **Token validation.** Validation is a placeholder that accepts every token
  (src/auth/auth.py:67).

## Model

| member | source | states |
|---|---|---|
| `Text.Split` | src/auth/auth.py:46 | every part `str.split()` returns is a non-empty run without whitespace |
| `Text.SplitJoin` | src/auth/auth.py:46 | splitting words joined by any non-empty whitespace runs, with any whitespace before and after, gives the same words back |
| `Text.SplitSeparatorRun` | src/auth/auth.py:46 | a whole run of whitespace after a word is one separator: the word is the first part and the run yields no empty part |
| `Text.SplitOfSpace` | src/auth/auth.py:46 | a string of whitespace only, such as trailing whitespace, yields no part |
| `Text.SplitSkipsLeadingSpace` | src/auth/auth.py:46 | leading whitespace never changes the result of `split()` |
| `Text.LowerIsBearer` | src/auth/auth.py:47 | a string lower-cases to "bearer" exactly when it is "bearer" with each letter in either case |
| `Text.Lower` | src/auth/auth.py:47 | lower-casing (also used on header names at line 31) keeps the length and maps each ASCII capital to its small letter, leaving every other character unchanged |
| `Auth.Arn` | src/auth/auth.py:9-17 | an ARN is found exactly when `methodArn` or `routeArn` is non-empty, and it is then the value of one of them |
| `Auth.RawCredential` | src/auth/auth.py:23-41 | a non-empty `identitySource` always supplies a credential, and any credential found is element 0 of `identitySource`, the value of a header named "authorization" in any case, or a non-empty `authorizationToken` |
| `Auth.BearerToken` | src/auth/auth.py:43-55 | a token is extracted only from a credential that splits into two parts, the first "bearer" in any case; the token is the second part, a non-empty word without whitespace |
| `Auth.LambdaHandler` | src/auth/auth.py:4-72 | the authorizer never answers `isAuthorized: true` without an ARN and an extracted Bearer token |
| `Auth.FindAuthorizationKey` | src/auth/auth.py:31 | the result is the first header whose name lower-cases to "authorization"; it is None exactly when no header has that name |
| `Auth.MissingArnDenies` | src/auth/auth.py:9-17 | without a non-empty `methodArn` or `routeArn` the response is not authorized |
| `Auth.ArnFieldIrrelevant` | src/auth/auth.py:9-19 | the decision does not depend on which ARN field is set or on the ARN's value |
| `Auth.IdentitySourceWins` | src/auth/auth.py:24-27 | a non-empty `identitySource` list supplies the credential, its element 0, whatever else the event holds |
| `Auth.HeadersSearchedNext` | src/auth/auth.py:29-34 | otherwise a non-empty `headers` dict gives a credential exactly when some header name lower-cases to "authorization", and it is the first such header's value |
| `Auth.AuthorizationTokenLast` | src/auth/auth.py:36-41 | with no identity source and no non-empty `headers`, the credential is `authorizationToken` when it is non-empty, and there is none otherwise |
| `Auth.HeadersWithoutAuthorizationDeny` | src/auth/auth.py:29-41 | a non-empty `headers` dict without an authorization header yields no credential, so `authorizationToken` is ignored and the request is denied |
| `Auth.BearerTokenCharacterized` | src/auth/auth.py:43-53 | a token is extracted exactly when the credential splits into two parts and the first is "bearer" in any case; the token is then the second part, a non-empty word |
| `Auth.BearerTokenOfWellFormed` | src/auth/auth.py:45-49 | `<bearer in any case><whitespace run><token>`, with any whitespace before and after, yields exactly that token |
| `Auth.NoTokenDenies` | src/auth/auth.py:57-61 | without an extracted token the response is `{"isAuthorized": false}` |
| `Auth.AuthorizedIff` | src/auth/auth.py:4-72 | the response is authorized exactly when there is an ARN and a Bearer token was extracted |
| `Auth.WellFormedBearerAuthorizes` | src/auth/auth.py:64-72 | an ARN and a well-formed Bearer credential, however its parts are separated and surrounded by whitespace, are always authorized, whatever the token is, because validation is the always-true placeholder |
| `EventStore.BoundedAppend` | src/server.py:84-93 | appending to a deque bounded by the cap keeps the newest `cap` entries of the old contents plus the new one, and the new entry is last |
| `EventStore.Stored` | src/server.py:82-94 | storing with a positive cap sets the stream's FIFO to the newest `cap` entries of the old FIFO plus the new one, creates the stream if it is new, leaves every other stream's FIFO as it was, and indexes the new entry under its id |
| `EventStore.IndexKeysAreHeldIds` | src/server.py:68-71 | in a consistent store the index keys are exactly the ids held in the FIFOs |
| `EventStore.StoredIsNewest` | src/server.py:77-96 | after storing, the index maps the new id to the new entry, and that entry is the last of its stream's FIFO |
| `EventStore.StoredEvictsOldest` | src/server.py:86-94 | storing into a full FIFO removes exactly its oldest entry from both the FIFO and the index; otherwise nothing is removed |
| `EventStore.StoredFrame` | src/server.py:82-94 | storing into one stream leaves every other stream's FIFO and those streams' index entries unchanged |
| `EventStore.StoredPreservesConsistency` | src/server.py:73-96 | storing a fresh event keeps the store consistent: FIFOs within the cap, held entries indexed under their ids, ids distinct, indexed entries held in their stream's FIFO |
| `EventStore.Position` | src/server.py:114-119 | the result is the position of the first entry with the given id, and None exactly when no entry has it |
| `EventStore.Messages` | src/server.py:115-117 | the callback receives one message per entry, in FIFO order, each carrying that entry's message and id |
| `EventStore.After` | src/server.py:113-119 | the events after an id are the entries behind its first occurrence in the FIFO, and none when the FIFO does not hold it |
| `EventStore.AfterIsSuffix` | src/server.py:113-119 | in a FIFO with distinct ids, the events after the one at position k are exactly the entries behind it |
| `EventStore.ReplayNewestSendsNothing` | src/server.py:114-121 | replaying from the newest event of a stream sends nothing |
| `EventStore.AfterBoundedAppend` | src/server.py:93 | on one FIFO, after appending a new event, the events after a still-held one are the earlier ones followed by the new event |
| `EventStore.ReplayAfterStore` | src/server.py:73-121 | replay is chronological across stores: after a new event is stored, replaying from an event still held sends what it sent before, then the new event |
| `EventStore.InMemoryEventStore.constructor` | src/server.py:61-71 | a new store is empty, consistent, and keeps the given cap (default 100) |
| `EventStore.InMemoryEventStore.StoreEvent` | src/server.py:73-96 | with a positive cap it returns the new id and the new state is `Stored` of the old one; with cap 0 it creates the empty stream and fails (IndexError); with a negative cap it fails (ValueError) and changes nothing; consistency is kept in all cases |
| `EventStore.InMemoryEventStore.ReplayEventsAfter` | src/server.py:98-121 | an unknown id gives None and sends nothing; a known id gives its stream, and the messages sent are those of the entries after it in that stream's FIFO, in order |
| `SessionRouter.Classify` | src/server.py:264-309 | exactly one route applies: a known session id is dispatched to its own transport, a missing id creates a session, an unknown id is rejected |
| `SessionRouter.NextRegistry` | src/server.py:277-283 | the registry's ids after a request are the old ones plus the new session's id exactly when the request has no session header; a new session is registered under its own id, and every other entry is kept |
| `SessionRouter.RegistryChangesOnlyOnCreate` | src/server.py:257-283 | only a request without a session id changes the registry; it adds the new transport and keeps every other entry; with a fresh id the registry grows by exactly one |
| `SessionRouter.CreatedSessionIsDispatched` | src/server.py:265-283 | a later request carrying a newly created session's id is dispatched to that session's transport |
| `SessionRouter.RegistryKeys` | src/server.py:257-309 | over any request sequence the registry ids are the initial ones plus the created ones, and no entry is removed or replaced unless a new session reuses its id |
| `SessionRouter.RegistryGrowsByCreations` | src/server.py:277-283 | with distinct, unused new-session ids the registry gains exactly one entry per request without a session id |
| `SessionRouter.Router.constructor` | src/server.py:257 | the registry starts empty |
| `SessionRouter.Router.StartServerTask` | src/server.py:286-300 | starting a session's server task is allowed only for a registered session |
| `SessionRouter.Router.HandleBy` | src/server.py:269-271 | a transport handles a request only when its session is registered |
| `SessionRouter.Router.Handle` | src/server.py:262-309 | the route is `Classify` of the old registry; the new registry is `NextRegistry` of the old one; the calls made are: handle by the known transport; or 400 "Bad Request: No valid session ID provided"; or register, start the server task, then handle; or register, then raise when the task group is missing |

## Left out

- `deploy.py` and `deploy_mcp_lambda.py`: AWS SDK calls, subprocesses, file writes and polling, with no pure behaviour to state.
- `lifespan`, the global task group and `session_creation_lock` (src/server.py:124-151, 259, 276): async and locking plumbing. The router is modelled as running requests one at a time. The task group appears only as the `taskGroupReady` flag.
- The transport's internals, `app.run` and `handle_request`: they live in the `mcp` library, which is not part of this model. A transport is a value that is stored and looked up, and its calls are recorded as effects.
- The demo tool handlers `call_tool` and `list_tools` (src/server.py:180-254): business logic built on async sleeps.
- `uuid4` randomness: ids are parameters. Global uniqueness is not claimed; it is an assumption where a lemma needs it.
- EventStore.InMemoryEventStore.ReplayEventsAfter: `await send_callback(...)` (src/server.py:117) is modelled as appending to the returned `sent` sequence. The model assumes the callback never raises (the source would stop after a partial replay and propagate the exception without returning a stream id) and that no `store_event` runs on the same stream while a replay awaits (the source would then raise `RuntimeError` for a deque mutated during iteration).
- EventStore.InMemoryEventStore.StoreEvent: requires the new event id to be absent from the index. A `uuid4` collision, which the source does not guard against, would break the index invariant and is not modelled.
- Logging, `print`, `json.dumps` of the event, and the commented-out REST `AuthPolicy` code in src/auth/auth.py.
- Event values of other JSON types than the model gives them: ARNs, `identitySource` elements, header values and `authorizationToken` are strings. A falsy non-string credential (JSON `null`, `0`, `[]`) fails the truthiness test at src/auth/auth.py:45 and is denied, as an empty string is in the model; a truthy non-string credential would make `split()` raise `AttributeError` in the source, and that is not modelled.
- Text.Lower: lower-cases ASCII letters only. For the two comparisons the authorizer makes (with "bearer" and "authorization") this agrees with Python's full Unicode `str.lower()`, but it is not a general model of it.
- JWT signature and claim checks, key-set caching, PKCE and token refresh: no such code exists in the modelled files, and token validation is a placeholder.
