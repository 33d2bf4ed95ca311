# sedap-vscode: the debug-session bridge and its webview dispatch

This project models the core of the SEDAP VS Code extension in Dafny. That core is the bridge
between a running debug session and the webview panel that draws the debugger. There are two
sides to it.

- **The extension side** (`SEDAPSession.ts`) keeps a module-level registry of bridges. It is
  a counter plus a record from id to bridge. The registry routes each custom debug event to
  every bridge that owns the event's session. Each bridge handles a debug event in one of
  three ways: it prints a `log` line if logging is on, forwards a `debugStateUpdate` to the
  webview, or reports the event as unhandled. It turns each webview request into one custom
  request to the debug adapter, and it reacts to the adapter's reply.
- **The webview side** (`SDAP_UI.tsx`) has an `onMessage` callback and `refresh`. The callback
  stores an incoming snapshot, then fetches, keeps or clears the current proc's unification.
  It also loads a delivered unification and publishes `resetView`. `refresh` asks for a new
  snapshot.

Every side effect is a value in an output sequence:
- `SedapSession.Effect` is used on the extension side: post to webview, custom request, error
  notification, console log and console error.
- `SdapUi.UiEffect` is used on the webview side: store update, unification request, event
  publish, post to host, and the `TypeError` fault.
- The registry operations return the subscriptions they release.

Each `await` on a custom request is split into two pure functions:
- `SedapSession.RequestFor` gives the request that is issued.
- `SedapSession.ContinueAfterReply` gives what happens once the reply arrives.

The registry is an immutable `map<nat, Bridge>` plus a counter. Construction and disposal are
functions from one registry to the next. `SessionRegistry.Valid` is the invariant they keep:
- every key is below the counter;
- every entry holds the bridge registered under its own id;
- no disposed bridge is still registered.

Modules and files:

| file | module | models |
|---|---|---|
| schema.dfy | `Schema` | both message unions, custom requests, replies and events |
| sedap_session.dfy | `SedapSession` | one bridge: event dispatch, request issue and continuation |
| session_registry.dfy | `SessionRegistry` | `sessionCount`/`sessions`, constructor, `_dispose`, `dispose`, routing, session end |
| sdap_ui.dfy | `SdapUi` | the webview's `onMessage` callback and `refresh` |
| round_trips.dfy | `RoundTrips` | webview → bridge → webview exchanges |

The debugger's own data is opaque. It appears as type parameters: `S` for `DebuggerState`,
`U` for `UnifyMap` and `B` for `BranchCase`. The webview reads `procs`, `currentProc` and
`unifys[0].id`, so it uses `SdapUi.DebuggerState<X>`, which exposes those fields. The rest of
the snapshot stays opaque as `X`. Sessions and panels are handles compared with `==`. This
matches the `===` object identity that `withMatchingSession` uses.

Behaviour of the code that the model keeps:
- `getUnification` always returns a pair, so the `!== undefined` guard in the handler never
  skips.
- `request_start_proc` is not awaited, but its request is still issued and a failure is still
  notified.
- `err || fallback` also falls back when `err` is the empty string.
- The fallback text for a failed `stepSpecific` is `"help"`.
- The webview's `state_update` branch reads `state.procs[state.currentProc]`. If that proc is
  missing, destructuring its `unifys` throws a `TypeError` after the snapshot is stored. The
  model records this as a `Fault` effect.
- `Object.values` lists integer keys in ascending order, so routing visits bridges in
  ascending id order.

## Model

| member | source | states |
|---|---|---|
| `SedapSession.UnhandledEventText` | packages/sedap-vscode-ext/src/SEDAPSession.ts:108 | the unhandled-event diagnostic ends with the event name between single quotes |
| `SedapSession.SelectCounts` | packages/sedap-vscode-ext/src/SEDAPSession.ts:93-133 | picking the effects of one kind keeps each of them exactly as often as it occurs and drops every effect of another kind; the handlers' "exactly one post" and "no error" claims are counts over this selection |
| `SedapSession.UpdateState` | packages/sedap-vscode-ext/src/SEDAPSession.ts:185-187 | posts a `state_update` to the bridge's own panel carrying the snapshot unaltered |
| `SedapSession.UpdateUnification` | packages/sedap-vscode-ext/src/SEDAPSession.ts:189-195 | posts a `unify_update` to the bridge's own panel carrying exactly the given id and map |
| `SedapSession.HandleCustomDebugEvent` | packages/sedap-vscode-ext/src/SEDAPSession.ts:93-110 | `log` with logging off yields nothing; with logging on it yields exactly the one console line `<D> msg` (`LogLine`), with `json` attached exactly when `json` has a key; a `log` event is read only when logging is on; `debugStateUpdate` with body S yields exactly one `state_update` carrying S; any other name yields one unhandled-event error and no post; no event ever issues a request or an error notification |
| `SedapSession.RequestFor` | packages/sedap-vscode-ext/src/SEDAPSession.ts:112-179 | a message issues a request exactly when its tag is one of the five handled ones (an unrecognised message carries none of them), and the request reads back as that same message, so no argument is lost |
| `SedapSession.RequestForMessageFor` | packages/sedap-vscode-ext/src/SEDAPSession.ts:135-179 | issuing a request and reading it back agree in both directions: the message-to-request translation is one-to-one on the handled messages |
| `SedapSession.ErrorText` | packages/sedap-vscode-ext/src/SEDAPSession.ts:155-157 | the notification text is `err` when `err` is a non-empty string, and the fallback when `err` is absent or empty; it is never empty when the fallback is non-empty |
| `SedapSession.StatusContinue` | packages/sedap-vscode-ext/src/SEDAPSession.ts:150-179 | a `success` reply yields nothing; a failed one yields exactly one error notification |
| `SedapSession.GetUnification` | packages/sedap-vscode-ext/src/SEDAPSession.ts:139-148 | always returns a pair: the reply's `unifyId` and `unifyMap` |
| `SedapSession.ContinueAfterReply` | packages/sedap-vscode-ext/src/SEDAPSession.ts:112-133 | after the reply the handler issues no further request and has at most one effect |
| `SedapSession.HandleMessageFromWebview` | packages/sedap-vscode-ext/src/SEDAPSession.ts:112-133 | every handled message issues exactly one request, to the bridge's own session, as its first effect, and the request reads back as the message; an unrecognised tag does nothing; no message produces console output |
| `SedapSession.StateUpdateRequest` | packages/sedap-vscode-ext/src/SEDAPSession.ts:113-118 | `request_state_update` sends `debuggerState` without arguments, posts nothing on an undefined reply and exactly one `state_update` carrying the reply otherwise, and never notifies an error |
| `SedapSession.UnificationRequest` | packages/sedap-vscode-ext/src/SEDAPSession.ts:123-129 | `request_unification` with id i sends `{id: i}` and posts exactly one `unify_update` carrying the reply's `unifyId`/`unifyMap`, which may differ from i |
| `SedapSession.StatusRequest` | packages/sedap-vscode-ext/src/SEDAPSession.ts:119-131 | jump, stepSpecific and startProc send `{id: cmdId}`, `{prevId, branchCase}` and `{procName}` and post nothing. A successful reply notifies nothing. A failed one notifies exactly once, with `err` if it is non-empty, otherwise `"jumpToCmd: unknown error"`, `"help"` or `"startProc: unknown error"` |
| `SessionRegistry.EmptyValid` | packages/sedap-vscode-ext/src/SEDAPSession.ts:15-16 | the registry at module load satisfies the registry invariant |
| `SessionRegistry.Construct` | packages/sedap-vscode-ext/src/SEDAPSession.ts:56-82 | the new bridge gets the current counter value as id, the counter goes up by one, and the bridge is registered under that id. It holds its session, panel and `logEnabled` and subscribes to the panel's messages and disposal. Every other entry is unchanged, the id was not in use, and the invariant is kept |
| `SessionRegistry.DisposeEntry` | packages/sedap-vscode-ext/src/SEDAPSession.ts:88-91 | releases the bridge's subscriptions in order and removes its own id; every other entry and the counter are unchanged; the invariant is kept |
| `SessionRegistry.DisposeEntryIdempotent` | packages/sedap-vscode-ext/src/SEDAPSession.ts:88-91 | running `_dispose` again leaves the registry as the first run left it |
| `SessionRegistry.Dispose` | packages/sedap-vscode-ext/src/SEDAPSession.ts:84-86 | the first call runs `_dispose` and returns the same bridge marked disposed; a call on a disposed bridge returns it, the registry and nothing released, unchanged |
| `SessionRegistry.DisposeTwice` | packages/sedap-vscode-ext/src/SEDAPSession.ts:66-86 | disposing twice releases each subscription exactly once and deregisters once; the second call leaves the registry unchanged |
| `SessionRegistry.MatchingBelow` | packages/sedap-vscode-ext/src/SEDAPSession.ts:22-26 | the ids below a bound whose bridge owns the session, every one of them, in strictly ascending order |
| `SessionRegistry.WithMatchingSession` | packages/sedap-vscode-ext/src/SEDAPSession.ts:18-27 | the callback is called for exactly the registered bridges whose session is the given handle, each once, in ascending id order, and for no others |
| `SessionRegistry.DeliverCustomEvent` | packages/sedap-vscode-ext/src/SEDAPSession.ts:29-35 | an event for a session with no bridge has no effect; event delivery never issues a request or an error notification. What each event name does at each bridge is stated by `DeliverStateUpdate`, `DeliverLog` and `DeliverUnhandled` |
| `SessionRegistry.DispatchStateUpdate` | packages/sedap-vscode-ext/src/SEDAPSession.ts:29-35 | dispatching a `debugStateUpdate` to a list of bridges yields one `state_update` with the event's snapshot per bridge, to that bridge's panel, in list order |
| `SessionRegistry.DeliverStateUpdate` | packages/sedap-vscode-ext/src/SEDAPSession.ts:29-35 | a `debugStateUpdate` event reaches every bridge owning its session as one `state_update` carrying its snapshot, one per matching bridge and nothing else |
| `SessionRegistry.DispatchUnhandled` | packages/sedap-vscode-ext/src/SEDAPSession.ts:29-35 | dispatching an event name no bridge handles to a list of bridges yields one unhandled-event error per bridge and nothing else |
| `SessionRegistry.DispatchLog` | packages/sedap-vscode-ext/src/SEDAPSession.ts:29-35 | dispatching a `log` event yields exactly one console line per listed bridge with logging on, in list order, and nothing else; every line is the same `<D> msg` line with `json` attached when it has a key |
| `SessionRegistry.DeliverUnhandled` | packages/sedap-vscode-ext/src/SEDAPSession.ts:29-35 | an event name no bridge handles is reported once per bridge owning the event's session, and nothing else happens |
| `SessionRegistry.DeliverLog` | packages/sedap-vscode-ext/src/SEDAPSession.ts:29-35 | a `log` event prints the `<D> msg` line exactly once per bridge owning its session that has logging on, and nothing else; so not at all when none of them has logging on |
| `SessionRegistry.DisposeBridges` | packages/sedap-vscode-ext/src/SEDAPSession.ts:38-40 | disposing a list of live bridges removes exactly their ids, keeps the counter and releases exactly their subscriptions, bridge by bridge in list order |
| `SessionRegistry.TerminateSession` | packages/sedap-vscode-ext/src/SEDAPSession.ts:37-41 | after a session ends, no bridge of that session is registered, every other entry is as it was, the counter is unchanged and the invariant is kept; the subscriptions released are exactly those of the matching bridges, in routing order |
| `SessionRegistry.PanelCloseThenTerminate` | packages/sedap-vscode-ext/src/SEDAPSession.ts:37-41 | after a panel close disposes its bridge, a later end of its session no longer routes to that bridge, so its subscriptions are not released twice |
| `SessionRegistry.RunIssuesFreshIds` | packages/sedap-vscode-ext/src/SEDAPSession.ts:61-62 | over any sequence of constructions, disposals and session ends, the ids handed out are strictly increasing and below the final counter, so none is reused, and none collides with an id registered at the start |
| `SdapUi.OnMessage` | packages/sedap-vscode-ui/src/SDAP_UI.tsx:13-40 | a `state_update` always stores the new snapshot first and never loads or publishes. When the current proc has unifications, the first is requested, exactly once and for its id, unless the store has it; if the store has it, nothing more happens. With no unifications, unification is cleared and nothing is requested. A missing current proc faults after the store. `unify_update` loads exactly its id and map, and `reset_view` only publishes `"resetView"` |
| `SdapUi.Refresh` | packages/sedap-vscode-ui/src/SDAP_UI.tsx:45-47 | posts exactly one message, a `request_state_update` |
| `SdapUi.HostMessageOf` | packages/sedap-vscode-ui/src/SDAP_UI.tsx:28 | a webview effect posts a message to the extension exactly when it is a post or a unification request; a post sends its own message and a unification request for id i sends `request_unification` with id i |
| `RoundTrips.RefreshRoundTrip` | packages/sedap-vscode-ext/src/SEDAPSession.ts:113-118 | `refresh` makes the bridge send `debuggerState`. An undefined answer reaches the webview as nothing; a snapshot reaches it as one `state_update` to the bridge's panel, which the webview stores first |
| `RoundTrips.UnificationRoundTrip` | packages/sedap-vscode-ui/src/SDAP_UI.tsx:20-36 | an uncached first unification is requested from the bridge for its id, the bridge sends `{id}` to the adapter, and the webview then loads the id and map the adapter answered with |
| `RoundTrips.EventReachesStore` | packages/sedap-vscode-ext/src/SEDAPSession.ts:105-106 | a `debugStateUpdate` event reaches the bridge's own panel and the webview stores the event's snapshot unaltered |

## Left out

- VS Code API plumbing is left out. This covers `onDidReceiveDebugSessionCustomEvent`, `onDidTerminateDebugSession`, `webview.onDidReceiveMessage`, `panel.onDidDispose`, `postMessage` and `showErrorMessage`. They appear only as recorded effects and as the subscriptions a bridge owns and releases.
- After a bridge is disposed, its webview stops receiving messages. That follows from VS Code releasing the subscription, which is not modelled. Registry routing only ever reaches registered bridges.
- `vscode.Disposable` is not part of this model. `Dispose` encodes the once-only call of its callback as the bridge's `disposed` flag. This is taken from VS Code's documented behaviour, not proved.
- Asynchronous interleaving of overlapping requests and the order in which their replies arrive are not modelled. Each handler is modelled as its request followed by its continuation.
- Promise rejection from `customRequest` is not modelled.
- A reply of the wrong shape is excluded by `SedapSession.ReplyFits`, the debug adapter's side of the contract. Such replies include an undefined `unification` or `jump` reply, which the code destructures and throws on.
- An event whose body does not match its name, where the bridge reads the body, is excluded by `SedapSession.ReadableBy`. An example is a `log` event without `{msg, json}` reaching a bridge with logging on.
- A webview message is assumed tagged consistently (`Schema.WellTagged`): `Unrecognised` never carries one of the five handled tags.
- `SessionRegistry.Step` drops the subscriptions a disposal releases; `Dispose` and `TerminateSession` state them.
- The `json` field of a `log` body is typed `any` in the code. The model takes it to be a JSON object. `Object.keys` on an array or a string counts its indices, and on `null` it throws; these cases are not modelled.
- JSON numbers are modelled as integers (`Schema.JNumber`). A fractional value in a `log` payload cannot be represented. The payload is only passed along, so no behaviour depends on it.
- `logEnabled` defaults to `false` in the constructor. `Construct` takes it as an explicit argument.
- Console formatting is not modelled beyond "the `<D> msg` text plus the optional `json` object".
- React rendering, `useEffect`, the `Loading`/`DebuggerPanel` components and CSS are not modelled.
- The implementations of the store, of `events` and of `VSCodeAPI.requestUnification` are not part of this model. Store calls and publishes are effects. `selectBaseUnification` is a caller-supplied oracle. `requestUnification(id)` is taken to post `request_unification` with that id.
- The contents of `DebuggerState`, `UnifyMap` and `BranchCase` are type parameters. The exception is the `procs`, `currentProc` and `unifys[0].id` that the webview reads.
