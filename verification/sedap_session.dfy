/**
  One `SEDAPSession` bridge: what it does with a custom debug event and with a message from
  its webview. Every side effect of the class is a value of `Effect`. Each `await` on a
  custom request is split in two. `RequestFor` gives the request the message issues.
  `ContinueAfterReply` gives what the handler does once the adapter's reply arrives.
 */
module SedapSession {
  import opened Schema

  /** A subscription the bridge owns and releases when it is disposed. */
  datatype Subscription =
    | WebviewMessages(panel: PanelHandle)   // `webview.onDidReceiveMessage`
    | PanelDisposal(panel: PanelHandle)     // `panel.onDidDispose`

  /** The fields of one `SEDAPSession` instance. `disposed` records whether its
      `vscode.Disposable` has already run `_dispose`. */
  datatype Bridge = Bridge(
    id: nat,
    session: SessionHandle,
    panel: PanelHandle,
    logEnabled: bool,
    subscriptions: seq<Subscription>,
    disposed: bool)

  /** The observable side effects of the bridge. */
  datatype Effect<S, U, B> =
    | PostToWebview(panel: PanelHandle, msg: MessageToWebview<S, U>)
    | CustomRequest(session: SessionHandle, request: Request<B>)
    | ShowError(text: string)                                  // `window.showErrorMessage`
    | ConsoleLog(text: string, json: Option<map<string, Json>>)
    | ConsoleError(text: string)

  datatype EffectKind = PostKind | RequestKind | ErrorKind | LogKind | ConsoleErrorKind

  function KindOf<S, U, B>(e: Effect<S, U, B>): EffectKind
  {
    match e
    case PostToWebview(_, _) => PostKind
    case CustomRequest(_, _) => RequestKind
    case ShowError(_) => ErrorKind
    case ConsoleLog(_, _) => LogKind
    case ConsoleError(_) => ConsoleErrorKind
  }

  /** The effects of one kind, in the order they happen. */
  function Select<S, U, B>(es: seq<Effect<S, U, B>>, k: EffectKind): (r: seq<Effect<S, U, B>>)
    ensures |r| <= |es|
    ensures forall i :: 0 <= i < |r| ==> KindOf(r[i]) == k
    ensures forall i :: 0 <= i < |r| ==> r[i] in es
    ensures (forall i :: 0 <= i < |es| ==> KindOf(es[i]) != k) <==> r == []
  {
    if es == [] then []
    else if KindOf(es[0]) == k then [es[0]] + Select(es[1..], k)
    else Select(es[1..], k)
  }

  /** `Select` keeps every effect of kind `k` as often as it occurs, and no other effect. */
  lemma {:induction false} SelectCounts<S, U, B>(es: seq<Effect<S, U, B>>, k: EffectKind, x: Effect<S, U, B>)
    ensures multiset(Select(es, k))[x] == if KindOf(x) == k then multiset(es)[x] else 0
    decreases |es|
  {
    if es != [] {
      SelectCounts(es[1..], k, x);
      assert es == [es[0]] + es[1..];
      assert multiset(es)[x] == multiset([es[0]])[x] + multiset(es[1..])[x];
      if KindOf(es[0]) == k {
        assert multiset(Select(es, k))[x] == multiset([es[0]])[x] + multiset(Select(es[1..], k))[x];
      }
    }
  }

  lemma {:induction false} SelectAppend<S, U, B>(a: seq<Effect<S, U, B>>, b: seq<Effect<S, U, B>>, k: EffectKind)
    ensures Select(a + b, k) == Select(a, k) + Select(b, k)
    decreases |a|
  {
    if a == [] {
      assert a + b == b;
    } else {
      assert (a + b)[1..] == a[1..] + b;
      SelectAppend(a[1..], b, k);
    }
  }

  const LogPrefix := "<D> "
  const JumpFallback := "jumpToCmd: unknown error"
  const StepFallback := "help"
  const StartProcFallback := "startProc: unknown error"

  /** The text of the diagnostic for an event name the bridge does not handle. */
  function UnhandledEventText(event: string): (r: string)
    ensures |r| > |event| + 1
    ensures r[|r| - |event| - 1..|r| - 1] == event
    ensures r[|r| - |event| - 2] == '\'' && r[|r| - 1] == '\''
  {
    "Unhandled custom event '" + event + "'"
  }

  /** `updateState`: post a `state_update` carrying the snapshot unaltered. */
  function UpdateState<S, U, B>(b: Bridge, state: S): (r: Effect<S, U, B>)
    ensures r.PostToWebview? && r.panel == b.panel
    ensures r.msg.StateUpdate? && r.msg.state == state
  {
    PostToWebview(b.panel, StateUpdate(state))
  }

  /** `updateUnification`: post a `unify_update` carrying the given id and map. */
  function UpdateUnification<S, U, B>(b: Bridge, unifyId: int, unifyMap: U): (r: Effect<S, U, B>)
    ensures r.PostToWebview? && r.panel == b.panel
    ensures r.msg.UnifyUpdate? && r.msg.unifyId == unifyId && r.msg.unifyMap == unifyMap
  {
    PostToWebview(b.panel, UnifyUpdate(unifyId, unifyMap))
  }

  /** The debug adapter's side of the event contract, as far as bridge `b` reads it: a `log`
      event it logs carries `{msg, json}` and a `debugStateUpdate` event carries a snapshot.
      A `log` event with logging off is dropped unread, so its body may be anything. */
  predicate ReadableBy<S>(b: Bridge, e: CustomEvent<S>)
  {
    && (e.event == LogEvent && b.logEnabled ==> e.body.LogBody?)
    && (e.event == StateUpdateEvent ==> e.body.StateBody?)
  }

  /** The console line a bridge with logging on prints for a `log` event. */
  function LogLine<S, U, B>(e: CustomEvent<S>): Effect<S, U, B>
    requires e.body.LogBody?
  {
    ConsoleLog(LogPrefix + e.body.msg, if |e.body.json| == 0 then None else Some(e.body.json))
  }

  /** `handleCustomDebugEvent`: `log` is gated on `logEnabled` and drops an empty `json`,
      `debugStateUpdate` is forwarded, any other name is reported as unhandled. */
  function HandleCustomDebugEvent<S, U, B>(b: Bridge, e: CustomEvent<S>): (r: seq<Effect<S, U, B>>)
    requires ReadableBy(b, e)
    ensures e.event == LogEvent && !b.logEnabled ==> r == []
    ensures e.event == LogEvent && b.logEnabled ==>
      && r == [LogLine(e)]
      && |r| == 1
      && r[0].ConsoleLog?
      && r[0].text == LogPrefix + e.body.msg
      && (r[0].json.Some? <==> |e.body.json| > 0)
      && (r[0].json.Some? ==> r[0].json.value == e.body.json)
    ensures e.event == StateUpdateEvent ==> r == [PostToWebview(b.panel, StateUpdate(e.body.state))]
    ensures e.event != LogEvent && e.event != StateUpdateEvent ==>
      r == [ConsoleError(UnhandledEventText(e.event))]
    ensures e.event != StateUpdateEvent ==> Select(r, PostKind) == []
    ensures Select(r, RequestKind) == [] && Select(r, ErrorKind) == []
  {
    if e.event == LogEvent then
      if !b.logEnabled then [] else [LogLine(e)]
    else if e.event == StateUpdateEvent then
      [UpdateState(b, e.body.state)]
    else
      [ConsoleError(UnhandledEventText(e.event))]
  }

  /** Reads a custom request back as the webview message that issues it; `None` for a request
      no webview message issues. */
  function MessageFor<B>(q: Request<B>): Option<MessageFromWebview<B>>
  {
    match q.args
    case NoArgs => if q.name == "debuggerState" then Some(RequestStateUpdate) else None
    case IdArgs(id) =>
      if q.name == "jump" then Some(RequestJump(id))
      else if q.name == "unification" then Some(RequestUnification(id))
      else None
    case StepArgs(prevId, branchCase) =>
      if q.name == "stepSpecific" then Some(RequestExecSpecific(prevId, branchCase)) else None
    case ProcArgs(procName) =>
      if q.name == "startProc" then Some(RequestStartProc(procName)) else None
  }

  /** The custom request a webview message issues (the first half of its handler, up to the
      `await`). An unrecognised tag issues nothing. */
  function RequestFor<B>(m: MessageFromWebview<B>): (r: Option<Request<B>>)
    requires WellTagged(m)
    ensures r.None? <==> m.Unrecognised?
    ensures r.Some? ==> MessageFor(r.value) == Some(m)
  {
    match m
    case RequestStateUpdate => Some(Request("debuggerState", NoArgs))
    case RequestJump(cmdId) => Some(Request("jump", IdArgs(cmdId)))
    case RequestExecSpecific(prevId, branchCase) => Some(Request("stepSpecific", StepArgs(prevId, branchCase)))
    case RequestUnification(id) => Some(Request("unification", IdArgs(id)))
    case RequestStartProc(procName) => Some(Request("startProc", ProcArgs(procName)))
    case Unrecognised(_) => None
  }

  /** The two readings agree: a request is issued by a message exactly when it reads back as
      that message, so no two messages share a request and no argument is lost. */
  lemma RequestForMessageFor<B>(m: MessageFromWebview<B>, q: Request<B>)
    requires WellTagged(m)
    ensures RequestFor(m) == Some(q) <==> MessageFor(q) == Some(m)
  {
  }

  /** The session-port contract: each request is answered with the reply shape its handler
      reads. An unrecognised message issues no request, so any reply fits it. */
  predicate ReplyFits<S, U, B>(m: MessageFromWebview<B>, reply: Reply<S, U>)
  {
    match m
    case RequestStateUpdate => reply.StateReply?
    case RequestJump(_) => reply.StatusReply?
    case RequestExecSpecific(_, _) => reply.StatusReply?
    case RequestUnification(_) => reply.UnifyReply?
    case RequestStartProc(_) => reply.StatusReply?
    case Unrecognised(_) => true
  }

  /** `result.err || fallback`: the adapter's message unless it is absent or empty. */
  function ErrorText(err: Option<string>, fallback: string): (r: string)
    ensures err.Some? && err.value != "" ==> r == err.value
    ensures err.None? || err.value == "" ==> r == fallback
    ensures fallback != "" ==> r != ""
  {
    match err
    case Some(s) => if s != "" then s else fallback
    case None => fallback
  }

  /** The tail of `jumpToCmd`, `execSpecificCmd` and `startProc`: on failure, one error
      notification. */
  function StatusContinue<S, U, B>(success: bool, err: Option<string>, fallback: string): (r: seq<Effect<S, U, B>>)
    ensures success ==> r == []
    ensures !success ==> r == [ShowError(ErrorText(err, fallback))]
  {
    if !success then [ShowError(ErrorText(err, fallback))] else []
  }

  /** `getUnification` after its `await`: it always returns a pair, so the `!== undefined`
      guard in the handler never skips. */
  function GetUnification<U>(unifyId: int, unifyMap: U): (r: Option<(int, U)>)
    ensures r.Some?
    ensures r.value.0 == unifyId && r.value.1 == unifyMap
  {
    Some((unifyId, unifyMap))
  }

  /** The part of `handleMessageFromWebview` that runs once the reply has arrived. */
  function ContinueAfterReply<S, U, B>(b: Bridge, m: MessageFromWebview<B>, reply: Reply<S, U>): (r: seq<Effect<S, U, B>>)
    requires ReplyFits(m, reply)
    ensures Select(r, RequestKind) == []
    ensures |r| <= 1
  {
    match m
    case RequestStateUpdate =>
      if reply.state.Some? then [UpdateState(b, reply.state.value)] else []
    case RequestJump(_) => StatusContinue(reply.success, reply.err, JumpFallback)
    case RequestExecSpecific(_, _) => StatusContinue(reply.success, reply.err, StepFallback)
    case RequestUnification(_) =>
      var unifyData := GetUnification(reply.unifyId, reply.unifyMap);
      if unifyData.Some? then [UpdateUnification(b, unifyData.value.0, unifyData.value.1)] else []
    case RequestStartProc(_) => StatusContinue(reply.success, reply.err, StartProcFallback)
    case Unrecognised(_) => []
  }

  /** The whole of `handleMessageFromWebview`: the request, then what follows its reply. Every
      handled message issues exactly one request, to the bridge's own session, before anything
      else; an unrecognised tag does nothing. `request_start_proc` is not awaited in the
      source, but its request is still issued and its failure still notified, so it is
      modelled like the other four. */
  function HandleMessageFromWebview<S, U, B>(b: Bridge, m: MessageFromWebview<B>, reply: Reply<S, U>): (r: seq<Effect<S, U, B>>)
    requires WellTagged(m) && ReplyFits(m, reply)
    ensures m.Unrecognised? ==> r == []
    ensures !m.Unrecognised? ==>
      && |r| >= 1
      && r[0].CustomRequest?
      && r[0].session == b.session
      && MessageFor(r[0].request) == Some(m)
      && Select(r, RequestKind) == [r[0]]
    ensures Select(r, LogKind) == [] && Select(r, ConsoleErrorKind) == []
  {
    match RequestFor(m)
    case None => []
    case Some(q) =>
      var issued: seq<Effect<S, U, B>> := [CustomRequest(b.session, q)];
      var rest := ContinueAfterReply(b, m, reply);
      SelectAppend(issued, rest, RequestKind);
      SelectAppend(issued, rest, LogKind);
      SelectAppend(issued, rest, ConsoleErrorKind);
      issued + rest
  }

  /** The handled part of `handleMessageFromWebview` splits into its request and its
      continuation, for every kind of effect. */
  lemma HandleSplits<S, U, B>(b: Bridge, m: MessageFromWebview<B>, reply: Reply<S, U>, k: EffectKind)
    requires ReplyFits(m, reply) && !m.Unrecognised?
    ensures var r := HandleMessageFromWebview(b, m, reply);
            Select(r, k) == Select([r[0]], k) + Select(ContinueAfterReply(b, m, reply), k)
  {
    var issued: seq<Effect<S, U, B>> := [CustomRequest(b.session, RequestFor(m).value)];
    SelectAppend(issued, ContinueAfterReply(b, m, reply), k);
  }

  /** `request_state_update` sends `debuggerState` without arguments. An undefined reply posts
      nothing; a snapshot is posted as exactly one `state_update`. No error is notified. */
  lemma StateUpdateRequest<S, U, B>(b: Bridge, reply: Reply<S, U>)
    requires reply.StateReply?
    ensures var r := HandleMessageFromWebview<S, U, B>(b, RequestStateUpdate, reply);
            && r[0] == CustomRequest(b.session, Request("debuggerState", NoArgs))
            && Select(r, ErrorKind) == []
            && (reply.state.None? ==> Select(r, PostKind) == [])
            && (reply.state.Some? ==> Select(r, PostKind) == [PostToWebview(b.panel, StateUpdate(reply.state.value))])
  {
    HandleSplits<S, U, B>(b, RequestStateUpdate, reply, PostKind);
    HandleSplits<S, U, B>(b, RequestStateUpdate, reply, ErrorKind);
  }

  /** `request_unification` with id `i` sends `{id: i}` and posts exactly one `unify_update`
      carrying the reply's `unifyId` and `unifyMap`, which need not be `i`. */
  lemma UnificationRequest<S, U, B>(b: Bridge, i: int, unifyId: int, unifyMap: U)
    ensures var r := HandleMessageFromWebview<S, U, B>(b, RequestUnification(i), UnifyReply(unifyId, unifyMap));
            && r[0] == CustomRequest(b.session, Request("unification", IdArgs(i)))
            && Select(r, ErrorKind) == []
            && Select(r, PostKind) == [PostToWebview(b.panel, UnifyUpdate(unifyId, unifyMap))]
  {
    HandleSplits<S, U, B>(b, RequestUnification(i), UnifyReply(unifyId, unifyMap), PostKind);
    HandleSplits<S, U, B>(b, RequestUnification(i), UnifyReply(unifyId, unifyMap), ErrorKind);
  }

  /** `request_jump`, `request_exec_specific` and `request_start_proc` send `{id: cmdId}`,
      `{prevId, branchCase}` and `{procName}`. They post nothing. A successful reply notifies
      nothing; a failed one notifies exactly once, with `err` or the operation's fallback. */
  lemma StatusRequest<S, U, B>(b: Bridge, m: MessageFromWebview<B>, success: bool, err: Option<string>)
    requires m.RequestJump? || m.RequestExecSpecific? || m.RequestStartProc?
    ensures var r := HandleMessageFromWebview<S, U, B>(b, m, StatusReply(success, err));
            && (m.RequestJump? ==> r[0] == CustomRequest(b.session, Request("jump", IdArgs(m.cmdId))))
            && (m.RequestExecSpecific? ==>
                  r[0] == CustomRequest(b.session, Request("stepSpecific", StepArgs(m.prevId, m.branchCase))))
            && (m.RequestStartProc? ==> r[0] == CustomRequest(b.session, Request("startProc", ProcArgs(m.procName))))
            && Select(r, PostKind) == []
            && (success ==> Select(r, ErrorKind) == [])
            && (!success ==> Select(r, ErrorKind) == [ShowError(ErrorText(err, FallbackFor(m)))])
  {
    HandleSplits<S, U, B>(b, m, StatusReply(success, err), PostKind);
    HandleSplits<S, U, B>(b, m, StatusReply(success, err), ErrorKind);
  }

  /** The fallback notification text of each request that reports `{success, err?}`. */
  function FallbackFor<B>(m: MessageFromWebview<B>): string
  {
    match m
    case RequestJump(_) => JumpFallback
    case RequestExecSpecific(_, _) => StepFallback
    case RequestStartProc(_) => StartProcFallback
    case _ => ""
  }
}
