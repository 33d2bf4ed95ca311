/**
  The message vocabulary shared by the extension-side bridge (`SEDAPSession`) and the
  webview (`SDAP_UI`): the two tagged message unions, the custom requests the bridge sends
  to the debug adapter, the replies it expects, and the custom events it receives.

  The debugger's own data is opaque to the bridge and appears as type parameters:
  - `S` stands for `DebuggerState`,
  - `U` stands for `UnifyMap`,
  - `B` stands for `BranchCase`.
 */
module Schema {

  /** `undefined` versus a present value. Where the code tests `!== undefined` (the
      `debuggerState` reply), a `null` is a present value: it is `Some` of whatever the type
      parameter makes of it. */
  datatype Option<+T> = None | Some(value: T)

  /** An untyped JSON value, used for payloads the code only passes along. */
  datatype Json =
    | JNull
    | JBool(b: bool)
    | JNumber(n: int)
    | JString(s: string)
    | JArray(items: seq<Json>)
    | JObject(fields: map<string, Json>)

  /** A `vscode.DebugSession` object. Two handles are the same session exactly when they are
      equal, which is how `===` compares objects. */
  datatype SessionHandle = SessionHandle(ref: nat)

  /** A `vscode.WebviewPanel` object, compared the same way. */
  datatype PanelHandle = PanelHandle(ref: nat)

  /** Messages the webview posts to the extension (`MessageFromWebview`). `Unrecognised`
      stands for a message whose `type` tag matches none of the five handled tags; see
      `WellTagged`. */
  datatype MessageFromWebview<B> =
    | RequestStateUpdate
    | RequestJump(cmdId: int)
    | RequestExecSpecific(prevId: int, branchCase: Option<B>)
    | RequestUnification(id: int)
    | RequestStartProc(procName: string)
    | Unrecognised(tag: string)

  /** The `type` tags `handleMessageFromWebview` tests for. */
  const HandledTags: set<string> :=
    {"request_state_update", "request_jump", "request_exec_specific", "request_unification", "request_start_proc"}

  /** A message is tagged consistently: an `Unrecognised` message does not carry one of the
      handled tags (a message with a handled tag is one of the other five constructors). */
  predicate WellTagged<B>(m: MessageFromWebview<B>)
  {
    m.Unrecognised? ==> m.tag !in HandledTags
  }

  /** Messages the extension posts to the webview (`MessageToWebview`). */
  datatype MessageToWebview<S, U> =
    | StateUpdate(state: S)
    | UnifyUpdate(unifyId: int, unifyMap: U)
    | ResetView

  /** The argument record of a custom request; `NoArgs` is a call without arguments. */
  datatype RequestArgs<B> =
    | NoArgs
    | IdArgs(id: int)
    | StepArgs(prevId: int, branchCase: Option<B>)
    | ProcArgs(procName: string)

  /** One `customRequest(name, args)` call on the debug session. */
  datatype Request<B> = Request(name: string, args: RequestArgs<B>)

  /** What the debug adapter answers to a custom request:
      - `debuggerState` answers a snapshot or `undefined` (`None`); a `null` snapshot is a
        `Some` value and is forwarded,
      - `unification` answers `{unifyId, unifyMap}`,
      - `jump`, `stepSpecific` and `startProc` answer `{success, err?}`. */
  datatype Reply<S, U> =
    | StateReply(state: Option<S>)
    | UnifyReply(unifyId: int, unifyMap: U)
    | StatusReply(success: bool, err: Option<string>)

  /** The body of a custom debug event. A `log` event carries `{msg, json}`, a
      `debugStateUpdate` event carries a snapshot, any other event some JSON. */
  datatype EventBody<S> =
    | LogBody(msg: string, json: map<string, Json>)
    | StateBody(state: S)
    | OtherBody(value: Json)

  /** A `vscode.DebugSessionCustomEvent`: the session it came from, its name and its body. */
  datatype CustomEvent<S> = CustomEvent(session: SessionHandle, event: string, body: EventBody<S>)

  const LogEvent := "log"
  const StateUpdateEvent := "debugStateUpdate"
}
