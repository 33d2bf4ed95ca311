/**
  The webview's side of the protocol in `SDAP_UI.tsx`: the `onMessage` callback that handles
  a message from the extension, and `refresh`. The store and the event bus are not modelled;
  the calls made on them are effects, and `selectBaseUnification` is a caller-supplied oracle.
 */
module SdapUi {
  import opened Schema

  /** The first entry of a proc's `unifys`; only its `id` is read. */
  datatype UnifyRef = UnifyRef(id: int)

  /** The part of a proc's state the handler reads. */
  datatype ProcState = ProcState(unifys: seq<UnifyRef>)

  /** A debugger snapshot as the webview sees it: the procs by name, the name of the current
      one, and everything else (`X`), which the handler only stores. */
  datatype DebuggerState<X> = DebuggerState(procs: map<string, ProcState>, currentProc: string, rest: X)

  /** A call on the store. */
  datatype StoreOp<S, U> =
    | UpdateDebuggerState(state: S)
    | ClearUnification
    | LoadUnification(unifyId: int, unifyMap: U)

  /** The observable side effects of the webview. `RequestUnificationOf` is the call of
      `requestUnification`; `Fault` is the `TypeError` thrown when the current proc is missing
      from `procs`. */
  datatype UiEffect<S, U, B> =
    | StoreUpdate(op: StoreOp<S, U>)
    | RequestUnificationOf(id: int)
    | Publish(event: string)
    | PostToHost(msg: MessageFromWebview<B>)
    | Fault(reason: string)

  const ResetViewEvent := "resetView"

  predicate IsLoadOrPublish<S, U, B>(e: UiEffect<S, U, B>)
  {
    e.Publish? || (e.StoreUpdate? && e.op.LoadUnification?)
  }

  /** The `onMessage` callback. `isInStore(id)` is whether `selectBaseUnification(id)` returns
      a unification. A `state_update` always stores the snapshot first; then, if the current
      proc has unifications, the first one is requested unless the store already has it, and
      otherwise unification is cleared. */
  function OnMessage<X, U, B>(msg: MessageToWebview<DebuggerState<X>, U>, isInStore: int -> bool): (r: seq<UiEffect<DebuggerState<X>, U, B>>)
    ensures msg.StateUpdate? ==>
      && |r| >= 1
      && r[0] == StoreUpdate(UpdateDebuggerState(msg.state))
      && (forall i :: 0 <= i < |r| ==> !IsLoadOrPublish(r[i]))
    ensures msg.StateUpdate? && msg.state.currentProc !in msg.state.procs ==>
      |r| == 2 && r[1].Fault?
    ensures msg.StateUpdate? && msg.state.currentProc in msg.state.procs ==>
      var unifys := msg.state.procs[msg.state.currentProc].unifys;
      var stored := StoreUpdate(UpdateDebuggerState(msg.state));
      && (|unifys| > 0 && !isInStore(unifys[0].id) ==> r == [stored, RequestUnificationOf(unifys[0].id)])
      && (|unifys| > 0 && isInStore(unifys[0].id) ==> r == [stored])
      && (|unifys| == 0 ==> r == [stored, StoreUpdate(ClearUnification)])
    ensures msg.UnifyUpdate? ==> r == [StoreUpdate(LoadUnification(msg.unifyId, msg.unifyMap))]
    ensures msg.ResetView? ==> r == [Publish(ResetViewEvent)]
  {
    match msg
    case StateUpdate(state) =>
      var stored := StoreUpdate(UpdateDebuggerState(state));
      if state.currentProc !in state.procs then
        [stored, Fault("TypeError: current proc state is undefined")]
      else
        var unifys := state.procs[state.currentProc].unifys;
        if |unifys| > 0 then
          var unifyId := unifys[0].id;
          if !isInStore(unifyId) then [stored, RequestUnificationOf(unifyId)] else [stored]
        else
          [stored, StoreUpdate(ClearUnification)]
    case UnifyUpdate(unifyId, unifyMap) => [StoreUpdate(LoadUnification(unifyId, unifyMap))]
    case ResetView => [Publish(ResetViewEvent)]
  }

  /** `refresh`: ask the extension for a fresh snapshot. */
  function Refresh<S, U, B>(): (r: seq<UiEffect<S, U, B>>)
    ensures |r| == 1 && r[0].PostToHost? && r[0].msg.RequestStateUpdate?
  {
    [PostToHost(RequestStateUpdate)]
  }

  /** The message a webview effect posts to the extension, if any. `requestUnification(id)`
      is taken to post `request_unification` with that id; `VSCodeAPI.ts`, which defines it,
      is not part of this model. */
  function HostMessageOf<S, U, B>(e: UiEffect<S, U, B>): (r: Option<MessageFromWebview<B>>)
    ensures r.Some? <==> e.PostToHost? || e.RequestUnificationOf?
    ensures e.PostToHost? ==> r == Some(e.msg)
    ensures e.RequestUnificationOf? ==> r == Some(RequestUnification(e.id))
  {
    match e
    case PostToHost(m) => Some(m)
    case RequestUnificationOf(id) => Some(RequestUnification(id))
    case _ => None
  }
}
