/**
  End-to-end exchanges between the webview and the bridge: a webview message is handled by the
  bridge, which posts a message back, which the webview handles in turn. The debugger snapshot
  the bridge passes along opaquely is the webview's `DebuggerState<X>`.
 */
module RoundTrips {
  import opened Schema
  import opened SedapSession
  import opened SdapUi

  /** `refresh` makes the bridge ask the adapter for `debuggerState`. An undefined answer
      reaches the webview as nothing at all; a snapshot reaches it as one `state_update`,
      and the webview stores exactly that snapshot before anything else. */
  lemma RefreshRoundTrip<X, U, B>(b: Bridge, reply: Reply<DebuggerState<X>, U>, isInStore: int -> bool)
    requires reply.StateReply?
    ensures var m := HostMessageOf(Refresh<DebuggerState<X>, U, B>()[0]).value;
            var es := HandleMessageFromWebview(b, m, reply);
            && es[0] == CustomRequest(b.session, Request("debuggerState", NoArgs))
            && (reply.state.None? ==> Select(es, PostKind) == [])
            && (reply.state.Some? ==>
                  var posts := Select(es, PostKind);
                  && |posts| == 1
                  && posts[0].panel == b.panel
                  && OnMessage<X, U, B>(posts[0].msg, isInStore)[0]
                       == StoreUpdate(UpdateDebuggerState(reply.state.value)))
  {
    StateUpdateRequest<DebuggerState<X>, U, B>(b, reply);
  }

  /** A snapshot whose current proc has an uncached first unification makes the webview ask
      for it; the bridge asks the adapter for that id, and the webview then loads whatever id
      and map the adapter answered with, even when the answered id differs. */
  lemma UnificationRoundTrip<X, U, B>(b: Bridge, state: DebuggerState<X>, isInStore: int -> bool, unifyId: int, unifyMap: U)
    requires state.currentProc in state.procs
    requires |state.procs[state.currentProc].unifys| > 0
    requires !isInStore(state.procs[state.currentProc].unifys[0].id)
    ensures var requested := state.procs[state.currentProc].unifys[0].id;
            var ui := OnMessage<X, U, B>(StateUpdate(state), isInStore);
            var m := HostMessageOf(ui[1]).value;
            var es := HandleMessageFromWebview<DebuggerState<X>, U, B>(b, m, UnifyReply(unifyId, unifyMap));
            && m == RequestUnification(requested)
            && es[0] == CustomRequest(b.session, Request("unification", IdArgs(requested)))
            && |Select(es, PostKind)| == 1
            && OnMessage<X, U, B>(Select(es, PostKind)[0].msg, isInStore)
                 == [StoreUpdate(LoadUnification(unifyId, unifyMap))]
  {
    UnificationRequest<DebuggerState<X>, U, B>(b, state.procs[state.currentProc].unifys[0].id, unifyId, unifyMap);
  }

  /** A `debugStateUpdate` event reaches the webview of the bridge that receives it, and the
      webview stores the event's snapshot unaltered. */
  lemma EventReachesStore<X, U, B>(b: Bridge, e: CustomEvent<DebuggerState<X>>, isInStore: int -> bool)
    requires e.event == StateUpdateEvent && e.body.StateBody?
    ensures var es := HandleCustomDebugEvent<DebuggerState<X>, U, B>(b, e);
            && |es| == 1 && es[0].panel == b.panel
            && OnMessage<X, U, B>(es[0].msg, isInStore)[0] == StoreUpdate(UpdateDebuggerState(e.body.state))
  {
  }
}
