/**
  The module-level registry of `SEDAPSession.ts`: the `sessionCount` counter, the `sessions`
  record from id to bridge, construction and disposal of bridges, and the routing of debug
  session events to every bridge that owns the event's session.

  The record is an immutable map and every operation returns the next registry. A JavaScript
  object with integer keys lists its values in ascending key order, so routing visits ids
  from 0 up to the counter.
 */
module SessionRegistry {
  import opened Schema
  import opened SedapSession

  /** `sessionCount` and `sessions`. */
  datatype Registry = Registry(count: nat, sessions: map<nat, Bridge>)

  /** The registry when the module is loaded. */
  const Empty := Registry(0, map[])

  /** Every id in use was handed out by the counter, each entry is the bridge registered under
      its own id, and no disposed bridge remains registered. */
  predicate Valid(reg: Registry)
  {
    forall k :: k in reg.sessions ==>
      k < reg.count && reg.sessions[k].id == k && !reg.sessions[k].disposed
  }

  lemma EmptyValid()
    ensures Valid(Empty)
  {
  }

  /** The `SEDAPSession` constructor: take the counter value as id, increment the counter,
      register the bridge under the id and subscribe to the panel's messages and disposal. */
  function Construct(reg: Registry, session: SessionHandle, panel: PanelHandle, logEnabled: bool): (r: (Registry, Bridge))
    ensures r.1.id == reg.count && r.0.count == reg.count + 1
    ensures r.1.session == session && r.1.panel == panel && r.1.logEnabled == logEnabled
    ensures r.1.subscriptions == [WebviewMessages(panel), PanelDisposal(panel)] && !r.1.disposed
    ensures r.0.sessions.Keys == reg.sessions.Keys + {r.1.id}
    ensures r.0.sessions[r.1.id] == r.1
    ensures forall k :: k in reg.sessions && k != r.1.id ==> r.0.sessions[k] == reg.sessions[k]
    ensures Valid(reg) ==> r.1.id !in reg.sessions && Valid(r.0)
  {
    var b := Bridge(reg.count, session, panel, logEnabled, [WebviewMessages(panel), PanelDisposal(panel)], false);
    (Registry(reg.count + 1, reg.sessions[reg.count := b]), b)
  }

  /** `_dispose`: release the bridge's subscriptions in order and delete its registry entry. */
  function DisposeEntry(reg: Registry, b: Bridge): (r: (Registry, seq<Subscription>))
    ensures r.0.count == reg.count
    ensures b.id !in r.0.sessions
    ensures forall k :: k != b.id ==> (k in r.0.sessions <==> k in reg.sessions)
    ensures forall k :: k in r.0.sessions ==> r.0.sessions[k] == reg.sessions[k]
    ensures r.1 == b.subscriptions
    ensures Valid(reg) ==> Valid(r.0)
  {
    (Registry(reg.count, reg.sessions - {b.id}), b.subscriptions)
  }

  /** Running `_dispose` a second time leaves the registry as the first run left it. */
  lemma DisposeEntryIdempotent(reg: Registry, b: Bridge)
    ensures DisposeEntry(DisposeEntry(reg, b).0, b).0 == DisposeEntry(reg, b).0
  {
  }

  /** `dispose()`: the bridge's `vscode.Disposable` runs `_dispose` on its first call only.
      Returns the registry, the bridge and the subscriptions released. */
  function Dispose(reg: Registry, b: Bridge): (r: (Registry, Bridge, seq<Subscription>))
    ensures r.1.disposed
    ensures b.disposed ==> r.1 == b
    ensures !b.disposed ==> r.1 == b.(disposed := true)
    ensures b.disposed ==> r.0 == reg && r.2 == []
    ensures !b.disposed ==> r.0 == DisposeEntry(reg, b).0 && r.2 == b.subscriptions
  {
    if b.disposed then (reg, b, [])
    else
      var (reg', released) := DisposeEntry(reg, b);
      (reg', b.(disposed := true), released)
  }

  /** Disposing twice (a panel close followed by a session end, say) releases each
      subscription once and deregisters once: the second call changes nothing. */
  lemma DisposeTwice(reg: Registry, b: Bridge)
    requires !b.disposed
    ensures var (reg1, b1, rel1) := Dispose(reg, b);
            var (reg2, b2, rel2) := Dispose(reg1, b1);
            && reg2 == reg1 && rel2 == [] && rel1 + rel2 == b.subscriptions
            && b.id !in reg2.sessions
  {
  }

  /** The ids below `n` whose bridge owns session `h`, in ascending order. */
  function MatchingBelow(sessions: map<nat, Bridge>, h: SessionHandle, n: nat): (r: seq<nat>)
    ensures forall i :: 0 <= i < |r| ==> r[i] < n && r[i] in sessions && sessions[r[i]].session == h
    ensures forall k :: 0 <= k < n && k in sessions && sessions[k].session == h ==> k in r
    ensures forall i, j :: 0 <= i < j < |r| ==> r[i] < r[j]
    decreases n
  {
    if n == 0 then []
    else
      var k := n - 1;
      MatchingBelow(sessions, h, k) + (if k in sessions && sessions[k].session == h then [k] else [])
  }

  /** The set of registered ids whose bridge owns session `h`. */
  ghost function MatchingIds(reg: Registry, h: SessionHandle): set<nat>
  {
    set k | k in reg.sessions && reg.sessions[k].session == h
  }

  /** `withMatchingSession`: the ids whose bridge the callback is called for, in call order.
      They are exactly the registered bridges whose session is `h`, each once. */
  function WithMatchingSession(reg: Registry, h: SessionHandle): (r: seq<nat>)
    requires Valid(reg)
    ensures forall k :: k in r <==> k in MatchingIds(reg, h)
    ensures forall i, j :: 0 <= i < j < |r| ==> r[i] < r[j]
    ensures |r| == |MatchingIds(reg, h)|
  {
    var r := MatchingBelow(reg.sessions, h, reg.count);
    DistinctCardinality(r, MatchingIds(reg, h));
    r
  }

  /** A strictly increasing sequence has as many elements as the set of its elements. */
  lemma {:induction false} DistinctCardinality(r: seq<nat>, s: set<nat>)
    requires forall i, j :: 0 <= i < j < |r| ==> r[i] < r[j]
    requires forall k :: k in r <==> k in s
    ensures |r| == |s|
    decreases |r|
  {
    if r != [] {
      var last := r[|r| - 1];
      var init := r[..|r| - 1];
      assert forall k :: k in init <==> k in s - {last} by {
        forall k
          ensures k in init <==> k in s - {last}
        {
          if k in init {
            var i :| 0 <= i < |init| && init[i] == k;
            assert r[i] < last;
          }
          if k in s - {last} {
            var i :| 0 <= i < |r| && r[i] == k;
            assert i != |r| - 1;
            assert init[i] == k;
          }
        }
      }
      DistinctCardinality(init, s - {last});
    }
  }

  /** Calls `handleCustomDebugEvent` on the bridges registered under `ids`, in order. */
  function DispatchEvent<S, U, B>(reg: Registry, ids: seq<nat>, e: CustomEvent<S>): seq<Effect<S, U, B>>
    requires forall i :: 0 <= i < |ids| ==> ids[i] in reg.sessions && ReadableBy(reg.sessions[ids[i]], e)
  {
    if ids == [] then []
    else HandleCustomDebugEvent(reg.sessions[ids[0]], e) + DispatchEvent(reg, ids[1..], e)
  }

  /** The `onDidReceiveDebugSessionCustomEvent` subscription: route the event to every bridge
      owning its session. */
  function DeliverCustomEvent<S, U, B>(reg: Registry, e: CustomEvent<S>): (r: seq<Effect<S, U, B>>)
    requires Valid(reg)
    requires forall k :: k in reg.sessions && reg.sessions[k].session == e.session ==> ReadableBy(reg.sessions[k], e)
    ensures MatchingIds(reg, e.session) == {} ==> r == []
    ensures Select(r, RequestKind) == [] && Select(r, ErrorKind) == []
  {
    var ids := WithMatchingSession(reg, e.session);
    DispatchNoRequests<S, U, B>(reg, ids, e);
    DispatchEvent(reg, ids, e)
  }

  lemma {:induction false} DispatchNoRequests<S, U, B>(reg: Registry, ids: seq<nat>, e: CustomEvent<S>)
    requires forall i :: 0 <= i < |ids| ==> ids[i] in reg.sessions && ReadableBy(reg.sessions[ids[i]], e)
    ensures Select(DispatchEvent<S, U, B>(reg, ids, e), RequestKind) == []
    ensures Select(DispatchEvent<S, U, B>(reg, ids, e), ErrorKind) == []
    decreases |ids|
  {
    if ids != [] {
      var head: seq<Effect<S, U, B>> := HandleCustomDebugEvent(reg.sessions[ids[0]], e);
      DispatchNoRequests<S, U, B>(reg, ids[1..], e);
      SelectAppend(head, DispatchEvent<S, U, B>(reg, ids[1..], e), RequestKind);
      SelectAppend(head, DispatchEvent<S, U, B>(reg, ids[1..], e), ErrorKind);
    }
  }

  /** A `debugStateUpdate` event reaches each matching bridge's panel as one `state_update`
      carrying the event's snapshot, in routing order, and nothing else happens. */
  lemma {:induction false} DispatchStateUpdate<S, U, B>(reg: Registry, ids: seq<nat>, e: CustomEvent<S>)
    requires forall i :: 0 <= i < |ids| ==> ids[i] in reg.sessions
    requires e.event == StateUpdateEvent && e.body.StateBody?
    ensures var r := DispatchEvent<S, U, B>(reg, ids, e);
            && |r| == |ids|
            && forall i :: 0 <= i < |ids| ==> r[i] == PostToWebview(reg.sessions[ids[i]].panel, StateUpdate(e.body.state))
    decreases |ids|
  {
    if ids != [] {
      DispatchStateUpdate<S, U, B>(reg, ids[1..], e);
    }
  }

  lemma DeliverStateUpdate<S, U, B>(reg: Registry, e: CustomEvent<S>)
    requires Valid(reg)
    requires e.event == StateUpdateEvent && e.body.StateBody?
    ensures var ids := WithMatchingSession(reg, e.session);
            var r := DeliverCustomEvent<S, U, B>(reg, e);
            && |r| == |MatchingIds(reg, e.session)|
            && forall i :: 0 <= i < |r| ==>
                 && ids[i] in MatchingIds(reg, e.session)
                 && r[i] == PostToWebview(reg.sessions[ids[i]].panel, StateUpdate(e.body.state))
  {
    DispatchStateUpdate<S, U, B>(reg, WithMatchingSession(reg, e.session), e);
  }

  /** An event name the bridge does not handle reaches each listed bridge as one
      unhandled-event error, in list order, and nothing else happens. */
  lemma {:induction false} DispatchUnhandled<S, U, B>(reg: Registry, ids: seq<nat>, e: CustomEvent<S>)
    requires forall i :: 0 <= i < |ids| ==> ids[i] in reg.sessions
    requires e.event != LogEvent && e.event != StateUpdateEvent
    ensures var r := DispatchEvent<S, U, B>(reg, ids, e);
            && |r| == |ids|
            && forall i :: 0 <= i < |r| ==> r[i] == ConsoleError(UnhandledEventText(e.event))
    decreases |ids|
  {
    if ids != [] {
      DispatchUnhandled<S, U, B>(reg, ids[1..], e);
    }
  }

  /** The listed ids whose bridge has logging on, in list order. */
  function LoggingOf(reg: Registry, ids: seq<nat>): (r: seq<nat>)
    requires forall i :: 0 <= i < |ids| ==> ids[i] in reg.sessions
    ensures forall k :: k in r <==> k in ids && k in reg.sessions && reg.sessions[k].logEnabled
    decreases |ids|
  {
    if ids == [] then []
    else (if reg.sessions[ids[0]].logEnabled then [ids[0]] else []) + LoggingOf(reg, ids[1..])
  }

  /** A list of ids in strictly ascending order. */
  predicate Ascending(s: seq<nat>)
  {
    forall i, j :: 0 <= i < j < |s| ==> s[i] < s[j]
  }

  /** Keeping some of an ascending list keeps it ascending. */
  lemma {:induction false} LoggingOfAscending(reg: Registry, ids: seq<nat>)
    requires forall i :: 0 <= i < |ids| ==> ids[i] in reg.sessions
    requires Ascending(ids)
    ensures Ascending(LoggingOf(reg, ids))
    decreases |ids|
  {
    if ids != [] {
      assert Ascending(ids[1..]) by {
        forall i, j | 0 <= i < j < |ids[1..]|
          ensures ids[1..][i] < ids[1..][j]
        {
          assert ids[1..][i] == ids[i + 1] && ids[1..][j] == ids[j + 1];
        }
      }
      LoggingOfAscending(reg, ids[1..]);
      var rest := LoggingOf(reg, ids[1..]);
      forall j | 0 <= j < |rest|
        ensures ids[0] < rest[j]
      {
        assert rest[j] in ids[1..];
        var m :| 0 <= m < |ids[1..]| && ids[1..][m] == rest[j];
        assert ids[m + 1] == rest[j];
      }
    }
  }

  /** The ids registered for session `h` whose bridge has logging on. */
  ghost function LoggingIds(reg: Registry, h: SessionHandle): set<nat>
  {
    set k | k in reg.sessions && reg.sessions[k].session == h && reg.sessions[k].logEnabled
  }

  /** A `log` event yields one and the same console line per listed bridge with logging on,
      and nothing else: nothing when none has it on, something when one has. */
  lemma DispatchLog<S, U, B>(reg: Registry, ids: seq<nat>, e: CustomEvent<S>)
    requires forall i :: 0 <= i < |ids| ==> ids[i] in reg.sessions && ReadableBy(reg.sessions[ids[i]], e)
    requires e.event == LogEvent
    ensures var r := DispatchEvent<S, U, B>(reg, ids, e);
            && |r| <= |ids|
            && ((forall i :: 0 <= i < |ids| ==> !reg.sessions[ids[i]].logEnabled) ==> r == [])
            && ((exists i :: 0 <= i < |ids| && reg.sessions[ids[i]].logEnabled) ==> |r| > 0)
            && (r != [] ==> e.body.LogBody?)
            && forall i :: 0 <= i < |r| ==> r[i] == LogLine<S, U, B>(e)
    ensures |DispatchEvent<S, U, B>(reg, ids, e)| == |LoggingOf(reg, ids)|
  {
    DispatchLogLines<S, U, B>(reg, ids, e);
    DispatchLogCount<S, U, B>(reg, ids, e);
    DispatchLogOff<S, U, B>(reg, ids, e);
    if exists i :: 0 <= i < |ids| && reg.sessions[ids[i]].logEnabled {
      var i :| 0 <= i < |ids| && reg.sessions[ids[i]].logEnabled;
      DispatchLogOn<S, U, B>(reg, ids, e, i);
    }
  }

  /** Each bridge contributes at most one line, and every line is the event's `<D> msg` line. */
  lemma {:induction false} DispatchLogLines<S, U, B>(reg: Registry, ids: seq<nat>, e: CustomEvent<S>)
    requires forall i :: 0 <= i < |ids| ==> ids[i] in reg.sessions && ReadableBy(reg.sessions[ids[i]], e)
    requires e.event == LogEvent
    ensures var r := DispatchEvent<S, U, B>(reg, ids, e);
            && |r| <= |ids|
            && (r != [] ==> e.body.LogBody?)
            && forall i :: 0 <= i < |r| ==> r[i] == LogLine<S, U, B>(e)
    decreases |ids|
  {
    if ids != [] {
      DispatchLogLines<S, U, B>(reg, ids[1..], e);
    }
  }

  /** A `log` event yields one line per listed bridge with logging on. */
  lemma {:induction false} DispatchLogCount<S, U, B>(reg: Registry, ids: seq<nat>, e: CustomEvent<S>)
    requires forall i :: 0 <= i < |ids| ==> ids[i] in reg.sessions && ReadableBy(reg.sessions[ids[i]], e)
    requires e.event == LogEvent
    ensures |DispatchEvent<S, U, B>(reg, ids, e)| == |LoggingOf(reg, ids)|
    decreases |ids|
  {
    if ids != [] {
      DispatchLogCount<S, U, B>(reg, ids[1..], e);
    }
  }

  /** With logging off at every listed bridge, a `log` event yields nothing. */
  lemma {:induction false} DispatchLogOff<S, U, B>(reg: Registry, ids: seq<nat>, e: CustomEvent<S>)
    requires forall i :: 0 <= i < |ids| ==> ids[i] in reg.sessions && ReadableBy(reg.sessions[ids[i]], e)
    requires e.event == LogEvent
    ensures (forall i :: 0 <= i < |ids| ==> !reg.sessions[ids[i]].logEnabled) ==> DispatchEvent<S, U, B>(reg, ids, e) == []
    decreases |ids|
  {
    if ids != [] {
      DispatchLogOff<S, U, B>(reg, ids[1..], e);
    }
  }

  /** With logging on at the listed bridge `j`, a `log` event yields something. */
  lemma {:induction false} DispatchLogOn<S, U, B>(reg: Registry, ids: seq<nat>, e: CustomEvent<S>, j: nat)
    requires forall i :: 0 <= i < |ids| ==> ids[i] in reg.sessions && ReadableBy(reg.sessions[ids[i]], e)
    requires e.event == LogEvent
    requires j < |ids| && reg.sessions[ids[j]].logEnabled
    ensures |DispatchEvent<S, U, B>(reg, ids, e)| > 0
    decreases |ids|
  {
    if j > 0 {
      assert ids[1..][j - 1] == ids[j];
      DispatchLogOn<S, U, B>(reg, ids[1..], e, j - 1);
    }
  }

  /** Delivering an event name no bridge handles reports it once per bridge owning the
      session, and does nothing else. */
  lemma DeliverUnhandled<S, U, B>(reg: Registry, e: CustomEvent<S>)
    requires Valid(reg)
    requires e.event != LogEvent && e.event != StateUpdateEvent
    ensures var r := DeliverCustomEvent<S, U, B>(reg, e);
            && |r| == |MatchingIds(reg, e.session)|
            && forall i :: 0 <= i < |r| ==> r[i] == ConsoleError(UnhandledEventText(e.event))
  {
    DispatchUnhandled<S, U, B>(reg, WithMatchingSession(reg, e.session), e);
  }

  /** Delivering a `log` event prints the `<D> msg` line exactly once per bridge owning the
      session that has logging on, and nothing else. */
  lemma DeliverLog<S, U, B>(reg: Registry, e: CustomEvent<S>)
    requires Valid(reg)
    requires forall k :: k in reg.sessions && reg.sessions[k].session == e.session ==> ReadableBy(reg.sessions[k], e)
    requires e.event == LogEvent
    ensures var r := DeliverCustomEvent<S, U, B>(reg, e);
            && |r| <= |MatchingIds(reg, e.session)|
            && ((forall k :: k in MatchingIds(reg, e.session) ==> !reg.sessions[k].logEnabled) ==> r == [])
            && ((exists k :: k in MatchingIds(reg, e.session) && reg.sessions[k].logEnabled) ==> |r| > 0)
            && (r != [] ==> e.body.LogBody?)
            && forall i :: 0 <= i < |r| ==> r[i] == LogLine<S, U, B>(e)
    ensures |DeliverCustomEvent<S, U, B>(reg, e)| == |LoggingIds(reg, e.session)|
  {
    var ids := WithMatchingSession(reg, e.session);
    DispatchLog<S, U, B>(reg, ids, e);
    LoggingOfAscending(reg, ids);
    DistinctCardinality(LoggingOf(reg, ids), LoggingIds(reg, e.session));
    if exists k :: k in MatchingIds(reg, e.session) && reg.sessions[k].logEnabled {
      var k :| k in MatchingIds(reg, e.session) && reg.sessions[k].logEnabled;
      assert k in ids;
      var i :| 0 <= i < |ids| && ids[i] == k;
    }
  }

  /** The ids of a list of bridges. */
  function IdsOf(bs: seq<Bridge>): (r: set<nat>)
    ensures forall i :: 0 <= i < |bs| ==> bs[i].id in r
    ensures forall k :: k in r ==> exists i :: 0 <= i < |bs| && bs[i].id == k
  {
    if bs == [] then {} else {bs[0].id} + IdsOf(bs[1..])
  }

  /** The subscriptions of a list of bridges, bridge by bridge in list order. */
  function SubsOf(bs: seq<Bridge>): (r: seq<Subscription>)
  {
    if bs == [] then [] else bs[0].subscriptions + SubsOf(bs[1..])
  }

  /** `dispose()` on each bridge of a list in turn. Each bridge is deregistered and releases
      its own subscriptions, in list order. */
  function DisposeBridges(reg: Registry, bs: seq<Bridge>): (r: (Registry, seq<Subscription>))
    requires forall i :: 0 <= i < |bs| ==> !bs[i].disposed
    ensures r.0.count == reg.count
    ensures r.0.sessions == reg.sessions - IdsOf(bs)
    ensures r.1 == SubsOf(bs)
    decreases |bs|
  {
    if bs == [] then (reg, [])
    else
      var (reg1, _, released) := Dispose(reg, bs[0]);
      var (reg2, rest) := DisposeBridges(reg1, bs[1..]);
      (reg2, released + rest)
  }

  /** The bridges registered under `ids`, read before any is disposed (`Object.values`). */
  function BridgesAt(reg: Registry, ids: seq<nat>): (r: seq<Bridge>)
    requires forall i :: 0 <= i < |ids| ==> ids[i] in reg.sessions
    ensures |r| == |ids|
    ensures forall i :: 0 <= i < |ids| ==> r[i] == reg.sessions[ids[i]]
    ensures Valid(reg) ==> forall i :: 0 <= i < |ids| ==> r[i].id == ids[i] && !r[i].disposed
  {
    if ids == [] then [] else [reg.sessions[ids[0]]] + BridgesAt(reg, ids[1..])
  }

  /** Bridges whose ids are `ids`, in order, have exactly the ids in `ids`. */
  lemma {:induction false} IdsOfMatches(bs: seq<Bridge>, ids: seq<nat>)
    requires |bs| == |ids|
    requires forall i :: 0 <= i < |ids| ==> bs[i].id == ids[i]
    ensures forall k :: k in IdsOf(bs) <==> k in ids
    decreases |bs|
  {
    if bs != [] {
      IdsOfMatches(bs[1..], ids[1..]);
      assert forall k :: k in ids <==> k == ids[0] || k in ids[1..];
    }
  }

  /** The `onDidTerminateDebugSession` subscription: dispose every bridge owning the ended
      session. Afterwards no bridge of that session is registered, every other entry is as it
      was and the counter is unchanged. The subscriptions released are those of the matching
      bridges, in routing order. */
  function TerminateSession(reg: Registry, h: SessionHandle): (r: (Registry, seq<Subscription>))
    requires Valid(reg)
    ensures Valid(r.0) && r.0.count == reg.count
    ensures forall k :: k in r.0.sessions <==> k in reg.sessions && reg.sessions[k].session != h
    ensures forall k :: k in r.0.sessions ==> r.0.sessions[k] == reg.sessions[k]
    ensures r.1 == SubsOf(BridgesAt(reg, WithMatchingSession(reg, h)))
  {
    var ids := WithMatchingSession(reg, h);
    var bs := BridgesAt(reg, ids);
    IdsOfMatches(bs, ids);
    assert IdsOf(bs) == MatchingIds(reg, h);
    var r := DisposeBridges(reg, bs);
    assert r.0.sessions == reg.sessions - MatchingIds(reg, h);
    r
  }

  /** A panel close disposes its bridge; when the session then ends, routing no longer reaches
      that bridge, so `TerminateSession` does not release its subscriptions a second time. */
  lemma PanelCloseThenTerminate(reg: Registry, k: nat)
    requires Valid(reg) && k in reg.sessions
    ensures var reg1 := Dispose(reg, reg.sessions[k]).0;
            var bs := BridgesAt(reg1, WithMatchingSession(reg1, reg.sessions[k].session));
            && k !in WithMatchingSession(reg1, reg.sessions[k].session)
            && forall i :: 0 <= i < |bs| ==> bs[i].id != k
  {
  }

  /** One step of the registry's life. */
  datatype Op =
    | Create(session: SessionHandle, panel: PanelHandle, logEnabled: bool)
    | DisposeId(id: nat)
    | Terminate(session: SessionHandle)

  /** One step: the next registry and the id it hands out, if any. Only a construction hands
      out an id, and that id is the counter value the step starts from. */
  function Step(reg: Registry, op: Op): (r: (Registry, seq<nat>))
    requires Valid(reg)
    ensures Valid(r.0)
    ensures r.0.count == reg.count + |r.1|
    ensures |r.1| <= 1
    ensures forall i :: 0 <= i < |r.1| ==> r.1[i] == reg.count
  {
    match op
    case Create(session, panel, logEnabled) =>
      var (reg1, b) := Construct(reg, session, panel, logEnabled);
      (reg1, [b.id])
    case DisposeId(id) =>
      if id in reg.sessions then (Dispose(reg, reg.sessions[id]).0, []) else (reg, [])
    case Terminate(session) => (TerminateSession(reg, session).0, [])
  }

  /** Runs a sequence of steps; returns the final registry and the ids handed out, in order. */
  function Run(reg: Registry, ops: seq<Op>): (Registry, seq<nat>)
    requires Valid(reg)
    decreases |ops|
  {
    if ops == [] then (reg, [])
    else
      var next := Step(reg, ops[0]);
      var (final, ids) := Run(next.0, ops[1..]);
      (final, next.1 + ids)
  }

  /** Whatever mix of constructions and disposals happens, the ids handed out are strictly
      increasing, all at least the starting counter and below the final one, so no id is
      handed out twice and none collides with an id registered at the start. */
  lemma {:induction false} RunIssuesFreshIds(reg: Registry, ops: seq<Op>)
    requires Valid(reg)
    ensures var (final, ids) := Run(reg, ops);
            && Valid(final)
            && final.count == reg.count + |ids|
            && (forall i :: 0 <= i < |ids| ==> reg.count <= ids[i] < final.count)
            && (forall i :: 0 <= i < |ids| ==> ids[i] !in reg.sessions)
            && (forall i, j :: 0 <= i < j < |ids| ==> ids[i] < ids[j])
    decreases |ops|
  {
    if ops != [] {
      var next := Step(reg, ops[0]);
      RunIssuesFreshIds(next.0, ops[1..]);
    }
  }
}
