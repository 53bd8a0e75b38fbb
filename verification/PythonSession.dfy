/**
 The objects of the two processes that take the steps of module PythonRpc: the host's execution
 (crates/execution/src/python.rs, crates/execution/src/javascript.rs) and the runtime's call table
 (crates/v8-runtime/src/host_call.rs, crates/v8-runtime/src/main.rs).
 */
module PythonSession {
  import opened PythonRpc

  // ---------------------------------------------------------------------
  // The host's object
  // ---------------------------------------------------------------------

  /** The two slots and the socket, each behind its lock; `seen` also knows where every thread is. */
  class PythonExecution {
    var pendingVfsRpc: Slot
    var pendingSyncRpc: Slot
    var bridgeResponses: seq<Response>
    ghost var seen: State

    ghost predicate Valid()
      reads this
    {
      seen.vfs == pendingVfsRpc && seen.inner == pendingSyncRpc && seen.written == bridgeResponses && Inv(seen)
    }

    constructor ()
      ensures Valid() && seen == START
    {
      pendingVfsRpc, pendingSyncRpc, bridgeResponses := Empty, Empty, [];
      seen := START;
      StartInv();
    }

    /** The bridge thread's bookkeeping for a call it forwards. */
    method NoteBridgeCall(id: Id)
      requires Valid() && id in seen.calling
      modifies this
      ensures Valid() && seen == Step(old(seen), CallArrives(id))
      ensures pendingSyncRpc == Pending(id) && pendingVfsRpc == old(pendingVfsRpc)
      ensures bridgeResponses == old(bridgeResponses)
    {
      hide Inv;
      StepKeepsInv(seen, CallArrives(id));
      pendingSyncRpc := Pending(id);
      seen := Step(seen, CallArrives(id));
    }

    /** The `_pythonRpc` branch of `translate_javascript_event`: set the slot, start the timer. */
    method IssueRequest(id: Id)
      requires Valid() && id in seen.queued
      modifies this
      ensures Valid() && seen == Step(old(seen), RequestIssued(id))
      ensures pendingVfsRpc == Pending(id) && pendingSyncRpc == old(pendingSyncRpc)
      ensures bridgeResponses == old(bridgeResponses)
    {
      hide Inv;
      StepKeepsInv(seen, RequestIssued(id));
      pendingVfsRpc := Pending(id);
      seen := Step(seen, RequestIssued(id));
    }

    /** `clear_pending_vfs_rpc`, the first lock of an answer. */
    method ClearPendingVfsRpc(id: Id) returns (r: Resolution)
      requires Valid()
      modifies this
      ensures Valid() && seen == Step(old(seen), HostAnswers(id))
      ensures r == Resolve(old(pendingVfsRpc), id) && bridgeResponses == old(bridgeResponses)
      ensures !r.WasTimedOut? ==> id in seen.clearing
      ensures pendingVfsRpc == if old(pendingVfsRpc) == Pending(id) then Empty else old(pendingVfsRpc)
      ensures r.WasPending? <==> old(pendingVfsRpc) == Pending(id)
      ensures r.WasTimedOut? <==> old(pendingVfsRpc) == TimedOut(id)
    {
      StepKeepsInv(seen, HostAnswers(id));
      hide Inv;
      r := Missing;
      match pendingVfsRpc {
        case Pending(current) =>
          if current == id {
            pendingVfsRpc := Empty;
            r := WasPending;
          }
        case TimedOut(current) =>
          if current == id {
            r := WasTimedOut;
          }
        case Empty =>
      }
      seen := Step(seen, HostAnswers(id));
    }

    /** `clear_pending_sync_rpc`, the second lock of an answer: no answer is ever too late for it. */
    method ClearPendingSyncRpc(id: Id) returns (r: Resolution)
      requires Valid() && id in seen.clearing
      modifies this
      ensures Valid() && seen == Step(old(seen), InnerClears(id)) && bridgeResponses == old(bridgeResponses)
      ensures r == Resolve(old(pendingSyncRpc), id) && !r.WasTimedOut? && id in seen.writing
      ensures pendingSyncRpc == if old(pendingSyncRpc) == Pending(id) then Empty else old(pendingSyncRpc)
    {
      assert !pendingSyncRpc.TimedOut?;
      StepKeepsInv(seen, InnerClears(id));
      hide Inv;
      r := Missing;
      match pendingSyncRpc {
        case Pending(current) =>
          if current == id {
            pendingSyncRpc := Empty;
            r := WasPending;
          }
        case TimedOut(current) =>
          if current == id {
            r := WasTimedOut;
          }
        case Empty =>
      }
      seen := Step(seen, InnerClears(id));
    }

    /** The third lock of an answer: the response goes out whole. */
    method SendAnswer(id: Id)
      requires Valid() && id in seen.writing
      modifies this
      ensures Valid() && seen == Step(old(seen), HostWrites(id))
      ensures bridgeResponses == old(bridgeResponses) + [Response(id, Host)]
    {
      StepKeepsInv(seen, HostWrites(id));
      hide Inv;
      bridgeResponses := bridgeResponses + [Response(id, Host)];
      seen := Step(seen, HostWrites(id));
    }

    /** `respond_sync_rpc_success` and `respond_sync_rpc_error` of the inner engine. */
    method RespondInner(id: Id) returns (ok: bool)
      requires Valid() && id in seen.clearing
      modifies this
      ensures Valid() && ok && seen == Step(Step(old(seen), InnerClears(id)), HostWrites(id))
      ensures bridgeResponses == old(bridgeResponses) + [Response(id, Host)]
    {
      hide Inv, Step;
      var resolution := ClearPendingSyncRpc(id);
      if resolution.WasTimedOut? {
        return false;
      }
      SendAnswer(id);
      return true;
    }

    /** `respond_vfs_rpc_success` and `respond_vfs_rpc_error`, when no other thread comes in between. */
    method RespondVfsRpc(id: Id) returns (ok: bool)
      requires Valid()
      modifies this
      ensures Valid() && (ok <==> old(pendingVfsRpc) != TimedOut(id))
      ensures ok ==> seen == Step(Step(Step(old(seen), HostAnswers(id)), InnerClears(id)), HostWrites(id))
      ensures bridgeResponses == old(bridgeResponses) + if ok then [Response(id, Host)] else []
      ensures !ok ==> seen == old(seen)
    {
      ghost var before := seen;
      assert pendingVfsRpc == TimedOut(id) ==> Step(before, HostAnswers(id)) == before;
      hide Inv, Step;
      var resolution := ClearPendingVfsRpc(id);
      if resolution.WasTimedOut? {
        return false;
      }
      ok := RespondInner(id);
    }

    /** `respond_javascript_sync_rpc_success` and `respond_javascript_sync_rpc_error`. */
    method RespondJavascriptSyncRpc(id: Id) returns (ok: bool)
      requires Valid()
      modifies this
      ensures Valid() && ok
      ensures seen == Step(Step(Step(old(seen), HostAnswersInner(id)), InnerClears(id)), HostWrites(id))
      ensures bridgeResponses == old(bridgeResponses) + [Response(id, Host)]
    {
      StepKeepsInv(seen, HostAnswersInner(id));
      hide Inv;
      seen := Step(seen, HostAnswersInner(id));
      hide Step;
      ok := RespondInner(id);
    }

    /** A timer thread after its sleep. */
    method TimerWakes(id: Id) returns (shouldTimeout: bool)
      requires Valid() && id in seen.timers
      modifies this
      ensures Valid() && seen == Step(old(seen), TimerFires(id)) && bridgeResponses == old(bridgeResponses)
      ensures shouldTimeout <==> old(pendingVfsRpc) == Pending(id)
      ensures pendingVfsRpc == if shouldTimeout then TimedOut(id) else old(pendingVfsRpc)
      ensures shouldTimeout ==> id in seen.due
    {
      hide Inv;
      StepKeepsInv(seen, TimerFires(id));
      shouldTimeout := pendingVfsRpc == Pending(id);
      if shouldTimeout {
        pendingVfsRpc := TimedOut(id);
      }
      seen := Step(seen, TimerFires(id));
    }

    /** The error a timer writes once it has taken the slot. */
    method TimerReports(id: Id)
      requires Valid() && id in seen.due
      modifies this
      ensures Valid() && seen == Step(old(seen), TimerWrites(id))
      ensures bridgeResponses == old(bridgeResponses) + [Response(id, Timer)]
    {
      hide Inv;
      StepKeepsInv(seen, TimerWrites(id));
      bridgeResponses := bridgeResponses + [Response(id, Timer)];
      seen := Step(seen, TimerWrites(id));
    }
  }

  // ---------------------------------------------------------------------
  // The runtime's object
  // ---------------------------------------------------------------------

  /**
   The routing table and the call counter all sessions share, and what each session has received. A session takes
   an id and then routes it; another one may do both in between. `held` knows the ids that are taken and not
   routed yet, `upTo` the ids each session has used up.
   */
  class CallIdRouter {
    var nextCallId: Id
    var sessions: map<Id, string>
    var inboxes: map<string, seq<Response>>
    ghost var held: map<string, Id>
    ghost var upTo: map<string, Id>

    ghost function NextOf(session: string): (id: Id)
      reads this
    {
      if session in upTo then upTo[session] else 1
    }

    ghost function View(session: string): (rt: Router)
      reads this
    {
      Router(NextOf(session), set id | id in sessions && sessions[id] == session,
             if session in inboxes then inboxes[session] else [])
    }

    ghost predicate Valid()
      reads this
    {
      && nextCallId >= 1
      && (forall id :: id in sessions ==> id < nextCallId)
      && (forall s :: s in held ==> NextOf(s) <= held[s] < nextCallId && held[s] !in sessions)
      && (forall s, t :: s in held && t in held && s != t ==> held[s] != held[t])
      && (forall s :: s in upTo ==> upTo[s] <= nextCallId)
    }

    constructor ()
      ensures Valid() && held == map[] && forall s :: View(s) == Router(1, {}, [])
    {
      nextCallId, sessions, inboxes := 1, map[], map[];
      held, upTo := map[], map[];
    }

    /** The `fetch_add` of `sync_call` and `async_send`: an id that no call of any session has. */
    method TakeId(session: string) returns (id: Id)
      requires Valid() && session !in held
      modifies this
      ensures Valid() && held == old(held)[session := id] && id >= View(session).next
      ensures id !in old(sessions) && id !in old(held).Values
      ensures forall s :: View(s) == old(View(s))
    {
      id := nextCallId;
      nextCallId := nextCallId + 1;
      held := held[session := id];
    }

    /** The route for an id that was taken: the call step of its session, and nothing for any other. */
    method InsertRoute(session: string, id: Id)
      requires Valid() && session in held && held[session] == id
      modifies this
      ensures Valid() && held == old(held) - {session}
      ensures View(session) == Call(old(View(session)), id)
      ensures forall s :: s != session ==> View(s) == old(View(s))
    {
      sessions := sessions[id := session];
      held, upTo := held - {session}, upTo[session := id + 1];
    }

    /** The `BridgeResponse` arm of the connection loop: the entry is removed, and its session gets the response. */
    method RouteResponse(r: Response) returns (session: string, found: bool)
      requires Valid()
      modifies this
      ensures Valid() && held == old(held) && (found <==> r.id in old(sessions)) && r.id !in sessions
      ensures forall s :: View(s) == Route(old(View(s)), r)
      ensures found ==> session == old(sessions)[r.id]
    {
      session, found := "", r.id in sessions;
      if found {
        session := sessions[r.id];
        sessions := sessions - {r.id};
        inboxes := inboxes[session := (if session in inboxes then inboxes[session] else []) + [r]];
      }
    }
  }
}
