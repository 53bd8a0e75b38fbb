/**
 Who answers a guest's Python file-system call: the slot of crates/execution/src/python.rs, the inner
 engine's slot of crates/execution/src/javascript.rs, and the runtime's table of outstanding calls
 (crates/v8-runtime/src/host_call.rs, crates/v8-runtime/src/main.rs). The event loop fills the Python slot,
 the host's answers and one sleeping timer thread per request race to take it, and the runtime hands a
 call the first response that arrives for it. Each step is one critical section, so a run is any
 sequence of steps. (Two things the code does right before others can see them are part of a step: a call is
 sent once it is routed, and a timer is started once its slot is set.)
 */
module PythonRpc {

  type Id = nat

  /** `Option<PendingVfsRpcState>`, and the same for the inner engine's slot. */
  datatype Slot = Empty | Pending(id: Id) | TimedOut(id: Id)

  /** `PendingVfsRpcResolution`. */
  datatype Resolution = WasPending | WasTimedOut | Missing

  function Resolve(slot: Slot, id: Id): (r: Resolution) {
    if slot == Pending(id) then WasPending
    else if slot == TimedOut(id) then WasTimedOut
    else Missing
  }

  /** `clear_pending_vfs_rpc` and `clear_pending_sync_rpc`: only a pending slot is emptied. */
  function Cleared(slot: Slot, id: Id): (s: Slot) {
    if slot == Pending(id) then Empty else slot
  }

  datatype Answerer = Host | Timer

  /** A bridge response, by the call it answers and who wrote it. */
  datatype Response = Response(id: Id, who: Answerer)

  /** The runtime's side of one session: the next call id, the calls without an answer, and what the guest got. */
  datatype Router = Router(next: Id, routes: set<Id>, inbox: seq<Response>)

  /** A guest call takes a fresh id. Calls of other sessions may have taken the ids in between. */
  function Call(rt: Router, id: Id): (rt': Router) {
    Router(id + 1, rt.routes + {id}, rt.inbox)
  }

  /** A response goes to the call that waits for it, which then waits no longer, or nowhere. */
  function Route(rt: Router, r: Response): (rt': Router) {
    if r.id in rt.routes then Router(rt.next, rt.routes - {r.id}, rt.inbox + [r]) else rt
  }

  /**
   `vfs` and `inner` are the two slots. `calling` holds the calls on their way to the host, `queued` those the
   bridge thread has put before the event loop. Threads between two locks: `timers` sleep, `due` timers have
   taken the slot and still write their error, `clearing` answers have passed the Python slot and `writing`
   answers the inner slot. `written` is the socket, of which the runtime has read the first `read`
   responses. The other fields are what an observer notes: how much was read when a call was made, and by id
   the requests, each side's wins of the slot, requests replaced while they were pending, and answers
   that did not find their request in the slot.
   */
  datatype State = State(
    vfs: Slot,
    inner: Slot,
    calling: set<Id>,
    queued: set<Id>,
    timers: multiset<Id>,
    due: multiset<Id>,
    clearing: multiset<Id>,
    writing: multiset<Id>,
    written: seq<Response>,
    read: nat,
    router: Router,
    calledAt: map<Id, nat>,
    issued: multiset<Id>,
    hostWins: multiset<Id>,
    timerWins: multiset<Id>,
    replaced: multiset<Id>,
    strays: multiset<Id>)

  const START := State(Empty, Empty, {}, {}, multiset{}, multiset{}, multiset{}, multiset{}, [], 0, Router(1, {}, []),
                       map[], multiset{}, multiset{}, multiset{}, multiset{}, multiset{})

  datatype Event =
    | GuestCalls(id: Id)        // the guest calls out: the id is routed and the call is sent
    | CallArrives(id: Id)       // the bridge thread notes the call in the inner slot and queues it
    | RequestIssued(id: Id)     // the event loop takes a Python request: slot and timer
    | HostAnswers(id: Id)       // respond_vfs_rpc_*: the Python slot
    | HostAnswersInner(id: Id)  // respond_javascript_sync_rpc_*: no look at the Python slot
    | InnerClears(id: Id)       // the inner engine's slot, for either kind of answer
    | HostWrites(id: Id)        // the locked send of an answer
    | TimerFires(id: Id)        // a timer thread wakes up and looks at the slot
    | TimerWrites(id: Id)       // the locked send of a timer that took the slot
    | RuntimeReads              // the runtime routes the next response

  function Issue(st: State, id: Id): (st': State) {
    st.(vfs := Pending(id), queued := st.queued - {id}, timers := st.timers + multiset{id},
        issued := st.issued + multiset{id},
        replaced := if st.vfs.Pending? then st.replaced + multiset{st.vfs.id} else st.replaced)
  }

  function Answer(st: State, id: Id): (st': State) {
    if st.vfs == TimedOut(id) then st
    else if st.vfs == Pending(id) then
      st.(vfs := Empty, hostWins := st.hostWins + multiset{id}, clearing := st.clearing + multiset{id})
    else st.(strays := st.strays + multiset{id}, clearing := st.clearing + multiset{id})
  }

  function ClearInner(st: State, id: Id): (st': State) {
    if id !in st.clearing then st
    else if st.inner == TimedOut(id) then st.(clearing := st.clearing - multiset{id})
    else
      st.(inner := Cleared(st.inner, id), clearing := st.clearing - multiset{id}, writing := st.writing + multiset{id})
  }

  function Fire(st: State, id: Id): (st': State) {
    if id !in st.timers then st
    else if st.vfs == Pending(id) then
      st.(vfs := TimedOut(id), timers := st.timers - multiset{id}, timerWins := st.timerWins + multiset{id},
          due := st.due + multiset{id})
    else st.(timers := st.timers - multiset{id})
  }

  function Step(st: State, e: Event): (st': State) {
    match e
    case GuestCalls(id) =>
      if id < st.router.next then st
      else st.(router := Call(st.router, id), calling := st.calling + {id}, calledAt := st.calledAt[id := st.read])
    case CallArrives(id) =>
      if id !in st.calling then st
      else st.(calling := st.calling - {id}, queued := st.queued + {id}, inner := Pending(id))
    case RequestIssued(id) => if id !in st.queued then st else Issue(st, id)
    case HostAnswers(id) => Answer(st, id)
    case HostAnswersInner(id) => st.(strays := st.strays + multiset{id}, clearing := st.clearing + multiset{id})
    case InnerClears(id) => ClearInner(st, id)
    case HostWrites(id) =>
      if id !in st.writing then st
      else st.(writing := st.writing - multiset{id}, written := st.written + [Response(id, Host)])
    case TimerFires(id) => Fire(st, id)
    case TimerWrites(id) =>
      if id !in st.due then st
      else st.(due := st.due - multiset{id}, written := st.written + [Response(id, Timer)])
    case RuntimeReads =>
      if st.read >= |st.written| then st
      else st.(read := st.read + 1, router := Route(st.router, st.written[st.read]))
  }

  function Run(st: State, events: seq<Event>): (st': State)
    decreases |events|
  {
    if events == [] then st else Run(Step(st, events[0]), events[1..])
  }

  // ---------------------------------------------------------------------
  // What every step keeps
  // ---------------------------------------------------------------------

  function Wins(st: State, id: Id): (n: nat) {
    st.hostWins[id] + st.timerWins[id]
  }

  function InSlot(st: State, id: Id): (n: nat) {
    if st.vfs == Pending(id) then 1 else 0
  }

  function Sent(st: State, id: Id, who: Answerer): (n: nat) {
    multiset(st.written)[Response(id, who)]
  }

  /**
   The accounts of one request: it is still pending, was won once, or was replaced; and every win
   and every stray answer is written once, possibly later.
   */
  predicate Balanced(st: State, id: Id) {
    && st.issued[id] == Wins(st, id) + InSlot(st, id) + st.replaced[id]
    && Sent(st, id, Host) + st.clearing[id] + st.writing[id] == st.hostWins[id] + st.strays[id]
    && Sent(st, id, Timer) + st.due[id] == st.timerWins[id]
  }

  /** A call is on its way, queued or issued, and only once. */
  predicate Fresh(st: State, id: Id) {
    && (id in st.calledAt ==> id < st.router.next && st.calledAt[id] <= st.read)
    && st.issued[id] + (if id in st.calling then 1 else 0) + (if id in st.queued then 1 else 0)
       <= if id in st.calledAt then 1 else 0
  }

  /** No step times the inner slot out, and the timer of a pending request has not run. */
  predicate SlotsOk(st: State) {
    && !st.inner.TimedOut? && (st.vfs.Pending? ==> st.vfs.id in st.timers)
    && st.read <= |st.written|
  }

  /** The first response for `id`, if there is one. */
  function First(s: seq<Response>, id: Id): (r: seq<Response>)
    ensures |r| <= 1
  {
    if s == [] then []
    else
      var before := First(s[..|s| - 1], id);
      if before == [] && s[|s| - 1].id == id then [s[|s| - 1]] else before
  }

  /** All responses for `id`. */
  function For(s: seq<Response>, id: Id): (r: seq<Response>) {
    if s == [] then []
    else For(s[..|s| - 1], id) + if s[|s| - 1].id == id then [s[|s| - 1]] else []
  }

  /** The first response for `id` that the runtime has read since the call was made. */
  function FirstRead(st: State, id: Id): (r: seq<Response>)
    ensures |r| <= 1
  {
    if id in st.calledAt && st.calledAt[id] <= st.read <= |st.written|
    then First(st.written[st.calledAt[id]..st.read], id) else []
  }

  /** The guest has got that response and nothing else, and is waiting exactly if there is none. */
  predicate Answered(st: State, id: Id) {
    && For(st.router.inbox, id) == FirstRead(st, id)
    && (id in st.router.routes <==> id in st.calledAt && FirstRead(st, id) == [])
  }

  /** Every win is written after the call was made, possibly later. */
  predicate Owed(st: State, id: Id) {
    id in st.calledAt && st.calledAt[id] <= |st.written| ==>
      && st.hostWins[id] <=
           multiset(st.written[st.calledAt[id]..])[Response(id, Host)] + st.clearing[id] + st.writing[id]
      && st.timerWins[id] <= multiset(st.written[st.calledAt[id]..])[Response(id, Timer)] + st.due[id]
  }

  predicate Accounted(st: State, id: Id) {
    Balanced(st, id) && Fresh(st, id) && Answered(st, id) && Owed(st, id)
  }

  ghost predicate Inv(st: State) {
    SlotsOk(st) && forall id: Id :: Accounted(st, id)
  }

  lemma Added(m: multiset<Id>, a: Id, id: Id)
    ensures (m + multiset{a})[id] == m[id] + if a == id then 1 else 0
  {
  }

  lemma Removed(m: multiset<Id>, a: Id, id: Id)
    requires a in m
    ensures (m - multiset{a})[id] == m[id] - if a == id then 1 else 0
  {
  }

  lemma Appended(s: seq<Response>, x: Response, r: Response)
    ensures multiset(s + [x])[r] == multiset(s)[r] + if x == r then 1 else 0
  {
  }

  lemma StepKeepsSlots(st: State, e: Event)
    requires SlotsOk(st)
    ensures SlotsOk(Step(st, e))
  {
    if e.TimerFires? && st.vfs.Pending? && st.vfs.id != e.id && e.id in st.timers {
      Removed(st.timers, e.id, st.vfs.id);
    }
  }

  // The accounts.

  lemma IssueBalances(st: State, a: Id, id: Id)
    requires Balanced(st, id)
    ensures Balanced(Issue(st, a), id)
  {
    Added(st.issued, a, id);
    if st.vfs.Pending? {
      Added(st.replaced, st.vfs.id, id);
    }
  }

  lemma StrayBalances(st: State, a: Id, id: Id)
    requires Balanced(st, id)
    ensures Balanced(st.(strays := st.strays + multiset{a}, clearing := st.clearing + multiset{a}), id)
  {
    Added(st.strays, a, id);
    Added(st.clearing, a, id);
  }

  lemma WinBalances(st: State, a: Id, id: Id)
    requires Balanced(st, id) && st.vfs == Pending(a)
    ensures Balanced(st.(vfs := Empty, hostWins := st.hostWins + multiset{a}, clearing := st.clearing + multiset{a}),
                     id)
  {
    Added(st.hostWins, a, id);
    Added(st.clearing, a, id);
  }

  lemma AnswerBalances(st: State, a: Id, id: Id)
    requires Balanced(st, id)
    ensures Balanced(Answer(st, a), id)
  {
    hide Balanced;
    StrayBalances(st, a, id);
    if st.vfs == Pending(a) {
      WinBalances(st, a, id);
    }
  }

  lemma ClearBalances(st: State, a: Id, id: Id)
    requires Balanced(st, id) && !st.inner.TimedOut?
    ensures Balanced(ClearInner(st, a), id)
  {
    Added(st.writing, a, id);
    if a in st.clearing {
      Removed(st.clearing, a, id);
    }
  }

  lemma FireBalances(st: State, a: Id, id: Id)
    requires Balanced(st, id)
    ensures Balanced(Fire(st, a), id)
  {
    Added(st.timerWins, a, id);
    Added(st.due, a, id);
  }

  lemma HostWriteBalances(st: State, a: Id, id: Id)
    requires Balanced(st, id)
    ensures Balanced(Step(st, HostWrites(a)), id)
  {
    Appended(st.written, Response(a, Host), Response(id, Host));
    Appended(st.written, Response(a, Host), Response(id, Timer));
    if a in st.writing {
      Removed(st.writing, a, id);
    }
  }

  lemma TimerWriteBalances(st: State, a: Id, id: Id)
    requires Balanced(st, id)
    ensures Balanced(Step(st, TimerWrites(a)), id)
  {
    Appended(st.written, Response(a, Timer), Response(id, Host));
    Appended(st.written, Response(a, Timer), Response(id, Timer));
    if a in st.due {
      Removed(st.due, a, id);
    }
  }

  lemma StepBalances(st: State, e: Event, id: Id)
    requires Balanced(st, id) && !st.inner.TimedOut?
    ensures Balanced(Step(st, e), id)
  {
    hide Issue, Answer, ClearInner, Fire;
    match e
    case RequestIssued(a) => IssueBalances(st, a, id);
    case HostAnswers(a) => AnswerBalances(st, a, id);
    case HostAnswersInner(a) => StrayBalances(st, a, id);
    case InnerClears(a) => ClearBalances(st, a, id);
    case HostWrites(a) => HostWriteBalances(st, a, id);
    case TimerFires(a) => FireBalances(st, a, id);
    case TimerWrites(a) => TimerWriteBalances(st, a, id);
    case GuestCalls(_) =>
    case CallArrives(_) =>
    case RuntimeReads =>
  }

  lemma StepKeepsFresh(st: State, e: Event, id: Id)
    requires Fresh(st, id)
    ensures Fresh(Step(st, e), id)
  {
    if e.RequestIssued? {
      Added(st.issued, e.id, id);
    }
  }

  // What the guest gets.

  lemma FirstNext(s: seq<Response>, r: Response, id: Id)
    ensures First(s + [r], id) == if First(s, id) == [] && r.id == id then [r] else First(s, id)
  {
    assert (s + [r])[..|s|] == s;
  }

  lemma ForNext(s: seq<Response>, r: Response, id: Id)
    ensures For(s + [r], id) == For(s, id) + if r.id == id then [r] else []
  {
    assert (s + [r])[..|s|] == s;
  }

  lemma ReadNext(st: State, id: Id)
    requires Fresh(st, id) && st.read < |st.written|
    ensures var r := st.written[st.read];
            FirstRead(Step(st, RuntimeReads), id) ==
            if id in st.calledAt && FirstRead(st, id) == [] && r.id == id then [r] else FirstRead(st, id)
  {
    hide First, Route;
    if id in st.calledAt {
      var from := st.calledAt[id];
      assert st.written[from..st.read + 1] == st.written[from..st.read] + [st.written[st.read]];
      FirstNext(st.written[from..st.read], st.written[st.read], id);
    }
  }

  lemma ReadAnswers(st: State, id: Id)
    requires Answered(st, id) && Fresh(st, id) && st.read < |st.written|
    ensures Answered(Step(st, RuntimeReads), id)
  {
    hide First, For, FirstRead, Fresh;
    ReadNext(st, id);
    var r := st.written[st.read];
    ForNext(st.router.inbox, r, id);
    if r.id == id && id in st.router.routes {
      assert For(st.router.inbox, id) + [r] == [r];
    } else {
      assert For(st.router.inbox, id) + [] == For(st.router.inbox, id);
    }
  }

  lemma StepAnswers(st: State, e: Event, id: Id)
    requires Answered(st, id) && Fresh(st, id) && st.read <= |st.written|
    ensures Answered(Step(st, e), id)
  {
    hide First, For, Issue, Answer, ClearInner, Fire, Route;
    match e
    case RuntimeReads =>
      if st.read < |st.written| { ReadAnswers(st, id); }
    case GuestCalls(a) =>
      NothingFirst(id);
      assert st.written[st.read..st.read] == [];
    case HostWrites(a) =>
      SameRead(st, Response(a, Host), id);
    case TimerWrites(a) =>
      SameRead(st, Response(a, Timer), id);
    case RequestIssued(a) => assert SameSocket(st, Issue(st, a)) by { Unseen(st, a); }
    case HostAnswers(a) => assert SameSocket(st, Answer(st, a)) by { Unseen(st, a); }
    case InnerClears(a) => assert SameSocket(st, ClearInner(st, a)) by { Unseen(st, a); }
    case TimerFires(a) => assert SameSocket(st, Fire(st, a)) by { Unseen(st, a); }
    case HostAnswersInner(_) =>
    case CallArrives(_) =>
  }

  predicate SameSocket(st: State, st': State) {
    st'.written == st.written && st'.read == st.read && st'.router == st.router && st'.calledAt == st.calledAt
  }

  lemma Unseen(st: State, a: Id)
    ensures SameSocket(st, Issue(st, a)) && SameSocket(st, Answer(st, a))
    ensures SameSocket(st, ClearInner(st, a)) && SameSocket(st, Fire(st, a))
  {
  }

  lemma NothingFirst(id: Id)
    ensures First([], id) == []
  {
  }

  /** A response that is written is not read yet. */
  lemma SameRead(st: State, r: Response, id: Id)
    requires st.read <= |st.written|
    ensures FirstRead(st.(written := st.written + [r]), id) == FirstRead(st, id)
  {
    if id in st.calledAt && st.calledAt[id] <= st.read {
      assert (st.written + [r])[st.calledAt[id]..st.read] == st.written[st.calledAt[id]..st.read];
    }
  }

  // What is owed.

  lemma WriteOwes(st: State, r: Response, id: Id)
    requires id in st.calledAt && st.calledAt[id] <= |st.written|
    ensures multiset((st.written + [r])[st.calledAt[id]..])[Response(id, Host)] ==
            multiset(st.written[st.calledAt[id]..])[Response(id, Host)] + if r == Response(id, Host) then 1 else 0
    ensures multiset((st.written + [r])[st.calledAt[id]..])[Response(id, Timer)] ==
            multiset(st.written[st.calledAt[id]..])[Response(id, Timer)] + if r == Response(id, Timer) then 1 else 0
  {
    var late := st.written[st.calledAt[id]..];
    assert (st.written + [r])[st.calledAt[id]..] == late + [r];
    Appended(late, r, Response(id, Host));
    Appended(late, r, Response(id, Timer));
  }

  lemma AnswerOwes(st: State, a: Id, id: Id)
    requires Owed(st, id)
    ensures Owed(Answer(st, a), id)
  {
    Added(st.hostWins, a, id);
    Added(st.clearing, a, id);
  }

  lemma FireOwes(st: State, a: Id, id: Id)
    requires Owed(st, id)
    ensures Owed(Fire(st, a), id)
  {
    Added(st.timerWins, a, id);
    Added(st.due, a, id);
  }

  lemma ClearOwes(st: State, a: Id, id: Id)
    requires Owed(st, id) && !st.inner.TimedOut?
    ensures Owed(ClearInner(st, a), id)
  {
    Added(st.writing, a, id);
    if a in st.clearing {
      Removed(st.clearing, a, id);
    }
  }

  lemma SendOwes(st: State, a: Id, id: Id)
    requires Owed(st, id) && Fresh(st, id) && st.read <= |st.written|
    ensures Owed(Step(st, HostWrites(a)), id) && Owed(Step(st, TimerWrites(a)), id)
  {
    if id in st.calledAt {
      WriteOwes(st, Response(a, Host), id);
      WriteOwes(st, Response(a, Timer), id);
      if a in st.due {
        Removed(st.due, a, id);
      }
      if a in st.writing {
        Removed(st.writing, a, id);
      }
    }
  }

  lemma StepOwes(st: State, e: Event, id: Id)
    requires Owed(st, id) && Fresh(st, id) && Balanced(st, id) && SlotsOk(st)
    ensures Owed(Step(st, e), id)
  {
    hide Answer, ClearInner, Fire;
    match e
    case HostAnswers(a) => AnswerOwes(st, a, id);
    case TimerFires(a) => FireOwes(st, a, id);
    case InnerClears(a) => ClearOwes(st, a, id);
    case HostWrites(a) => SendOwes(st, a, id);
    case TimerWrites(a) => SendOwes(st, a, id);
    case HostAnswersInner(a) => Added(st.clearing, a, id);
    case RequestIssued(_) =>
    case GuestCalls(_) =>
    case CallArrives(_) =>
    case RuntimeReads =>
  }

  lemma StepKeepsInv(st: State, e: Event)
    requires Inv(st)
    ensures Inv(Step(st, e))
  {
    hide Balanced, Fresh, Answered, Owed, Step;
    StepKeepsSlots(st, e);
    forall id: Id
      ensures Accounted(Step(st, e), id)
    {
      assert Accounted(st, id);
      StepBalances(st, e, id);
      StepKeepsFresh(st, e, id);
      StepAnswers(st, e, id);
      StepOwes(st, e, id);
    }
  }

  lemma {:induction false} RunKeepsInv(st: State, events: seq<Event>)
    requires Inv(st)
    ensures Inv(Run(st, events))
    decreases |events|
  {
    hide Inv, Step;
    if events != [] {
      StepKeepsInv(st, events[0]);
      RunKeepsInv(Step(st, events[0]), events[1..]);
    }
  }

  lemma StartInv()
    ensures Inv(START)
  {
  }

  lemma Accounts(events: seq<Event>, id: Id)
    ensures SlotsOk(Run(START, events)) && Accounted(Run(START, events), id)
  {
    StartInv();
    RunKeepsInv(START, events);
  }

  // ---------------------------------------------------------------------
  // Who wins, over all runs
  // ---------------------------------------------------------------------

  /** Whatever the host and the timers do, a request is issued at most once and has at most one winner. */
  lemma AtMostOneWinner(events: seq<Event>, id: Id)
    ensures var st := Run(START, events);
            st.issued[id] <= 1 && Wins(st, id) <= 1 && !(id in st.hostWins && id in st.timerWins)
  {
    Accounts(events, id);
    hide Run;
  }

  /**
   Once a request's timer has run, it has exactly one winner if and only if it was not replaced
   by a later request while it was still pending.
   */
  lemma DecidedIffNotReplaced(events: seq<Event>, id: Id)
    requires var st := Run(START, events); id in st.issued && id !in st.timers
    ensures var st := Run(START, events);
            Wins(st, id) == 1 <==> id !in st.replaced
  {
    Accounts(events, id);
    hide Run;
  }

  /** No request is issued while another one is pending. */
  ghost predicate Sequential(st: State, events: seq<Event>)
    decreases |events|
  {
    events == [] ||
    ((events[0].RequestIssued? && events[0].id in st.queued ==> !st.vfs.Pending?) &&
     Sequential(Step(st, events[0]), events[1..]))
  }

  lemma StepReplaces(st: State, e: Event)
    ensures !(e.RequestIssued? && e.id in st.queued && st.vfs.Pending?) ==> Step(st, e).replaced == st.replaced
    ensures e.RequestIssued? && e.id in st.queued && st.vfs.Pending? ==>
      st.replaced <= Step(st, e).replaced && Step(st, e).replaced[st.vfs.id] > st.replaced[st.vfs.id]
  {
  }

  lemma {:induction false} SequentialReplacesNothing(st: State, events: seq<Event>)
    ensures Sequential(st, events) <==> Run(st, events).replaced == st.replaced
    ensures st.replaced <= Run(st, events).replaced
    decreases |events|
  {
    if events != [] {
      var st' := Step(st, events[0]);
      SequentialReplacesNothing(st', events[1..]);
      StepReplaces(st, events[0]);
      hide Step;
      if events[0].RequestIssued? && events[0].id in st.queued && st.vfs.Pending? {
        assert Run(st, events).replaced[st.vfs.id] >= st'.replaced[st.vfs.id];
      }
    }
  }

  /** Every thread has finished and the runtime has read everything. */
  predicate Quiet(st: State) {
    && st.timers == multiset{} && st.due == multiset{} && st.clearing == multiset{} && st.writing == multiset{}
    && st.read == |st.written|
  }

  /**
   When everything has settled, every request has exactly one winner if and only if no request was
   issued while another one was pending.
   */
  lemma AllDecidedIffSequential(events: seq<Event>)
    requires Quiet(Run(START, events))
    ensures (forall id: Id :: Wins(Run(START, events), id) == Run(START, events).issued[id]) <==>
      Sequential(START, events)
  {
    SequentialReplacesNothing(START, events);
    forall id: Id
      ensures var st := Run(START, events); st.issued[id] == Wins(st, id) + st.replaced[id]
    {
      Accounts(events, id);
    }
    hide Run, Sequential;
    var st := Run(START, events);
    if st.replaced != multiset{} {
      var id :| id in st.replaced;
      assert Wins(st, id) != st.issued[id];
    }
  }

  // ---------------------------------------------------------------------
  // What is written
  // ---------------------------------------------------------------------

  /** An answer to `id` that does not find `id` in the Python slot, or does not look there at all. */
  predicate Stray(st: State, e: Event, id: Id) {
    (e == HostAnswers(id) && st.vfs != Pending(id) && st.vfs != TimedOut(id)) || e == HostAnswersInner(id)
  }

  /** Every answer to `id` is given while the slot holds `id`. */
  ghost predicate AnsweredInSlot(st: State, events: seq<Event>, id: Id)
    decreases |events|
  {
    events == [] || (!Stray(st, events[0], id) && AnsweredInSlot(Step(st, events[0]), events[1..], id))
  }

  lemma StepStrays(st: State, e: Event, id: Id)
    ensures Step(st, e).strays[id] == st.strays[id] + if Stray(st, e, id) then 1 else 0
  {
    if e.HostAnswers? || e.HostAnswersInner? {
      Added(st.strays, e.id, id);
    }
  }

  /** The observer counts no stray answer exactly if there is none. */
  lemma {:induction false} NoStraysIffAnsweredInSlot(st: State, events: seq<Event>, id: Id)
    ensures AnsweredInSlot(st, events, id) <==> Run(st, events).strays[id] == st.strays[id]
    ensures st.strays[id] <= Run(st, events).strays[id]
    decreases |events|
  {
    if events != [] {
      StepStrays(st, events[0], id);
      hide Step, Stray;
      NoStraysIffAnsweredInSlot(Step(st, events[0]), events[1..], id);
    }
  }

  /**
   Exactly one bridge response is written for a decided request if and only if the host answers it
   only while it is in the slot: the two layers let every other answer through to the socket.
   */
  lemma OneResponseWrittenIffAnsweredInSlot(events: seq<Event>, id: Id)
    requires var st := Run(START, events); Quiet(st) && id in st.issued && id !in st.replaced
    ensures var st := Run(START, events);
            && (Sent(st, id, Host) + Sent(st, id, Timer) == 1 <==> AnsweredInSlot(START, events, id))
            && Sent(st, id, Host) + Sent(st, id, Timer) >= 1
  {
    Accounts(events, id);
    NoStraysIffAnsweredInSlot(START, events, id);
    hide Run, AnsweredInSlot;
  }

  // ---------------------------------------------------------------------
  // What the guest gets
  // ---------------------------------------------------------------------

  lemma {:induction false} FirstIff(s: seq<Response>, id: Id)
    ensures First(s, id) == [] <==> forall r :: r in s ==> r.id != id
    ensures First(s, id) != [] ==> First(s, id)[0] in s && First(s, id)[0].id == id
    decreases |s|
  {
    if s != [] {
      var front := s[..|s| - 1];
      FirstIff(front, id);
      assert s == front + [s[|s| - 1]];
      assert forall r :: r in s <==> r in front || r == s[|s| - 1];
    }
  }

  /** What was read first was sent, by the host or by the timer. */
  lemma FirstReadIsSent(st: State, id: Id)
    requires FirstRead(st, id) != []
    ensures var r := FirstRead(st, id)[0]; r == Response(id, r.who) && Sent(st, id, r.who) > 0
    ensures Sent(st, id, Host) + Sent(st, id, Timer) > 0
  {
    hide First;
    var read := st.written[st.calledAt[id]..st.read];
    FirstIff(read, id);
    var r := First(read, id)[0];
    assert r in st.written;
    assert multiset(st.written)[r] > 0;
    assert r.who == Host || r.who == Timer;
  }

  /**
   In every run, whatever stray answers the host gives: of all responses to a call the guest gets exactly the
   first one that is read after the call was made. So it never gets two.
   */
  lemma GuestGetsTheFirst(events: seq<Event>, id: Id)
    ensures var st := Run(START, events);
            && For(st.router.inbox, id) == FirstRead(st, id) && |For(st.router.inbox, id)| <= 1
            && (id in st.router.routes <==> id in st.calledAt && For(st.router.inbox, id) == [])
  {
    Accounts(events, id);
    hide Run, First, For;
  }

  /** When everything has settled, a request that was not replaced has been answered exactly once. */
  lemma DecidedRequestIsAnswered(events: seq<Event>, id: Id)
    requires var st := Run(START, events); Quiet(st) && id in st.issued && id !in st.replaced
    ensures |For(Run(START, events).router.inbox, id)| == 1
  {
    Accounts(events, id);
    hide Run, First, For;
    var st := Run(START, events);
    var late := st.written[st.calledAt[id]..];
    assert st.written[st.calledAt[id]..st.read] == late;
    FirstIff(late, id);
    var r := Response(id, if id in st.hostWins then Host else Timer);
    assert multiset(late)[r] > 0;
    assert r in late;
  }

  /**
   So in every settled run in which requests do not overlap, each request has been answered exactly
   once, whatever else the host answers.
   */
  lemma EveryRequestIsAnsweredOnce(events: seq<Event>, id: Id)
    requires Quiet(Run(START, events)) && Sequential(START, events) && id in Run(START, events).issued
    ensures |For(Run(START, events).router.inbox, id)| == 1
  {
    SequentialReplacesNothing(START, events);
    DecidedRequestIsAnswered(events, id);
  }

  /** If the host answers it only while it is in the slot, what the guest gets is the winner's response. */
  lemma TheWinnerAnswers(events: seq<Event>, id: Id)
    requires var st := Run(START, events); Quiet(st) && id in st.issued && id !in st.replaced
    requires AnsweredInSlot(START, events, id)
    ensures var st := Run(START, events);
            For(st.router.inbox, id) == [Response(id, if id in st.hostWins then Host else Timer)]
  {
    Accounts(events, id);
    NoStraysIffAnsweredInSlot(START, events, id);
    DecidedRequestIsAnswered(events, id);
    hide Run, First, For, AnsweredInSlot;
    FirstReadIsSent(Run(START, events), id);
    hide FirstRead, Sent;
    var r := FirstRead(Run(START, events), id)[0];
    assert r.who == Host || r.who == Timer;
  }

  // ---------------------------------------------------------------------
  // A guest that waits
  // ---------------------------------------------------------------------

  /** `sync_call`: the guest makes no call before the last one is answered. */
  ghost predicate Blocking(st: State, events: seq<Event>)
    decreases |events|
  {
    events == [] ||
    ((events[0].GuestCalls? && events[0].id >= st.router.next ==> st.router.routes == {})
     && Blocking(Step(st, events[0]), events[1..]))
  }

  ghost predicate OneRoute(st: State) {
    forall a, b :: a in st.router.routes && b in st.router.routes ==> a == b
  }

  /** Without stray answers a call that is not decided yet is one the guest still waits for. */
  lemma UndecidedIsRouted(st: State, id: Id)
    requires Inv(st) && st.strays[id] == 0
    requires id in st.calling || id in st.queued || st.vfs == Pending(id)
    ensures id in st.router.routes
  {
    hide FirstRead, Sent, For;
    assert Accounted(st, id);
    if FirstRead(st, id) != [] {
      FirstReadIsSent(st, id);
    }
  }

  lemma StepKeepsOneRoute(st: State, e: Event)
    requires OneRoute(st) && (e.GuestCalls? && e.id >= st.router.next ==> st.router.routes == {})
    ensures OneRoute(Step(st, e))
  {
  }

  lemma {:induction false} WaitingIsSequential(st: State, events: seq<Event>)
    requires Inv(st) && OneRoute(st) && forall id: Id :: st.strays[id] == 0
    requires Blocking(st, events) && forall id: Id :: AnsweredInSlot(st, events, id)
    ensures Sequential(st, events)
    decreases |events|
  {
    hide Inv, Step, Stray, OneRoute;
    if events != [] {
      var e := events[0];
      var st' := Step(st, e);
      if e.RequestIssued? && e.id in st.queued && st.vfs.Pending? {
        NotBoth(st, e.id);
      }
      StepKeepsInv(st, e);
      StepKeepsOneRoute(st, e);
      forall id: Id
        ensures st'.strays[id] == 0 && AnsweredInSlot(st', events[1..], id)
      {
        assert AnsweredInSlot(st, events, id);
        StepStrays(st, e, id);
      }
      WaitingIsSequential(st', events[1..]);
    }
  }

  lemma NotBoth(st: State, b: Id)
    requires Inv(st) && OneRoute(st) && forall id: Id :: st.strays[id] == 0
    requires b in st.queued
    ensures !st.vfs.Pending?
  {
    hide Answered, Owed;
    if st.vfs.Pending? {
      var a := st.vfs.id;
      assert Accounted(st, a) && Accounted(st, b);
      UndecidedIsRouted(st, a);
      UndecidedIsRouted(st, b);
      assert false;
    }
  }

  /**
   A guest that waits for its answers, with a host that answers requests only while they are in the
   slot, never has two requests at once; so each is won once and answered by its winner.
   */
  lemma WaitingGuest(events: seq<Event>, id: Id)
    requires Blocking(START, events) && forall a: Id :: AnsweredInSlot(START, events, a)
    ensures Sequential(START, events)
    ensures var st := Run(START, events);
            Quiet(st) && id in st.issued ==>
              Wins(st, id) == 1 && For(st.router.inbox, id) == [Response(id, if id in st.hostWins then Host else Timer)]
  {
    StartInv();
    WaitingIsSequential(START, events);
    SequentialReplacesNothing(START, events);
    Accounts(events, id);
    if Quiet(Run(START, events)) && id in Run(START, events).issued {
      TheWinnerAnswers(events, id);
    }
  }

  /** A timer touches the slot only if its own request is pending there. */
  lemma StaleTimerChangesNothing(st: State, id: Id)
    requires st.vfs != Pending(id)
    ensures Step(st, TimerFires(id)) == st.(timers := st.timers - multiset{id})
  {
    if id !in st.timers {
      assert st.timers - multiset{id} == st.timers;
    }
  }

  lemma StaysTimedOut(st: State, id: Id, e: Event)
    requires st.vfs == TimedOut(id) && !e.RequestIssued?
    ensures Step(st, e).vfs == TimedOut(id)
  {
  }

  /**
   After a timeout an answer through the Python slot is refused and changes nothing, for as long as the
   slot is not refilled.
   */
  lemma {:induction false} LateAnswersAreRefused(st: State, id: Id, events: seq<Event>)
    requires st.vfs == TimedOut(id)
    requires forall i :: 0 <= i < |events| ==> !events[i].RequestIssued?
    ensures Run(st, events).vfs == TimedOut(id)
    ensures Step(Run(st, events), HostAnswers(id)) == Run(st, events)
    decreases |events|
  {
    if events != [] {
      StaysTimedOut(st, id, events[0]);
      hide Step;
      LateAnswersAreRefused(Step(st, events[0]), id, events[1..]);
    }
  }

  lemma StaysRefused(st: State, id: Id, e: Event)
    requires st.inner == TimedOut(id) && !e.CallArrives?
    ensures Step(st, e).inner == TimedOut(id) && Step(st, e).writing[id] <= st.writing[id]
  {
  }

  /**
   The inner engine refuses in the same way: once its slot has timed out a call, no answer to the call gets past the
   slot until another call arrives.
   */
  lemma {:induction false} InnerRefusesLateAnswers(st: State, id: Id, events: seq<Event>)
    requires st.inner == TimedOut(id)
    requires forall i :: 0 <= i < |events| ==> !events[i].CallArrives?
    ensures Run(st, events).inner == TimedOut(id) && Run(st, events).writing[id] <= st.writing[id]
    decreases |events|
  {
    if events != [] {
      StaysRefused(st, id, events[0]);
      hide Step;
      InnerRefusesLateAnswers(Step(st, events[0]), id, events[1..]);
    }
  }
}
