/** Runs of the Python calls that show what the conditions of module PythonRpc are for. */
module PythonRpcRuns {
  import opened PythonRpc

  lemma {:induction false} RunAppend(st: State, a: seq<Event>, b: seq<Event>)
    ensures Run(st, a + b) == Run(Run(st, a), b)
    ensures Sequential(st, a + b) <==> Sequential(st, a) && Sequential(Run(st, a), b)
    ensures Blocking(st, a + b) <==> Blocking(st, a) && Blocking(Run(st, a), b)
    decreases |a|
  {
    hide Step;
    if a == [] {
      assert a + b == b;
    } else {
      assert (a + b)[1..] == a[1..] + b;
      RunAppend(Step(st, a[0]), a[1..], b);
    }
  }

  lemma RunOne(st: State, e: Event)
    ensures Run(st, [e]) == Step(st, e)
    ensures Sequential(st, [e]) <==> (e.RequestIssued? && e.id in st.queued ==> !st.vfs.Pending?)
    ensures Blocking(st, [e]) <==> (e.GuestCalls? && e.id >= st.router.next ==> st.router.routes == {})
  {
    hide Step;
    assert [e][1..] == [];
    assert Run(Step(st, e), []) == Step(st, e);
  }

  /** A request on its way from the guest into the slot. */
  function Ask(id: Id): (events: seq<Event>) {
    [GuestCalls(id)] + ([CallArrives(id)] + [RequestIssued(id)])
  }

  /** An answer on its way from the host to the guest. */
  function Reply(answer: Event): (events: seq<Event>)
    requires answer.HostAnswers? || answer.HostAnswersInner?
  {
    [answer] + ([InnerClears(answer.id)] + ([HostWrites(answer.id)] + [RuntimeReads]))
  }

  lemma AskEffect(st: State, id: Id)
    requires id >= st.router.next && id !in st.calling && id !in st.queued
    ensures Run(st, Ask(id)) ==
            st.(vfs := Pending(id), inner := Pending(id), timers := st.timers + multiset{id},
                router := Call(st.router, id), calledAt := st.calledAt[id := st.read],
                issued := st.issued + multiset{id},
                replaced := if st.vfs.Pending? then st.replaced + multiset{st.vfs.id} else st.replaced)
    ensures Sequential(st, Ask(id)) <==> !st.vfs.Pending?
    ensures Blocking(st, Ask(id)) <==> st.router.routes == {}
  {
    var s1 := Step(st, GuestCalls(id));
    var s2 := Step(s1, CallArrives(id));
    assert s1.calling - {id} == st.calling;
    assert s2.queued - {id} == st.queued;
    assert Step(s2, RequestIssued(id)) ==
           st.(vfs := Pending(id), inner := Pending(id), timers := st.timers + multiset{id},
               router := Call(st.router, id), calledAt := st.calledAt[id := st.read],
               issued := st.issued + multiset{id},
               replaced := if st.vfs.Pending? then st.replaced + multiset{st.vfs.id} else st.replaced);
    assert s2.vfs == st.vfs && id in s2.queued;
    hide Step, Call;
    RunAppend(st, [GuestCalls(id)], [CallArrives(id)] + [RequestIssued(id)]);
    RunAppend(s1, [CallArrives(id)], [RequestIssued(id)]);
    RunOne(st, GuestCalls(id));
    RunOne(s1, CallArrives(id));
    RunOne(s2, RequestIssued(id));
  }

  /** The state after an answer that is not refused has reached the runtime. */
  function Replied(st: State, answer: Event): (st': State)
    requires answer.HostAnswers? || answer.HostAnswersInner?
  {
    var id := answer.id;
    var r := Response(id, Host);
    var sent := st.(inner := Cleared(st.inner, id), written := st.written + [r], read := st.read + 1,
                    router := Route(st.router, r));
    if answer.HostAnswers? && st.vfs == Pending(id)
    then sent.(vfs := Empty, hostWins := st.hostWins + multiset{id})
    else sent.(strays := st.strays + multiset{id})
  }

  /** The three steps of an answer after its first lock. */
  lemma SentOn(st: State, id: Id)
    requires st.inner != TimedOut(id) && st.read == |st.written| && st.clearing == multiset{id}
    requires st.writing == multiset{}
    ensures var r := Response(id, Host);
            Step(Step(Step(st, InnerClears(id)), HostWrites(id)), RuntimeReads) ==
            st.(inner := Cleared(st.inner, id), clearing := multiset{}, written := st.written + [r],
                read := st.read + 1,
                router := Route(st.router, r))
  {
    hide Route, Cleared;
    assert multiset{id} - multiset{id} == multiset{} && multiset{} + multiset{id} == multiset{id};
    var s1 := st.(inner := Cleared(st.inner, id), clearing := multiset{}, writing := multiset{id});
    var s2 := s1.(writing := multiset{}, written := st.written + [Response(id, Host)]);
    assert Step(st, InnerClears(id)) == s1;
    assert Step(s1, HostWrites(id)) == s2;
  }

  lemma ReplySteps(st: State, answer: Event)
    requires answer.HostAnswers? || answer.HostAnswersInner?
    requires answer.HostAnswers? ==> st.vfs != TimedOut(answer.id)
    requires st.inner != TimedOut(answer.id) && st.read == |st.written| && st.clearing == multiset{}
    requires st.writing == multiset{}
    ensures Step(Step(Step(Step(st, answer), InnerClears(answer.id)), HostWrites(answer.id)), RuntimeReads) ==
      Replied(st, answer)
  {
    hide Route, Cleared;
    assert multiset{} + multiset{answer.id} == multiset{answer.id};
    assert Step(st, answer).clearing == multiset{answer.id};
    SentOn(Step(st, answer), answer.id);
    hide ClearInner, Fire, Issue;
    assert st == st.(clearing := multiset{});
  }

  lemma ReplyEffect(st: State, answer: Event)
    requires answer.HostAnswers? || answer.HostAnswersInner?
    requires answer.HostAnswers? ==> st.vfs != TimedOut(answer.id)
    requires st.inner != TimedOut(answer.id) && st.read == |st.written| && st.clearing == multiset{}
    requires st.writing == multiset{}
    ensures Run(st, Reply(answer)) == Replied(st, answer)
    ensures Sequential(st, Reply(answer)) && Blocking(st, Reply(answer))
  {
    var id := answer.id;
    ReplySteps(st, answer);
    hide Step, Replied;
    var s1 := Step(st, answer);
    var s2 := Step(s1, InnerClears(id));
    var s3 := Step(s2, HostWrites(id));
    RunAppend(st, [answer], [InnerClears(id)] + ([HostWrites(id)] + [RuntimeReads]));
    RunAppend(s1, [InnerClears(id)], [HostWrites(id)] + [RuntimeReads]);
    RunAppend(s2, [HostWrites(id)], [RuntimeReads]);
    RunOne(st, answer);
    RunOne(s1, InnerClears(id));
    RunOne(s2, HostWrites(id));
    RunOne(s3, RuntimeReads);
  }

  /** The run in which the host answers a request twice before its timer fires. */
  function TwoAnswers(id: Id): (events: seq<Event>) {
    Ask(id) + (Reply(HostAnswers(id)) + (Reply(HostAnswers(id)) + [TimerFires(id)]))
  }

  /** Then two responses are written, and the guest gets one of them. */
  lemma AnsweringTwiceWritesTwice(id: Id)
    requires id > 0
    ensures var st := Run(START, TwoAnswers(id));
            && Quiet(st) && Sequential(START, TwoAnswers(id)) && st.issued[id] == 1
            && Sent(st, id, Host) == 2 && For(st.router.inbox, id) == [Response(id, Host)]
  {
    var none: multiset<Id>, one, r := multiset{}, multiset{id}, Response(id, Host);
    assert none + one == one && one - one == none;
    var asked := START.(vfs := Pending(id), inner := Pending(id), timers := one, router := Router(id + 1, {id}, []),
                        calledAt := map[id := 0], issued := one);
    var once := asked.(vfs := Empty, inner := Empty, hostWins := one, written := [r], read := 1,
                       router := Router(id + 1, {}, [r]));
    var twice := once.(strays := one, written := [r, r], read := 2);
    AskEffect(START, id);
    assert Run(START, Ask(id)) == asked;
    ReplyEffect(asked, HostAnswers(id));
    assert {id} - {id} == {};
    assert Replied(asked, HostAnswers(id)) == once;
    ReplyEffect(once, HostAnswers(id));
    assert [r] + [r] == [r, r];
    assert Replied(once, HostAnswers(id)) == twice;
    RunOne(twice, TimerFires(id));
    assert Step(twice, TimerFires(id)) == twice.(timers := none);
    hide Step, Run, Sequential, Blocking, Replied, Ask, Reply;
    RunAppend(START, Ask(id), Reply(HostAnswers(id)) + (Reply(HostAnswers(id)) + [TimerFires(id)]));
    RunAppend(asked, Reply(HostAnswers(id)), Reply(HostAnswers(id)) + [TimerFires(id)]);
    RunAppend(once, Reply(HostAnswers(id)), [TimerFires(id)]);
    ForOne(r);
    Appended([r], r, r);
    Appended([], r, r);
  }

  lemma ForOne(r: Response)
    ensures For([r], r.id) == [r]
  {
    ForNext([], r, r.id);
    assert [] + [r] == [r];
  }

  /** The run in which the host answers a request past the slot, and the guest goes on to the next one. */
  function AnsweredPastTheSlot(a: Id, b: Id): (events: seq<Event>) {
    Ask(a) + (Reply(HostAnswersInner(a)) +
              (Ask(b) + ([TimerFires(a)] + ([TimerFires(b)] + ([TimerWrites(b)] + [RuntimeReads])))))
  }

  /** Though the guest waits for every answer, the slot decides the first request for neither side. */
  lemma ReplacedRequestHasNoWinner(a: Id, b: Id)
    requires 0 < a < b
    ensures var events := AnsweredPastTheSlot(a, b);
            var st := Run(START, events);
            && Quiet(st) && Blocking(START, events) && !Sequential(START, events)
            && st.issued[a] == 1 && Wins(st, a) == 0 && a in st.replaced && Wins(st, b) == 1
  {
    var none: multiset<Id>, r, t := multiset{}, Response(a, Host), Response(b, Timer);
    var asked := START.(vfs := Pending(a), inner := Pending(a), timers := multiset{a}, router := Router(a + 1, {a}, []),
                        calledAt := map[a := 0], issued := multiset{a});
    var freed := asked.(inner := Empty, strays := multiset{a}, written := [r], read := 1,
                        router := Router(a + 1, {}, [r]));
    var again := freed.(vfs := Pending(b), inner := Pending(b), timers := multiset{a, b},
                        router := Router(b + 1, {b}, [r]),
                        calledAt := map[a := 0, b := 1], issued := multiset{a, b}, replaced := multiset{a});
    var events := [TimerFires(a)] + ([TimerFires(b)] + ([TimerWrites(b)] + [RuntimeReads]));
    AskEffect(START, a);
    assert none + multiset{a} == multiset{a} && {a} - {a} == {};
    assert Run(START, Ask(a)) == asked;
    ReplyEffect(asked, HostAnswersInner(a));
    assert Replied(asked, HostAnswersInner(a)) == freed;
    AskEffect(freed, b);
    assert multiset{a} + multiset{b} == multiset{a, b} && {} + {b} == {b};
    assert Run(freed, Ask(b)) == again;
    TimersRun(again, a, b);
    hide Step, Run, Sequential, Blocking, Replied, Ask, Reply;
    RunAppend(START, Ask(a), Reply(HostAnswersInner(a)) + (Ask(b) + events));
    RunAppend(asked, Reply(HostAnswersInner(a)), Ask(b) + events);
    RunAppend(freed, Ask(b), events);
  }

  lemma TimersRun(st: State, a: Id, b: Id)
    requires a != b && st.vfs == Pending(b) && st.timers == multiset{a, b} && st.due == multiset{}
    requires st.clearing == multiset{} && st.writing == multiset{} && st.read == |st.written|
    ensures var events := [TimerFires(a)] + ([TimerFires(b)] + ([TimerWrites(b)] + [RuntimeReads]));
            var end := Run(st, events);
            && Quiet(end) && Blocking(st, events) && end.issued == st.issued && end.replaced == st.replaced
            && end.hostWins == st.hostWins && end.timerWins == st.timerWins + multiset{b}
  {
    var s1 := Step(st, TimerFires(a));
    var s2 := Step(s1, TimerFires(b));
    var s3 := Step(s2, TimerWrites(b));
    assert multiset{a, b} - multiset{a} == multiset{b} && multiset{b} - multiset{b} == multiset{};
    assert multiset{} + multiset{b} == multiset{b};
    assert s1 == st.(timers := multiset{b});
    assert s2 == st.(vfs := TimedOut(b), timers := multiset{}, due := multiset{b},
                     timerWins := st.timerWins + multiset{b});
    assert s3.due == multiset{} && |s3.written| == st.read + 1;
    assert Quiet(Step(s3, RuntimeReads));
    RunAppend(st, [TimerFires(a)], [TimerFires(b)] + ([TimerWrites(b)] + [RuntimeReads]));
    RunAppend(s1, [TimerFires(b)], [TimerWrites(b)] + [RuntimeReads]);
    RunAppend(s2, [TimerWrites(b)], [RuntimeReads]);
    RunOne(st, TimerFires(a));
    RunOne(s1, TimerFires(b));
    RunOne(s2, TimerWrites(b));
    RunOne(s3, RuntimeReads);
  }
}
