/**
 The host's session demultiplexer (crates/execution/src/v8_host.rs): callers register and
 unregister sessions while the reader thread routes incoming frames to per-session channels. Every
 step runs under the `sessions` lock, so a run is a sequence of steps in any order.
 */
module SessionHost {
  import opened Wire
  import opened IpcFormat
  import opened FrameStream

  /** `frame_session_id`: only frames that travel from V8 to the host are routed. */
  function FrameSessionId(f: BinaryFrame): (r: Option<Utf8>) {
    match f
    case BridgeCall(sid, _, _, _) => Some(sid)
    case ExecutionResult(sid, _, _, _) => Some(sid)
    case Log(sid, _, _) => Some(sid)
    case StreamCallback(sid, _, _) => Some(sid)
    case _ => None
  }

  /** A frame is routed exactly if its type code is one of the runtime's own, and by the session it names. */
  lemma RoutedIffFromRuntime(f: BinaryFrame)
    ensures FrameSessionId(f).Some? <==> Tag(f) >= 0x80
    ensures FrameSessionId(f).Some? ==> HasSession(f) && FrameSessionId(f).value == f.sid
  {
  }

  /**
   `senders` is the shared map; a channel is named by its place in `channels`, which holds what was
   sent into it. `rest` is what the reader has not read yet.
   */
  datatype State = State(senders: map<Utf8, nat>, channels: seq<seq<BinaryFrame>>, rest: seq<u8>, running: bool)

  datatype Event =
    | Register(sid: Utf8)
    | Unregister(sid: Utf8)
    | ReaderTurn

  function Routed(st: State, f: BinaryFrame): (channels: seq<seq<BinaryFrame>>)
    ensures |channels| == |st.channels|
  {
    var sid := FrameSessionId(f);
    if sid.Some? && sid.value in st.senders && st.senders[sid.value] < |st.channels| then
      var c := st.senders[sid.value];
      st.channels[c := st.channels[c] + [f]]
    else st.channels
  }

  function Step(st: State, e: Event): (st': State) {
    match e
    case Register(sid) => st.(senders := st.senders[sid := |st.channels|], channels := st.channels + [[]])
    case Unregister(sid) => st.(senders := st.senders - {sid})
    case ReaderTurn =>
      if !st.running then st else
      var next := ReadFrame(Host, st.rest);
      if next.Ok? then st.(channels := Routed(st, next.value.0), rest := next.value.1)
      else st.(senders := map[], running := false)
  }

  function Run(st: State, events: seq<Event>): (st': State)
    decreases |events|
  {
    if events == [] then st else Run(Step(st, events[0]), events[1..])
  }

  function Start(input: seq<u8>): (st: State) {
    State(map[], [], input, true)
  }

  /** Every registered sender leads to a channel, and no two sessions share one. */
  ghost predicate Valid(st: State) {
    && (forall sid :: sid in st.senders ==> st.senders[sid] < |st.channels|)
    && (forall a, b :: a in st.senders && b in st.senders && st.senders[a] == st.senders[b] ==> a == b)
  }

  // ---------------------------------------------------------------------
  // What a run looks like from outside
  // ---------------------------------------------------------------------

  datatype Observation =
    | Registered(sid: Utf8)
    | Unregistered(sid: Utf8)
    | Arrived(frame: BinaryFrame)
    | Failed

  /** The run with each turn of the reader replaced by what it brought; turns after a failure are none. */
  function Observe(events: seq<Event>, incoming: seq<BinaryFrame>, running: bool): (obs: seq<Observation>)
    decreases |events|
  {
    if events == [] then []
    else match events[0]
      case Register(sid) => [Registered(sid)] + Observe(events[1..], incoming, running)
      case Unregister(sid) => [Unregistered(sid)] + Observe(events[1..], incoming, running)
      case ReaderTurn =>
        if !running then Observe(events[1..], incoming, false)
        else if incoming == [] then [Failed] + Observe(events[1..], [], false)
        else [Arrived(incoming[0])] + Observe(events[1..], incoming[1..], true)
  }

  /**
   What a channel registered for `sid` just before `obs` receives: the frames of that session, until
   the session is registered again, unregistered, or the reader fails.
   */
  function Received(sid: Utf8, obs: seq<Observation>): (fs: seq<BinaryFrame>)
    ensures forall i :: 0 <= i < |fs| ==> FrameSessionId(fs[i]) == Some(sid)
  {
    if obs == [] then []
    else match obs[0]
      case Registered(s) => if s == sid then [] else Received(sid, obs[1..])
      case Unregistered(s) => if s == sid then [] else Received(sid, obs[1..])
      case Failed => []
      case Arrived(f) =>
        if FrameSessionId(f) == Some(sid) then [f] + Received(sid, obs[1..])
        else Received(sid, obs[1..])
  }

  /** The channels a run creates, one for each registration, in order. */
  function ChannelsOf(obs: seq<Observation>): (cs: seq<seq<BinaryFrame>>) {
    if obs == [] then []
    else if obs[0].Registered? then [Received(obs[0].sid, obs[1..])] + ChannelsOf(obs[1..])
    else ChannelsOf(obs[1..])
  }

  /** What an existing channel still receives: something only while a session leads to it. */
  ghost function Pending(st: State, c: nat, obs: seq<Observation>): (fs: seq<BinaryFrame>) {
    if exists sid :: sid in st.senders && st.senders[sid] == c then
      var sid :| sid in st.senders && st.senders[sid] == c;
      Received(sid, obs)
    else []
  }

  lemma PendingFor(st: State, sid: Utf8, obs: seq<Observation>)
    requires Valid(st) && sid in st.senders
    ensures Pending(st, st.senders[sid], obs) == Received(sid, obs)
  {
  }

  lemma StepValid(st: State, e: Event)
    requires Valid(st)
    ensures Valid(Step(st, e))
  {
    hide ReadFrame, FrameSessionId;
  }

  /** The observation of one event, given what the reader would bring next. */
  function ObserveOne(st: State, e: Event): (obs: seq<Observation>) {
    match e
    case Register(sid) => [Registered(sid)]
    case Unregister(sid) => [Unregistered(sid)]
    case ReaderTurn =>
      if !st.running then []
      else if ReadFrame(Host, st.rest).Ok? then [Arrived(ReadFrame(Host, st.rest).value.0)]
      else [Failed]
  }

  lemma ObserveStep(st: State, events: seq<Event>)
    requires events != []
    ensures Observe(events, ReadAll(Host, st.rest).0, st.running) ==
            ObserveOne(st, events[0])
            + Observe(events[1..], ReadAll(Host, Step(st, events[0]).rest).0, Step(st, events[0]).running)
  {
    hide ReadFrame;
    if events[0].ReaderTurn? && st.running {
      var next := ReadFrame(Host, st.rest);
      if next.Ok? {
        assert ReadAll(Host, st.rest).0[1..] == ReadAll(Host, next.value.1).0;
      } else {
        ObserveStopped(events[1..], ReadAll(Host, st.rest).0, []);
      }
    }
  }

  lemma ObserveStopped(events: seq<Event>, a: seq<BinaryFrame>, b: seq<BinaryFrame>)
    ensures Observe(events, a, false) == Observe(events, b, false)
  {
  }

  lemma PendingNone(st: State, c: nat, obs: seq<Observation>)
    requires forall sid :: sid in st.senders ==> st.senders[sid] != c
    ensures Pending(st, c, obs) == []
  {
  }

  lemma RoutedTo(st: State, f: BinaryFrame, sid: Utf8)
    requires Valid(st) && sid in st.senders
    ensures var c := st.senders[sid];
            Routed(st, f)[c] == if FrameSessionId(f) == Some(sid) then st.channels[c] + [f] else st.channels[c]
  {
    hide FrameSessionId;
  }

  lemma RoutedElsewhere(st: State, f: BinaryFrame, c: nat)
    requires Valid(st) && c < |st.channels| && forall sid :: sid in st.senders ==> st.senders[sid] != c
    ensures Routed(st, f)[c] == st.channels[c]
  {
    hide FrameSessionId;
  }

  /** A turn of the reader that brings the frame `f`. */
  lemma ArrivalConserves(st: State, st': State, f: BinaryFrame, c: nat, obs: seq<Observation>)
    requires Valid(st) && c < |st.channels|
    requires st' == st.(channels := Routed(st, f), rest := st'.rest)
    ensures st.channels[c] + Pending(st, c, [Arrived(f)] + obs) == st'.channels[c] + Pending(st', c, obs)
  {
    hide FrameSessionId, Pending, Routed;
    assert ([Arrived(f)] + obs)[1..] == obs;
    if sid :| sid in st.senders && st.senders[sid] == c {
      RoutedTo(st, f, sid);
      PendingFor(st, sid, [Arrived(f)] + obs);
      PendingFor(st', sid, obs);
      assert st.channels[c] + ([f] + Received(sid, obs)) == (st.channels[c] + [f]) + Received(sid, obs);
    } else {
      RoutedElsewhere(st, f, c);
      PendingNone(st, c, [Arrived(f)] + obs);
      PendingNone(st', c, obs);
    }
  }

  /** A step that removes senders or adds a channel. */
  lemma RemovalConserves(st: State, st': State, o: Observation, c: nat, obs: seq<Observation>)
    requires Valid(st) && Valid(st') && c < |st.channels| && c < |st'.channels| && st'.channels[c] == st.channels[c]
    requires !o.Arrived?
    requires forall sid :: sid in st.senders && st.senders[sid] == c ==>
      if o.Failed? || o.sid == sid then forall s :: s in st'.senders ==> st'.senders[s] != c
      else sid in st'.senders && st'.senders[sid] == c
    requires (forall sid :: sid in st.senders ==> st.senders[sid] != c) ==>
      forall s :: s in st'.senders ==> st'.senders[s] != c
    ensures Pending(st, c, [o] + obs) == Pending(st', c, obs)
  {
    hide Pending;
    assert ([o] + obs)[1..] == obs;
    if sid :| sid in st.senders && st.senders[sid] == c {
      PendingFor(st, sid, [o] + obs);
      if o.Failed? || o.sid == sid {
        PendingNone(st', c, obs);
      } else {
        PendingFor(st', sid, obs);
      }
    } else {
      PendingNone(st, c, [o] + obs);
      PendingNone(st', c, obs);
    }
  }

  /** One step moves frames from what a channel is still to receive into the channel. */
  lemma StepConserves(st: State, e: Event, c: nat, obs: seq<Observation>)
    requires Valid(st) && c < |st.channels|
    ensures var st' := Step(st, e);
            && Valid(st') && c < |st'.channels|
            && st.channels[c] + Pending(st, c, ObserveOne(st, e) + obs) == st'.channels[c] + Pending(st', c, obs)
  {
    hide ReadFrame, Pending, Routed, Received;
    var st' := Step(st, e);
    StepValid(st, e);
    if e.ReaderTurn? && !st.running {
      assert ObserveOne(st, e) + obs == obs;
    } else if e.ReaderTurn? && ReadFrame(Host, st.rest).Ok? {
      ArrivalConserves(st, st', ReadFrame(Host, st.rest).value.0, c, obs);
    } else {
      RemovalConserves(st, st', ObserveOne(st, e)[0], c, obs);
    }
  }

  /** From any state, every channel ends up with what it holds and what it is still to receive. */
  lemma {:induction false} RunConserves(st: State, events: seq<Event>, c: nat)
    requires Valid(st) && c < |st.channels|
    ensures var obs := Observe(events, ReadAll(Host, st.rest).0, st.running);
            && |Run(st, events).channels| > c
            && Run(st, events).channels[c] == st.channels[c] + Pending(st, c, obs)
    decreases |events|
  {
    hide ReadFrame, ReadAll, Step, ObserveOne, Observe;
    if events == [] {
      ObserveNothing(ReadAll(Host, st.rest).0, st.running);
      assert Pending(st, c, []) == [];
    } else {
      var st' := Step(st, events[0]);
      ObserveStep(st, events);
      StepConserves(st, events[0], c, Observe(events[1..], ReadAll(Host, st'.rest).0, st'.running));
      RunConserves(st', events[1..], c);
    }
  }

  lemma ObserveNothing(incoming: seq<BinaryFrame>, running: bool)
    ensures Observe([], incoming, running) == []
  {
  }

  lemma StepChannels(st: State, e: Event)
    ensures |Step(st, e).channels| == |st.channels| + if e.Register? then 1 else 0
  {
    hide ReadFrame, FrameSessionId;
  }

  /** The channels created from here on hold exactly what the outside view says. */
  lemma {:induction false} RunCreates(st: State, events: seq<Event>)
    requires Valid(st)
    ensures var obs := Observe(events, ReadAll(Host, st.rest).0, st.running);
            && |st.channels| <= |Run(st, events).channels|
            && Run(st, events).channels[|st.channels|..] == ChannelsOf(obs)
    decreases |events|
  {
    hide ReadFrame, ReadAll, Observe, FrameSessionId, Pending, Received;
    if events == [] {
      ObserveNothing(ReadAll(Host, st.rest).0, st.running);
    } else {
      var e := events[0];
      var st', later := Step(st, e), events[1..];
      var n := |st.channels|;
      var obs' := Observe(later, ReadAll(Host, st'.rest).0, st'.running);
      ObserveStep(st, events);
      StepValid(st, e);
      StepChannels(st, e);
      RunCreates(st', later);
      var obs := ObserveOne(st, e) + obs';
      if e.Register? {
        assert st'.senders[e.sid] == n && st'.channels[n] == [];
        RunConserves(st', later, n);
        PendingFor(st', e.sid, obs');
        assert obs[1..] == obs';
        var final := Run(st, events).channels;
        assert final[n] == [] + Received(e.sid, obs') == Received(e.sid, obs');
        assert final[n..] == [final[n]] + final[n + 1..];
      } else if ObserveOne(st, e) == [] {
        assert obs == obs';
      } else {
        assert obs[1..] == obs';
      }
    }
  }

  /**
   In every run, from the bytes the host is fed to the channels its callers read: the channel of
   each registration holds exactly the frames of its session that arrived while it was the
   registered one.
   */
  lemma ChannelContents(input: seq<u8>, events: seq<Event>)
    ensures Run(Start(input), events).channels == ChannelsOf(Observe(events, ReadAll(Host, input).0, true))
  {
    hide ReadAll, Run, Observe;
    RunCreates(Start(input), events);
    var final := Run(Start(input), events).channels;
    assert final[0..] == final;
  }

  /** The same, when the input is what the runtime wrote for the frames `sent`. */
  lemma EndToEnd(sent: seq<BinaryFrame>, events: seq<Event>)
    requires AllEncode(sent) && AllSpeak(Host, sent)
    ensures Run(Start(Stream(sent)), events).channels == ChannelsOf(Observe(events, sent, true))
  {
    hide ReadFrame, Run, Observe, Encode, Speaks;
    ReadAllOfStream(Host, sent, []);
    assert Stream(sent) + [] == Stream(sent);
    ReadFrameOfNothing(Host);
    assert sent + [] == sent;
    ChannelContents(Stream(sent), events);
  }

  /** Once the reader has failed, nothing that happens later reaches any channel. */
  lemma {:induction false} SilentAfterFailure(st: State, events: seq<Event>, c: nat)
    requires Valid(st) && !st.running && c < |Run(st, events).channels|
    ensures Run(st, events).channels[c] == if c < |st.channels| then st.channels[c] else []
    decreases |events|
  {
    hide ReadFrame, FrameSessionId;
    if events != [] {
      StepValid(st, events[0]);
      SilentAfterFailure(Step(st, events[0]), events[1..], c);
    }
  }

  // ---------------------------------------------------------------------
  // The host object
  // ---------------------------------------------------------------------

  class V8RuntimeHost {
    var senders: map<Utf8, nat>
    var channels: seq<seq<BinaryFrame>>
    const reader: FrameReader
    var running: bool

    ghost predicate ValidHost()
      reads this, reader
    {
      reader.Valid() && Valid(Abs())
    }

    ghost function Abs(): (st: State)
      reads this, reader
    {
      State(senders, channels, if reader.Valid() then reader.Rest() else [], running)
    }

    constructor (input: seq<u8>)
      ensures ValidHost() && Abs() == Start(input)
      ensures fresh(reader)
    {
      senders := map[];
      channels := [];
      reader := new FrameReader(input);
      running := true;
    }

    /** A fresh channel takes the session over; an earlier one for the same session is cut off. */
    method RegisterSession(sid: Utf8) returns (channel: nat)
      requires ValidHost()
      modifies this
      ensures ValidHost() && Abs() == Step(old(Abs()), Register(sid))
      ensures channel == |old(channels)| && channels[channel] == []
    {
      StepValid(Abs(), Register(sid));
      channel := |channels|;
      channels := channels + [[]];
      senders := senders[sid := channel];
    }

    method UnregisterSession(sid: Utf8)
      requires ValidHost()
      modifies this
      ensures ValidHost() && Abs() == Step(old(Abs()), Unregister(sid))
    {
      StepValid(Abs(), Unregister(sid));
      senders := senders - {sid};
    }

    /** One round of the reader thread's loop. */
    method ReaderStep() returns (more: bool)
      requires ValidHost() && running
      modifies this, reader
      ensures reader.Valid() && more == running
      ensures ValidHost()
      ensures running ==> Abs() == Step(old(Abs()), ReaderTurn)
      ensures !running ==> Abs().(rest := old(Abs()).rest) == Step(old(Abs()), ReaderTurn)
      ensures running ==> |reader.Rest()| < |old(reader.Rest())|
    {
      hide ReadFrame, FrameSessionId;
      ghost var st := Abs();
      StepValid(st, ReaderTurn);
      var next := reader.ReadOne(Host);
      if next.Err? {
        senders := map[];
        running := false;
        return false;
      }
      var sid := FrameSessionId(next.value);
      if sid.Some? && sid.value in senders {
        var c := senders[sid.value];
        channels := channels[c := channels[c] + [next.value]];
      }
      return true;
    }

    /** The reader thread left alone: it routes everything there is and then drops every sender. */
    method ReaderLoop()
      requires ValidHost() && running
      modifies this, reader
      ensures ValidHost() && !running && senders == map[] && |channels| == |old(channels)|
      ensures forall c :: 0 <= c < |channels| ==>
        channels[c] == old(channels)[c] + Pending(old(Abs()), c, Arrivals(ReadAll(Host, old(reader.Rest())).0))
    {
      hide ReadFrame, FrameSessionId, Pending, Arrivals;
      ghost var st := Abs();
      ghost var all := Arrivals(ReadAll(Host, reader.Rest()).0);
      var more := true;
      while more
        invariant ValidHost() && more == running && |channels| == |st.channels|
        invariant more ==> senders == st.senders
        invariant more ==> forall c :: 0 <= c < |channels| ==>
          st.channels[c] + Pending(st, c, all)
          == channels[c] + Pending(Abs(), c, Arrivals(ReadAll(Host, reader.Rest()).0))
        invariant !more ==> senders == map[]
        invariant !more ==> forall c :: 0 <= c < |channels| ==> channels[c] == st.channels[c] + Pending(st, c, all)
        decreases more, |reader.Rest()|
      {
        ghost var pre := Abs();
        ghost var post := Step(pre, ReaderTurn);
        ghost var obs := Arrivals(ReadAll(Host, pre.rest).0);
        ghost var obs' := Arrivals(ReadAll(Host, post.rest).0);
        assert ReadFrame(Host, pre.rest).Ok? ==> obs == ObserveOne(pre, ReaderTurn) + obs' by {
          if ReadFrame(Host, pre.rest).Ok? { ArrivalsOfRead(pre); }
        }
        assert ReadFrame(Host, pre.rest).Err? ==> obs == [] by { ArrivalsOfNothing(); }
        forall c | 0 <= c < |pre.channels|
          ensures ReadFrame(Host, pre.rest).Ok? ==>
            c < |post.channels| && pre.channels[c] + Pending(pre, c, obs) == post.channels[c] + Pending(post, c, obs')
          ensures Pending(pre, c, []) == []
        {
          StepConserves(pre, ReaderTurn, c, obs');
          PendingOfNothing(pre, c);
        }
        more := ReaderStep();
      }
    }
  }

  function Arrivals(fs: seq<BinaryFrame>): (obs: seq<Observation>) {
    if fs == [] then [] else [Arrived(fs[0])] + Arrivals(fs[1..])
  }

  lemma ArrivalsOfNothing()
    ensures Arrivals([]) == []
  {
  }

  lemma PendingOfNothing(st: State, c: nat)
    ensures Pending(st, c, []) == []
  {
  }

  lemma ArrivalsOfRead(st: State)
    requires st.running && ReadFrame(Host, st.rest).Ok?
    ensures Arrivals(ReadAll(Host, st.rest).0) ==
            ObserveOne(st, ReaderTurn) + Arrivals(ReadAll(Host, Step(st, ReaderTurn).rest).0)
  {
    hide ReadFrame;
    var fs := ReadAll(Host, st.rest).0;
    assert fs[1..] == ReadAll(Host, ReadFrame(Host, st.rest).value.1).0;
  }
}
