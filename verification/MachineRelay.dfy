/** The laptop relay: connection generations, and the table of calls waiting for a result (src/machinectl-host.ts). */
module MachineRelay {
  import opened Wrappers

  const MAX_PENDING_CALLS := 8

  /** Call ids and connection generations are random, so never used twice. */
  type CallId = nat

  type Generation = nat

  /** How a call is answered. */
  datatype Outcome = Result(content: Key) | ErrorResult(error: Key) | TimedOut | Replaced | Disconnected | SocketFailed | SendFailed

  /** What the laptop has published about itself. */
  datatype Catalog = Catalog(tools: Option<seq<Key>>, machineName: Option<Key>, user: Option<Key>)

  const NOTHING := Catalog(None, None, None)

  /** A frame off a socket, after `JSON.parse`; `Unreadable` is text that is no JSON. */
  datatype Frame =
    | Unreadable
    | Hello(machineName: Key, tools: seq<Key>, valid: bool)
    | Ping
    | ResultFrame(id: CallId, outcome: Outcome)
    | OtherFrame

  /** The table of calls: those pending with their tool, the timers armed, the answers given, all ever dispatched. */
  datatype Calls = Calls(pending: map<CallId, Key>, timers: set<CallId>, settled: map<CallId, Outcome>, dispatched: set<CallId>)

  /** The table, the catalog in memory and in storage, the active generation, and the clean-ups of failed sockets still due. */
  datatype Relay = Relay(calls: Calls, cached: Catalog, stored: Catalog, generation: Option<Generation>, clearing: seq<Option<Generation>>)

  /** A call is pending exactly while its timer is armed, and is dispatched exactly if it is pending or answered, never both. */
  predicate Consistent(c: Calls, id: CallId) {
    && (id in c.timers <==> id in c.pending)
    && (id in c.pending ==> id !in c.settled)
    && (id in c.dispatched <==> id in c.pending || id in c.settled)
  }

  ghost predicate Inv(c: Calls) { |c.pending| <= MAX_PENDING_CALLS && forall id :: Consistent(c, id) }

  /** Answers given are never taken back or changed. */
  ghost predicate Keeps(before: Calls, after: Calls) {
    forall id :: id in before.settled ==> id in after.settled && after.settled[id] == before.settled[id]
  }

  /** A promise is resolved: the precondition is that it has not been before. */
  function Settle(c: Calls, id: CallId, outcome: Outcome): Calls
    requires id in c.pending && id !in c.settled
  {
    c.(pending := c.pending - {id}, timers := c.timers - {id}, settled := c.settled[id := outcome])
  }

  /** All pending calls answered with the same error. */
  function RejectAll(c: Calls, outcome: Outcome): Calls {
    c.(pending := map[], timers := c.timers - c.pending.Keys, settled := c.settled + map id | id in c.pending :: outcome)
  }

  function Dispatch(c: Calls, id: CallId, tool: Key): Calls {
    c.(pending := c.pending[id := tool], timers := c.timers + {id}, dispatched := c.dispatched + {id})
  }

  /** A call whose sending failed is answered at once. */
  function Bounce(c: Calls, id: CallId): Calls {
    c.(settled := c.settled[id := SendFailed], dispatched := c.dispatched + {id})
  }

  lemma RejectKeepsInv(c: Calls, outcome: Outcome)
    requires Inv(c)
    ensures Inv(RejectAll(c, outcome)) && Keeps(c, RejectAll(c, outcome)) && RejectAll(c, outcome).timers == {}
    ensures forall id :: id in c.pending ==> id in RejectAll(c, outcome).settled && RejectAll(c, outcome).settled[id] == outcome
  {
    var t := RejectAll(c, outcome);
    forall id ensures Consistent(t, id) { assert Consistent(c, id); }
    forall id ensures id !in t.timers { assert Consistent(c, id); }
    forall id | id in c.settled ensures id in t.settled && t.settled[id] == c.settled[id] { assert Consistent(c, id); }
  }

  lemma SettleKeepsInv(c: Calls, id: CallId, outcome: Outcome)
    requires Inv(c) && id in c.pending
    ensures id !in c.settled && Inv(Settle(c, id, outcome)) && Keeps(c, Settle(c, id, outcome))
  {
    assert Consistent(c, id);
    var t := Settle(c, id, outcome);
    forall k ensures Consistent(t, k) { assert Consistent(c, k); }
    assert t.pending.Keys == c.pending.Keys - {id};
    assert |t.pending| == |t.pending.Keys| && |c.pending| == |c.pending.Keys|;
  }

  lemma DispatchKeepsInv(c: Calls, id: CallId, tool: Key)
    requires Inv(c) && id !in c.dispatched
    ensures |c.pending| < MAX_PENDING_CALLS ==> Inv(Dispatch(c, id, tool)) && Keeps(c, Dispatch(c, id, tool))
    ensures Inv(Bounce(c, id)) && Keeps(c, Bounce(c, id))
  {
    assert Consistent(c, id);
    forall k ensures Consistent(Dispatch(c, id, tool), k) && Consistent(Bounce(c, id), k) { assert Consistent(c, k); }
  }

  // ---------------------------------------------------------------- steps

  datatype Event =
    | Connect(user: Key, generation: Generation)
    | Message(socket: Option<Generation>, frame: Frame)
    | Close(socket: Option<Generation>)
    | Failure(socket: Option<Generation>)
    | Timeout(id: CallId)
    | Invoke(tool: Key, id: CallId, via: Option<Option<Generation>>, sent: bool)
    | Cleanup

  /** Ids are fresh, a timer fires only while armed, a clean-up runs only if one is due. */
  predicate Enabled(r: Relay, e: Event) {
    match e
    case Timeout(id) => id in r.calls.timers
    case Invoke(_, id, _, _) => id !in r.calls.dispatched
    case Cleanup => r.clearing != []
    case _ => true
  }

  /** A connection is active if it carries the generation last accepted. */
  predicate Active(r: Relay, socket: Option<Generation>) { socket.Some? && socket == r.generation }

  /** What makes a failing socket clear the relay: it is the active one, or it carries no generation at all. */
  predicate Clears(r: Relay, socket: Option<Generation>) { socket.None? || socket == r.generation }

  function AfterClear(r: Relay, socket: Option<Generation>, outcome: Outcome): Relay {
    if Clears(r, socket) then r.(calls := RejectAll(r.calls, outcome), cached := NOTHING, stored := NOTHING, generation := None) else r
  }

  function AfterMessage(r: Relay, socket: Option<Generation>, frame: Frame): Relay {
    if !Active(r, socket) then r
    else match frame
      case Hello(name, tools, valid) =>
        if valid then
          r.(cached := r.cached.(machineName := Some(name), tools := Some(tools)),
             stored := r.stored.(machineName := Some(name), tools := Some(tools)))
        else r
      case ResultFrame(id, outcome) =>
        if id in r.calls.pending && id !in r.calls.settled then r.(calls := Settle(r.calls, id, outcome)) else r
      case _ => r
  }

  function AfterConnect(r: Relay, user: Key, generation: Generation): Relay {
    r.(calls := RejectAll(r.calls, Replaced), cached := Catalog(None, None, Some(user)),
       stored := r.stored.(user := Some(user)), generation := Some(generation))
  }

  /** The tools on offer: those in memory, else those in storage, else none. */
  function Tools(r: Relay): seq<Key> {
    if r.cached.tools.Some? then r.cached.tools.value else if r.stored.tools.Some? then r.stored.tools.value else []
  }

  /** A call refused before it is dispatched changes nothing but the tools kept in memory. */
  function AfterInvoke(r: Relay, tool: Key, id: CallId, socket: Option<Option<Generation>>, sent: bool): Relay {
    if socket.None? then r
    else
      var looked := r.(cached := r.cached.(tools := Some(Tools(r))));
      if tool !in Tools(r) || |r.calls.pending| >= MAX_PENDING_CALLS then looked
      else if sent then looked.(calls := Dispatch(r.calls, id, tool))
      else looked.(calls := Bounce(r.calls, id), clearing := r.clearing + [socket.value])
  }

  function Next(r: Relay, e: Event): Relay
    requires Inv(r.calls) && Enabled(r, e)
  {
    match e
    case Connect(user, generation) => AfterConnect(r, user, generation)
    case Message(socket, frame) => AfterMessage(r, socket, frame)
    case Close(socket) => AfterClear(r, socket, Disconnected)
    case Failure(socket) => AfterClear(r, socket, SocketFailed)
    case Timeout(id) => assert Consistent(r.calls, id); r.(calls := Settle(r.calls, id, TimedOut))
    case Invoke(tool, id, socket, sent) => AfterInvoke(r, tool, id, socket, sent)
    case Cleanup => AfterClear(r.(clearing := r.clearing[1..]), r.clearing[0], SendFailed)
  }

  const IDLE := Relay(Calls(map[], {}, map[], {}), NOTHING, NOTHING, None, [])

  lemma StepKeepsInv(r: Relay, e: Event)
    requires Inv(r.calls) && Enabled(r, e)
    ensures Inv(Next(r, e).calls) && Keeps(r.calls, Next(r, e).calls)
  {
    match e
    case Connect(_, _) => RejectKeepsInv(r.calls, Replaced);
    case Message(_, frame) => if frame.ResultFrame? && frame.id in r.calls.pending { SettleKeepsInv(r.calls, frame.id, frame.outcome); }
    case Close(_) => RejectKeepsInv(r.calls, Disconnected);
    case Failure(_) => RejectKeepsInv(r.calls, SocketFailed);
    case Timeout(id) =>
      assert Consistent(r.calls, id);
      SettleKeepsInv(r.calls, id, TimedOut);
    case Invoke(tool, id, _, _) => DispatchKeepsInv(r.calls, id, tool);
    case Cleanup => RejectKeepsInv(r.calls, SendFailed);
  }

  // ---------------------------------------------------------------- superseded connections

  /** A frame, close or error from a connection that a newer one superseded changes nothing. */
  lemma SupersededChangesNothing(r: Relay, socket: Option<Generation>, frame: Frame)
    requires Inv(r.calls) && socket.Some? && socket != r.generation
    ensures Next(r, Message(socket, frame)) == r
    ensures Next(r, Close(socket)) == r && Next(r, Failure(socket)) == r
  {
  }

  /** A socket carrying no generation cannot speak, but its close clears the relay, even a newer connection's. */
  lemma UnmarkedSocket(r: Relay, frame: Frame)
    requires Inv(r.calls)
    ensures Next(r, Message(None, frame)) == r
    ensures Next(r, Close(None)).generation == None && Next(r, Close(None)).cached == NOTHING
    ensures Next(r, Close(None)).calls.pending == map[]
  {
  }

  /** So a close leaves the connected laptop's state alone exactly if it comes from a marked, superseded socket. */
  lemma CloseIsHarmlessExactly(r: Relay, socket: Option<Generation>)
    requires Inv(r.calls) && r.generation.Some?
    ensures Next(r, Close(socket)) == r <==> socket.Some? && socket != r.generation
  {
  }

  // ---------------------------------------------------------------- whole runs

  ghost predicate Runs(r: Relay, events: seq<Event>, last: Relay)
    requires Inv(r.calls)
    decreases |events|
  {
    if events == [] then r == last
    else Enabled(r, events[0]) && (StepKeepsInv(r, events[0]); Runs(Next(r, events[0]), events[1..], last))
  }

  /** In every run the table and the timers agree, and no answer changes once given. */
  lemma {:induction false} RunKeepsInv(r: Relay, events: seq<Event>, last: Relay)
    requires Inv(r.calls) && Runs(r, events, last)
    ensures Inv(last.calls) && Keeps(r.calls, last.calls)
    decreases |events|
  {
    if events != [] {
      StepKeepsInv(r, events[0]);
      RunKeepsInv(Next(r, events[0]), events[1..], last);
    }
  }

  /** Once no timer is armed, every call ever dispatched has exactly one answer. */
  lemma EveryCallIsAnswered(events: seq<Event>, last: Relay)
    requires Runs(IDLE, events, last)
    ensures |last.calls.pending| <= MAX_PENDING_CALLS && forall id :: Consistent(last.calls, id)
    ensures last.calls.timers == {} ==> forall id :: id in last.calls.dispatched <==> id in last.calls.settled
  {
    RunKeepsInv(IDLE, events, last);
    forall id | last.calls.timers == {} ensures id in last.calls.dispatched <==> id in last.calls.settled {
      assert Consistent(last.calls, id);
    }
  }

  /** A call still pending is answered for good by its timer at the latest, whatever comes after. */
  lemma TimerAnswers(r: Relay, id: CallId, events: seq<Event>, last: Relay)
    requires Inv(r.calls) && id in r.calls.pending && Enabled(r, Timeout(id))
    requires Inv(Next(r, Timeout(id)).calls) && Runs(Next(r, Timeout(id)), events, last)
    ensures id in last.calls.settled && last.calls.settled[id] == TimedOut
  {
    RunKeepsInv(Next(r, Timeout(id)), events, last);
  }

  /** A new connection answers every call of the old one: no result of theirs can arrive later. */
  lemma ReplacementAnswersAll(r: Relay, user: Key, generation: Generation, id: CallId, events: seq<Event>, last: Relay)
    requires Inv(r.calls) && id in r.calls.pending
    requires Inv(Next(r, Connect(user, generation)).calls) && Runs(Next(r, Connect(user, generation)), events, last)
    ensures id in last.calls.settled && last.calls.settled[id] == Replaced
  {
    RejectKeepsInv(r.calls, Replaced);
    RunKeepsInv(Next(r, Connect(user, generation)), events, last);
  }

  /** A connection that has been superseded stays so: in every run that follows, its frames and closes change nothing. */
  lemma {:induction false} SupersededForGood(r: Relay, events: seq<Event>, last: Relay, g: Generation, frame: Frame)
    requires Inv(r.calls) && Runs(r, events, last) && r.generation != Some(g)
    requires forall k :: 0 <= k < |events| && events[k].Connect? ==> events[k].generation != g
    ensures Inv(last.calls) && last.generation != Some(g)
    ensures Next(last, Message(Some(g), frame)) == last
    ensures Next(last, Close(Some(g))) == last && Next(last, Failure(Some(g))) == last
    decreases |events|
  {
    if events == [] {
      SupersededChangesNothing(last, Some(g), frame);
    } else {
      StepKeepsInv(r, events[0]);
      forall k | 0 <= k < |events[1..]| && events[1..][k].Connect? ensures events[1..][k].generation != g {
        assert events[1..][k] == events[k + 1];
      }
      SupersededForGood(Next(r, events[0]), events[1..], last, g, frame);
    }
  }

  // ---------------------------------------------------------------- the object

  class MachineHost {
    var pending: map<CallId, Key>
    var timers: set<CallId>
    var settled: map<CallId, Outcome>
    ghost var dispatched: set<CallId>
    var cached: Catalog
    var stored: Catalog
    var generation: Option<Generation>
    var clearing: seq<Option<Generation>>

    ghost function Table(): Calls
      reads this
    {
      Calls(pending, timers, settled, dispatched)
    }

    ghost function State(): Relay
      reads this
    {
      Relay(Table(), cached, stored, generation, clearing)
    }

    constructor ()
      ensures State() == IDLE && Inv(Table())
    {
      pending, timers, settled, dispatched := map[], {}, map[], {};
      cached, stored, generation, clearing := NOTHING, NOTHING, None, [];
    }

    /** Stop the timer, take the call out of the table and resolve it. */
    method Resolve(id: CallId, outcome: Outcome)
      requires id in pending && id !in settled
      modifies `pending, `timers, `settled
      ensures Table() == Settle(old(Table()), id, outcome)
    {
      timers := timers - {id};
      pending := pending - {id};
      settled := settled[id := outcome];
    }

    method RejectPending(outcome: Outcome)
      requires Inv(Table())
      modifies `pending, `timers, `settled
      ensures Table() == RejectAll(old(Table()), outcome) && Inv(Table())
    {
      ghost var before, done := Table(), {};
      RejectedNone(before, outcome);
      while pending != map[]
        invariant Table() == RejectSome(before, done, outcome) && done <= before.pending.Keys
        decreases pending.Keys
      {
        var id :| id in pending;
        assert Consistent(before, id);
        RejectedOne(before, done, id, outcome);
        Resolve(id, outcome);
        done := done + {id};
      }
      RejectedAll(before, done, outcome);
      RejectKeepsInv(before, outcome);
    }

    method AcceptLaptopConnection(user: Key, next: Generation)
      requires Inv(Table())
      modifies this
      ensures State() == AfterConnect(old(State()), user, next) && Inv(Table())
    {
      cached := Catalog(None, None, Some(user));
      RejectPending(Replaced);
      stored := stored.(user := Some(user));
      generation := Some(next);
    }

    method WebSocketMessage(socket: Option<Generation>, frame: Frame)
      requires Inv(Table())
      modifies this
      ensures State() == AfterMessage(old(State()), socket, frame) && Inv(Table())
    {
      PendingIsOpen(Table());
      if frame.Unreadable? { return; }
      if socket.None? || socket != generation { return; }
      if frame.Hello? {
        if !frame.valid { return; }
        cached := cached.(machineName := Some(frame.machineName), tools := Some(frame.tools));
        stored := stored.(machineName := Some(frame.machineName), tools := Some(frame.tools));
        return;
      }
      if !frame.ResultFrame? || frame.id !in pending { return; }
      SettleKeepsInv(Table(), frame.id, frame.outcome);
      Resolve(frame.id, frame.outcome);
    }

    method ClearActiveSocket(socket: Option<Generation>, outcome: Outcome)
      requires Inv(Table())
      modifies `pending, `timers, `settled, `cached, `stored, `generation
      ensures State() == AfterClear(old(State()), socket, outcome) && Inv(Table())
    {
      if socket.None? || socket == generation {
        cached, stored, generation := NOTHING, NOTHING, None;
        RejectPending(outcome);
      }
    }

    method TimerFires(id: CallId)
      requires Inv(Table()) && id in timers
      modifies this
      ensures id in old(pending) && id !in old(settled) && Inv(Table())
      ensures State() == old(State()).(calls := Settle(old(Table()), id, TimedOut))
    {
      assert Consistent(Table(), id);
      SettleKeepsInv(Table(), id, TimedOut);
      Resolve(id, TimedOut);
    }

    /** Enter the call in the table and arm its timer; if sending fails, take it out again and answer it. */
    method CallLaptop(tool: Key, id: CallId, socket: Option<Generation>, sent: bool)
      requires Inv(Table()) && id !in dispatched && |pending| < MAX_PENDING_CALLS
      modifies `pending, `timers, `settled, `dispatched, `clearing
      ensures Table() == (if sent then Dispatch(old(Table()), id, tool) else Bounce(old(Table()), id)) && Inv(Table())
      ensures clearing == if sent then old(clearing) else old(clearing) + [socket]
    {
      assert Consistent(Table(), id);
      DispatchKeepsInv(Table(), id, tool);
      Undone(Table(), id, tool);
      timers := timers + {id};
      pending := pending[id := tool];
      dispatched := dispatched + {id};
      if !sent {
        Resolve(id, SendFailed);
        clearing := clearing + [socket];
      }
    }

    /** Dispatch a call over the newest open socket, if there is one, the tool is on offer and the table has room. */
    method Invoke(tool: Key, id: CallId, socket: Option<Option<Generation>>, sent: bool) returns (accepted: bool)
      requires Inv(Table()) && id !in dispatched
      modifies this
      ensures State() == AfterInvoke(old(State()), tool, id, socket, sent) && Inv(Table())
      ensures accepted <==> socket.Some? && tool in Tools(old(State())) && |old(pending)| < MAX_PENDING_CALLS
    {
      if socket.None? { return false; }
      if cached.tools.None? {
        cached := cached.(tools := Some(if stored.tools.Some? then stored.tools.value else []));
      }
      if tool !in cached.tools.value { return false; }
      if |pending| >= MAX_PENDING_CALLS { return false; }
      CallLaptop(tool, id, socket.value, sent);
      return true;
    }
  }

  /** Part of the table answered: the loop of `RejectPending` after the calls in `done`. */
  ghost function RejectSome(c: Calls, done: set<CallId>, outcome: Outcome): Calls {
    c.(pending := c.pending - done, timers := c.timers - done, settled := c.settled + map id | id in done :: outcome)
  }

  lemma RejectedNone(c: Calls, outcome: Outcome)
    ensures RejectSome(c, {}, outcome) == c
  {
    var none: set<CallId> := {};
    assert c.settled + (map id | id in none :: outcome) == c.settled;
  }

  lemma RejectedOne(c: Calls, done: set<CallId>, id: CallId, outcome: Outcome)
    requires id in c.pending && id !in done && id !in c.settled
    ensures var part := RejectSome(c, done, outcome);
            id in part.pending && id !in part.settled && Settle(part, id, outcome) == RejectSome(c, done + {id}, outcome)
  {
    var part := RejectSome(c, done, outcome);
    assert part.settled[id := outcome] == c.settled + (map k | k in done + {id} :: outcome);
    assert part.pending - {id} == c.pending - (done + {id});
    assert part.timers - {id} == c.timers - (done + {id});
  }

  lemma RejectedAll(c: Calls, done: set<CallId>, outcome: Outcome)
    requires done <= c.pending.Keys && c.pending - done == map[]
    ensures RejectSome(c, done, outcome) == RejectAll(c, outcome)
  {
    assert forall id :: id in c.pending && id !in done ==> id in c.pending - done;
    assert done == c.pending.Keys;
  }

  /** Entering a call and taking it out again leaves the table as it was, but for the answer. */
  lemma Undone(c: Calls, id: CallId, tool: Key)
    requires Inv(c) && id !in c.dispatched
    ensures id !in c.settled && Settle(Dispatch(c, id, tool), id, SendFailed) == Bounce(c, id)
  {
    assert Consistent(c, id);
    assert c.pending[id := tool] - {id} == c.pending;
  }

  lemma PendingIsOpen(c: Calls)
    requires Inv(c)
    ensures forall id :: id in c.pending ==> id !in c.settled
  {
    forall id | id in c.pending ensures id !in c.settled { assert Consistent(c, id); }
  }
}
