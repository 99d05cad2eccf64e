/** Which event answers a call of the relay, and with what; and what the laptop has on offer when (src/machinectl-host.ts). */
module MachineAnswers {
  import opened Wrappers
  import opened MachineRelay

  /** The connection last accepted, or a socket without any generation. */
  predicate FromActiveOrUnmarked(r: Relay, socket: Option<Generation>) { socket == None || socket == r.generation }

  /** The answer an event gives to a call: a result only from the active laptop, and its own error for each way to lose the call. */
  function AnswerOf(r: Relay, e: Event, id: CallId): Option<Outcome> {
    match e
    case Connect(_, _) => if id in r.calls.pending then Some(Replaced) else None
    case Message(socket, frame) =>
      if id in r.calls.pending && frame.ResultFrame? && frame.id == id && socket.Some? && socket == r.generation
      then Some(frame.outcome) else None
    case Close(socket) => if id in r.calls.pending && FromActiveOrUnmarked(r, socket) then Some(Disconnected) else None
    case Failure(socket) => if id in r.calls.pending && FromActiveOrUnmarked(r, socket) then Some(SocketFailed) else None
    case Timeout(fired) => if fired == id then Some(TimedOut) else None
    case Invoke(_, invoked, _, sent) => if invoked == id && Accepted(r, e) && !sent then Some(SendFailed) else None
    case Cleanup =>
      if id in r.calls.pending && r.clearing != [] && FromActiveOrUnmarked(r, r.clearing[0]) then Some(SendFailed) else None
  }

  /** A call is taken on over an open socket, for a tool on offer, while fewer than eight are pending. */
  predicate Accepted(r: Relay, e: Event) { e.Invoke? && e.via.Some? && e.tool in Tools(r) && |r.calls.pending| < 8 }

  /** The table after the event, as far as one call goes. */
  predicate Accounted(r: Relay, e: Event, t: Relay, id: CallId) {
    var answer := AnswerOf(r, e, id);
    && (id in t.calls.settled <==> answer.Some? || id in r.calls.settled)
    && (answer.Some? ==> t.calls.settled[id] == answer.value)
    && (answer.None? && id in r.calls.settled ==> t.calls.settled[id] == r.calls.settled[id])
    && (id in t.calls.pending <==> (id in r.calls.pending && answer.None?) || (Accepted(r, e) && e.id == id && e.sent))
    && (id in r.calls.pending && id in t.calls.pending ==> t.calls.pending[id] == r.calls.pending[id])
    && (Accepted(r, e) && e.id == id && e.sent ==> t.calls.pending[id] == e.tool)
  }

  lemma InvokeAccounts(r: Relay, tool: Key, id: CallId, via: Option<Option<Generation>>, sent: bool, k: CallId)
    requires Inv(r.calls) && id !in r.calls.dispatched
    ensures Accounted(r, Invoke(tool, id, via, sent), AfterInvoke(r, tool, id, via, sent), k)
  {
    assert Consistent(r.calls, id);
  }

  /** After any event, a call has the answer that event gives it, and no call has any other answer than before. */
  lemma AnswerExactly(r: Relay, e: Event, id: CallId)
    requires Inv(r.calls) && Enabled(r, e)
    ensures Accounted(r, e, Next(r, e), id)
  {
    assert Consistent(r.calls, id);
    match e
    case Timeout(fired) => assert Consistent(r.calls, fired);
    case Message(_, frame) => if frame.ResultFrame? { assert Consistent(r.calls, frame.id); }
    case Invoke(tool, invoked, via, sent) => InvokeAccounts(r, tool, invoked, via, sent, id);
    case _ =>
  }

  /** A result of the active laptop for a pending call is the answer to it, for good. */
  lemma ResultAnswers(r: Relay, g: Generation, id: CallId, o: Outcome, events: seq<Event>, last: Relay)
    requires Inv(r.calls) && r.generation == Some(g) && id in r.calls.pending
    requires var t := Next(r, Message(Some(g), ResultFrame(id, o))); Inv(t.calls) && Runs(t, events, last)
    ensures id !in Next(r, Message(Some(g), ResultFrame(id, o))).calls.pending
    ensures id in last.calls.settled && last.calls.settled[id] == o
  {
    AnswerExactly(r, Message(Some(g), ResultFrame(id, o)), id);
    RunKeepsInv(Next(r, Message(Some(g), ResultFrame(id, o))), events, last);
  }

  // ---------------------------------------------------------------- over whole runs

  /** Somewhere along the events, one of them gives this answer to the call. */
  predicate AnsweredAlong(r: Relay, events: seq<Event>, id: CallId, o: Outcome)
    requires Inv(r.calls)
    decreases |events|
  {
    && events != [] && Enabled(r, events[0])
    && (AnswerOf(r, events[0], id) == Some(o) || (StepKeepsInv(r, events[0]); AnsweredAlong(Next(r, events[0]), events[1..], id, o)))
  }

  lemma {:induction false} NoSecondAnswer(r: Relay, events: seq<Event>, last: Relay, id: CallId, o: Outcome)
    requires Inv(r.calls) && Runs(r, events, last) && id in r.calls.settled
    ensures !AnsweredAlong(r, events, id, o)
    decreases |events|
  {
    if events != [] {
      assert Consistent(r.calls, id);
      StepKeepsInv(r, events[0]);
      AnswerExactly(r, events[0], id);
      NoSecondAnswer(Next(r, events[0]), events[1..], last, id, o);
    }
  }

  /** In every run a call ends up with an answer if and only if some event gave it just that answer, and no call is given two. */
  lemma {:induction false} AnswersHaveCauses(r: Relay, events: seq<Event>, last: Relay, id: CallId, o: Outcome)
    requires Inv(r.calls) && Runs(r, events, last) && id !in r.calls.settled
    ensures id in last.calls.settled && last.calls.settled[id] == o <==> AnsweredAlong(r, events, id, o)
    decreases |events|
  {
    if events != [] {
      var t := Next(r, events[0]);
      StepKeepsInv(r, events[0]);
      AnswerExactly(r, events[0], id);
      if id in t.calls.settled {
        RunKeepsInv(t, events[1..], last);
        NoSecondAnswer(t, events[1..], last, id, o);
      } else {
        AnswersHaveCauses(t, events[1..], last, id, o);
      }
    }
  }

  // ---------------------------------------------------------------- connection and catalog

  /** Only a connection changes who is active, and only the active or an unmarked socket ends that. */
  lemma GenerationExactly(r: Relay, e: Event)
    requires Inv(r.calls) && Enabled(r, e)
    ensures var lost := (e.Close? && FromActiveOrUnmarked(r, e.socket)) || (e.Failure? && FromActiveOrUnmarked(r, e.socket))
                        || (e.Cleanup? && FromActiveOrUnmarked(r, r.clearing[0]));
            Next(r, e).generation == if e.Connect? then Some(e.generation) else if lost then None else r.generation
  {
  }

  /** After a valid hello of the active laptop its tools are on offer under its name; any other frame leaves the catalog alone. */
  lemma HelloExactly(r: Relay, g: Generation, frame: Frame)
    requires Inv(r.calls) && r.generation == Some(g)
    ensures var t := Next(r, Message(Some(g), frame));
            && (frame.Hello? && frame.valid ==>
                  && Tools(t) == frame.tools && t.cached.tools == t.stored.tools == Some(frame.tools)
                  && t.cached.machineName == t.stored.machineName == Some(frame.machineName)
                  && t.cached.user == r.cached.user && t.stored.user == r.stored.user && t.calls == r.calls)
            && (!(frame.Hello? && frame.valid) ==> t.cached == r.cached && t.stored == r.stored)
  {
  }

  /**
   A new connection forgets the catalog in memory, not the stored one: until its hello, what is on offer is what the
   laptop before it had stored.  Nothing is, exactly if that was nothing.
   */
  lemma OfferedAfterConnect(r: Relay, user: Key, g: Generation)
    requires Inv(r.calls)
    ensures var t := Next(r, Connect(user, g));
            && Tools(t) == (if r.stored.tools.Some? then r.stored.tools.value else [])
            && (Tools(t) == [] <==> r.stored.tools == None || r.stored.tools == Some([]))
            && t.cached.user == t.stored.user == Some(user)
  {
  }

  /** Once the active laptop is lost nothing is on offer, in memory or in storage. */
  lemma NothingOfferedAfterLoss(r: Relay, e: Event)
    requires Inv(r.calls) && Enabled(r, e) && (e.Close? || e.Failure?) && FromActiveOrUnmarked(r, e.socket)
    ensures var t := Next(r, e);
            Tools(t) == [] && t.cached == Catalog(None, None, None) && t.stored == Catalog(None, None, None)
  {
  }

  /** Asking for a call never changes what is on offer; over an open socket, what is on offer is kept in memory. */
  lemma InvokeKeepsOffer(r: Relay, e: Event)
    requires Inv(r.calls) && Enabled(r, e) && e.Invoke?
    ensures var t := Next(r, e);
            && Tools(t) == Tools(r) && t.stored == r.stored
            && t.cached == if e.via.Some? then Catalog(Some(Tools(r)), r.cached.machineName, r.cached.user) else r.cached
  {
  }

  /** A failed send leaves its socket to be cleaned up, and each clean-up takes the one that has waited longest. */
  lemma ClearingExactly(r: Relay, e: Event)
    requires Inv(r.calls) && Enabled(r, e)
    ensures Next(r, e).clearing == if e.Cleanup? then r.clearing[1..]
                                   else if Accepted(r, e) && !e.sent then r.clearing + [e.via.value] else r.clearing
  {
  }
}
