/** Session events and connection attempts follow a fixed pattern along every run, and
    every session event reaches the completion queue. */
module PipelineSession {
  import opened Prelude
  import opened ClientPipeline
  import opened PipelineFifo

  // -------------------------------------------------------- events and states

  /** (CONNECTED CONNECTING)*: disconnected, the session alive as far as known. */
  predicate Down(e: seq<int>) {
    e == [] ||
    (|e| >= 2 && e[|e| - 2] == CONNECTED_STATE && e[|e| - 1] == CONNECTING_STATE && Down(e[..|e| - 2]))
  }

  predicate Up(e: seq<int>) {
    e != [] && e[|e| - 1] == CONNECTED_STATE && Down(e[..|e| - 1])
  }

  /** Ended by EXPIRED while disconnected or by AUTH_FAILED while connected. */
  predicate Ended(e: seq<int>, state: int) {
    e != [] && e[|e| - 1] == state &&
    if state == EXPIRED_SESSION_STATE then Down(e[..|e| - 1])
    else state == AUTH_FAILED_STATE && Up(e[..|e| - 1])
  }

  predicate EventsFit(e: seq<int>, state: int) {
    if state < 0 then Ended(e, state) else if state == CONNECTED_STATE then Up(e) else Down(e)
  }

  ghost predicate SessionOk(s: State) {
    && EventsFit(s.events, s.state)
    && s.connectIndex <= s.addrsCount && (s.fdOpen ==> s.connectIndex < s.addrsCount)
    && (s.fdOpen <==> s.state == CONNECTING_STATE || s.state == ASSOCIATING_STATE || s.state == CONNECTED_STATE)
    && (s.toProcess != [] ==> s.state == CONNECTED_STATE)
  }

  lemma Snoc(e: seq<int>, x: int)
    ensures (e + [x])[..|e|] == e && (e + [x])[|e|] == x
  {
  }

  /** Losing a connection that still counts, whatever the error. */
  lemma LossOk(s: State, rc: int)
    requires s.state >= 0 && EventsFit(s.events, s.state) && s.connectIndex < s.addrsCount
    ensures SessionOk(HandleError(s, rc)) && HandleError(s, rc).state == 0
  {
    if s.state == CONNECTED_STATE {
      Snoc(s.events, CONNECTING_STATE);
      var e := s.events + [CONNECTING_STATE];
      assert e[..|e| - 2] == s.events[..|s.events| - 1];
      assert e[|e| - 2] == s.events[|s.events| - 1];
    }
  }

  /** The session ends with the connection. */
  lemma EndOk(s: State, state: int, rc: int)
    requires s.connectIndex < s.addrsCount
    requires if state == EXPIRED_SESSION_STATE then Down(s.events) else state == AUTH_FAILED_STATE && Up(s.events)
    ensures var s1 := HandleError(s.(state := state), rc); SessionOk(s1) && s1.state == state
  {
    var s1 := HandleError(s.(state := state), rc);
    Snoc(s.events, state);
    assert s1.events == s.events + [state];
    assert Ended(s1.events, state);
  }

  /** Steps that leave the session as it is. */
  lemma SameSession(s: State, t: State)
    requires SessionOk(s) && t.state == s.state && t.events == s.events && t.fdOpen == s.fdOpen
    requires t.connectIndex == s.connectIndex && t.addrsCount == s.addrsCount
    requires t.toProcess != [] ==> s.toProcess != [] || s.state == CONNECTED_STATE
    ensures SessionOk(t)
  {
  }

  lemma StepSession(s: State, a: Step)
    requires SessionOk(s)
    ensures SessionOk(Next(s, a))
    ensures s.state < 0 ==> Next(s, a).state == s.state
  {
    if !s.aborted {
      match a
      case DoSubmit(c) => SameSession(s, Submit(s, c));
      case DoPing => SameSession(s, QueuePing(s));
      case DoFront(xid) => SameSession(s, QueueFront(s, xid));
      case DoFlush(n) => SameSession(s, Flush(s, n));
      case DoReceive(f) => SameSession(s, Receive(s, f));
      case DoProcess => ProcessSession(s);
      case DoDeliver => SameSession(s, DeliverOne(s));
      case _ => ConnectSession(s, a);
    }
  }

  lemma ReplySession(s: State)
    requires SessionOk(s) && s.toProcess != []
    ensures SessionOk(ProcessReply(s))
  {
    if s.sentRequests != [] && s.sentRequests[0].xid != s.toProcess[0].xid {
      LossOk(TakeFrame(s).(mismatched := true), ZRUNTIMEINCONSISTENCY);
    } else {
      SameSession(s, ProcessReply(s));
    }
  }

  lemma ProcessSession(s: State)
    requires SessionOk(s)
    ensures SessionOk(ProcessOne(s)) && (s.state < 0 ==> ProcessOne(s).state == s.state)
  {
    if s.toProcess != [] {
      var f := s.toProcess[0];
      if f.xid == AUTH_XID && f.err != 0 {
        EndOk(TakeFrame(s), AUTH_FAILED_STATE, ZAUTHFAILED);
      } else if Special(f.xid) {
        SameSession(s, ProcessOne(s));
      } else {
        ReplySession(s);
      }
    }
  }

  lemma ConnectSession(s: State, a: Step)
    requires SessionOk(s) && (a.DoInterest? || a.DoPrime? || a.DoEstablished? || a.DoExpired? || a.DoFail?)
    ensures SessionOk(Next(s, a)) && (s.state < 0 ==> Next(s, a).state == s.state)
  {
    match a
    case DoFail(rc) => if s.fdOpen && s.state >= 0 { LossOk(s, rc); }
    case DoInterest(how) =>
      if s.state >= 0 && !s.fdOpen && s.connectIndex != s.addrsCount && how.Failed? { LossOk(s, how.rc); }
    case DoPrime =>
    case DoEstablished(front) => Snoc(s.events, CONNECTED_STATE);
    case DoExpired =>
      if s.fdOpen && s.state == ASSOCIATING_STATE { EndOk(s, EXPIRED_SESSION_STATE, ZSESSIONEXPIRED); }
  }

  lemma {:induction false} RunSession(s: State, steps: seq<Step>)
    requires SessionOk(s)
    ensures SessionOk(Run(s, steps)) && (s.state < 0 ==> Run(s, steps).state == s.state)
    decreases |steps|
  {
    if steps != [] {
      StepSession(s, steps[0]);
      RunSession(Next(s, steps[0]), steps[1..]);
    }
  }

  // ------------------------------------------------- events in the queue

  /** The states that a stretch of the completion queue announces. */
  function SessionStates(items: seq<Item>): seq<int> {
    if items == [] then []
    else (if items[0].SessionEvent? then [items[0].state] else []) + SessionStates(items[1..])
  }

  /** The session events delivered, then those waiting, are the ones that were queued. */
  ghost predicate Announced(s: State) {
    SessionStates(s.delivered) + SessionStates(s.completions) == s.events
  }

  lemma {:induction false} StatesConcat(a: seq<Item>, b: seq<Item>)
    ensures SessionStates(a + b) == SessionStates(a) + SessionStates(b)
  {
    if a == [] {
      assert a + b == b;
    } else {
      assert (a + b)[1..] == a[1..] + b;
      StatesConcat(a[1..], b);
      Assoc(if a[0].SessionEvent? then [a[0].state] else [], SessionStates(a[1..]), SessionStates(b));
    }
  }

  lemma {:induction false} FakedStates(cs: seq<Completion>, rc: int)
    ensures SessionStates(FakedReplies(cs, rc)) == []
  {
    if cs != [] {
      FakedStates(cs[1..], rc);
      StatesConcat(if cs[0].sync then [] else [Faked(cs[0], rc)], FakedReplies(cs[1..], rc));
      if !cs[0].sync { assert [Faked(cs[0], rc)][1..] == []; }
    }
  }

  lemma OneMoreItem(items: seq<Item>, i: Item)
    ensures SessionStates(items + [i]) == SessionStates(items) + (if i.SessionEvent? then [i.state] else [])
  {
    StatesConcat(items, [i]);
    assert [i][1..] == [];
  }

  lemma OtherItem(items: seq<Item>, i: Item)
    requires !i.SessionEvent?
    ensures SessionStates(items + [i]) == SessionStates(items)
  {
    OneMoreItem(items, i);
    assert SessionStates(items) + [] == SessionStates(items);
  }

  lemma EventAnnounced(s: State, state: int)
    requires Announced(s)
    ensures Announced(QueueSessionEvent(s, state))
  {
    OneMoreItem(s.completions, SessionEvent(state));
    Assoc(SessionStates(s.delivered), SessionStates(s.completions), [state]);
  }

  lemma CleanupAnnounced(s: State, rc: int)
    requires Announced(s)
    ensures Announced(CleanupBufs(s, rc))
  {
    StatesConcat(s.completions, FakedReplies(s.sentRequests, rc));
    FakedStates(s.sentRequests, rc);
    assert SessionStates(s.completions) + [] == SessionStates(s.completions);
  }

  lemma ErrorAnnounced(s: State, rc: int)
    requires Announced(s)
    ensures Announced(HandleError(s, rc))
  {
    if Unrecoverable(s) { EventAnnounced(s, s.state); }
    if s.state == CONNECTED_STATE { EventAnnounced(s, CONNECTING_STATE); }
    CleanupAnnounced(AnnounceLoss(s), rc);
  }

  lemma ReplyAnnounced(s: State)
    requires Announced(s) && s.toProcess != []
    ensures Announced(ProcessReply(s))
  {
    var f := s.toProcess[0];
    if s.sentRequests != [] {
      var c := s.sentRequests[0];
      if c.xid != f.xid {
        ErrorAnnounced(TakeFrame(s).(mismatched := true), ZRUNTIMEINCONSISTENCY);
      } else if !c.sync {
        OtherItem(s.completions, Reply(c, f));
      }
    }
  }

  lemma ProcessAnnounced(s: State)
    requires Announced(s)
    ensures Announced(ProcessOne(s))
  {
    if s.toProcess != [] {
      var f := s.toProcess[0];
      if f.xid == WATCHER_EVENT_XID {
        OtherItem(s.completions, Notification(f));
      } else if f.xid == AUTH_XID && f.err != 0 {
        ErrorAnnounced(TakeFrame(s).(state := AUTH_FAILED_STATE), ZAUTHFAILED);
      } else if !Special(f.xid) {
        ReplyAnnounced(s);
      }
    }
  }

  lemma DeliverAnnounced(s: State)
    requires Announced(s)
    ensures Announced(DeliverOne(s))
  {
    if s.completions != [] {
      var i, rest := s.completions[0], s.completions[1..];
      assert s.completions == [i] + rest;
      StatesConcat([i], rest);
      StatesConcat(s.delivered, [i]);
      Assoc(SessionStates(s.delivered), SessionStates([i]), SessionStates(rest));
    }
  }

  lemma ConnectAnnounced(s: State, a: Step)
    requires Announced(s) && (a.DoInterest? || a.DoPrime? || a.DoEstablished? || a.DoExpired? || a.DoFail?)
    ensures Announced(Next(s, a))
  {
    match a
    case DoFail(rc) => ErrorAnnounced(s, rc);
    case DoInterest(how) => if how.Failed? { ErrorAnnounced(s, how.rc); }
    case DoPrime =>
    case DoEstablished(front) =>
      EventAnnounced(s.(state := CONNECTED_STATE, toSend := front + s.toSend), CONNECTED_STATE);
    case DoExpired => ErrorAnnounced(s.(state := EXPIRED_SESSION_STATE), ZSESSIONEXPIRED);
  }

  lemma StepAnnounced(s: State, a: Step)
    requires Announced(s)
    ensures Announced(Next(s, a))
  {
    if !s.aborted {
      match a
      case DoSubmit(c) =>
      case DoPing =>
      case DoFront(xid) =>
      case DoFlush(n) =>
      case DoReceive(f) =>
      case DoProcess => ProcessAnnounced(s);
      case DoDeliver => DeliverAnnounced(s);
      case _ => ConnectAnnounced(s, a);
    }
  }

  lemma {:induction false} RunAnnounced(s: State, steps: seq<Step>)
    requires Announced(s)
    ensures Announced(Run(s, steps))
    decreases |steps|
  {
    if steps != [] {
      StepAnnounced(s, steps[0]);
      RunAnnounced(Next(s, steps[0]), steps[1..]);
    }
  }

  /** Along any run, whatever the server sends: the session events delivered, then those
      waiting for delivery, are a prefix of (CONNECTED CONNECTING)* with at most one final
      EXPIRED or AUTH_FAILED, the latter directly after CONNECTED, and fit the state of the
      session; and the address index stays in range. */
  lemma SessionEventsFollowPattern(addrsCount: nat, steps: seq<Step>)
    ensures var s := Run(Init(addrsCount), steps);
            var e := SessionStates(s.delivered) + SessionStates(s.completions);
            && (Down(e) || Up(e) || Ended(e, EXPIRED_SESSION_STATE) || Ended(e, AUTH_FAILED_STATE))
            && e == s.events && EventsFit(e, s.state)
            && s.connectIndex <= addrsCount && (s.fdOpen ==> s.connectIndex < addrsCount)
  {
    RunSession(Init(addrsCount), steps);
    RunAddrs(Init(addrsCount), steps);
    RunAnnounced(Init(addrsCount), steps);
  }

  lemma StepAddrs(s: State, a: Step)
    ensures Next(s, a).addrsCount == s.addrsCount
  {
  }

  lemma {:induction false} RunAddrs(s: State, steps: seq<Step>)
    ensures Run(s, steps).addrsCount == s.addrsCount
    decreases |steps|
  {
    if steps != [] {
      StepAddrs(s, steps[0]);
      RunAddrs(Next(s, steps[0]), steps[1..]);
    }
  }

  /** A negative state is never left. */
  lemma NegativeStatesAbsorb(addrsCount: nat, before: seq<Step>, after: seq<Step>)
    requires Run(Init(addrsCount), before).state < 0
    ensures Run(Init(addrsCount), before + after).state == Run(Init(addrsCount), before).state
  {
    RunSession(Init(addrsCount), before);
    RunConcat(Init(addrsCount), before, after);
    RunSession(Run(Init(addrsCount), before), after);
  }
}
