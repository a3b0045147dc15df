/** What the completion queue holds, over every run: exactly what the frames received and
    the requests registered call for, read off their contents alone. */
module PipelineFrames {
  import opened Prelude
  import opened ClientPipeline

  // ---------------------------------------------------- what frames call for

  /** A frame answers the oldest of some requests. */
  predicate Answers(f: Frame, reqs: seq<Completion>) {
    !Special(f.xid) && reqs != [] && reqs[0].xid == f.xid
  }

  function After(f: Frame, reqs: seq<Completion>): seq<Completion> {
    if Answers(f, reqs) then reqs[1..] else reqs
  }

  /** A watch event is a notification, an answer to an asynchronous request its reply;
      nothing else becomes an item. */
  function Due(f: Frame, reqs: seq<Completion>): seq<Item> {
    if f.xid == WATCHER_EVENT_XID then [Notification(f)]
    else if Answers(f, reqs) && !reqs[0].sync then [Reply(reqs[0], f)]
    else []
  }

  function Outcome(fs: seq<Frame>, reqs: seq<Completion>): seq<Item>
    decreases |fs|
  {
    if fs == [] then [] else Due(fs[0], reqs) + Outcome(fs[1..], After(fs[0], reqs))
  }

  /** The requests that no frame has answered. */
  function Left(fs: seq<Frame>, reqs: seq<Completion>): seq<Completion>
    decreases |fs|
  {
    if fs == [] then reqs else Left(fs[1..], After(fs[0], reqs))
  }

  /** Every reply among the frames answers the request that was the oldest then. */
  predicate AllAnswer(fs: seq<Frame>, reqs: seq<Completion>)
    decreases |fs|
  {
    fs == [] || ((Special(fs[0].xid) || Answers(fs[0], reqs)) && AllAnswer(fs[1..], After(fs[0], reqs)))
  }

  /** The items from between two times that the queues were emptied: what the processed
      frames call for, then a faked reply for every asynchronous request left. */
  function OfConnection(c: Connection): seq<Item>
    requires c.handled <= |c.received|
  {
    Outcome(c.received[..c.handled], c.registered) +
    FakedReplies(Left(c.received[..c.handled], c.registered), c.rc)
  }

  predicate Sound(cs: seq<Connection>) {
    forall i | 0 <= i < |cs| :: cs[i].handled <= |cs[i].received|
  }

  function OfAll(cs: seq<Connection>): seq<Item>
    requires Sound(cs)
  {
    if cs == [] then [] else OfConnection(cs[0]) + OfAll(cs[1..])
  }

  function Items(items: seq<Item>): seq<Item> {
    if items == [] then []
    else (if items[0].SessionEvent? then [] else [items[0]]) + Items(items[1..])
  }

  /** The frames that wait are those received and not processed; the requests that wait
      are those registered and not answered; and the items delivered, then those waiting,
      are exactly those called for, in that order. */
  ghost predicate Kept(s: State) {
    && Sound(s.lost) && s.handled <= |s.received|
    && s.toProcess == s.received[s.handled..]
    && s.sentRequests == Left(s.received[..s.handled], s.registered)
    && Items(s.delivered) + Items(s.completions) ==
       OfAll(s.lost) + Outcome(s.received[..s.handled], s.registered)
  }

  /** And every reply processed since then answered a request, unless one found none and
      stopped the client. */
  ghost predicate Exact(s: State) {
    Kept(s) && (s.aborted || AllAnswer(s.received[..s.handled], s.registered))
  }

  // ------------------------------------------------------------ one more frame

  lemma {:induction false} OutcomeSnoc(fs: seq<Frame>, reqs: seq<Completion>, f: Frame)
    ensures Outcome(fs + [f], reqs) == Outcome(fs, reqs) + Due(f, Left(fs, reqs))
    ensures Left(fs + [f], reqs) == After(f, Left(fs, reqs))
    ensures AllAnswer(fs + [f], reqs) <==>
            AllAnswer(fs, reqs) && (Special(f.xid) || Answers(f, Left(fs, reqs)))
    decreases |fs|
  {
    if fs == [] {
      assert [f][1..] == [];
      assert Due(f, reqs) + [] == Due(f, reqs);
    } else {
      assert (fs + [f])[1..] == fs[1..] + [f];
      OutcomeSnoc(fs[1..], After(fs[0], reqs), f);
      Assoc(Due(fs[0], reqs), Outcome(fs[1..], After(fs[0], reqs)), Due(f, Left(fs, reqs)));
    }
  }

  /** Where every reply has found its request, one more request changes nothing. */
  lemma {:induction false} OneMoreRequest(fs: seq<Frame>, reqs: seq<Completion>, c: Completion)
    requires AllAnswer(fs, reqs)
    ensures AllAnswer(fs, reqs + [c]) && Left(fs, reqs + [c]) == Left(fs, reqs) + [c]
    ensures Outcome(fs, reqs + [c]) == Outcome(fs, reqs)
    decreases |fs|
  {
    if fs != [] {
      var f := fs[0];
      if Answers(f, reqs) {
        assert (reqs + [c])[1..] == reqs[1..] + [c] && (reqs + [c])[0] == reqs[0];
      }
      OneMoreRequest(fs[1..], After(f, reqs), c);
    }
  }

  lemma {:induction false} ItemsConcat(a: seq<Item>, b: seq<Item>)
    ensures Items(a + b) == Items(a) + Items(b)
  {
    if a == [] {
      assert a + b == b;
    } else {
      assert (a + b)[1..] == a[1..] + b;
      ItemsConcat(a[1..], b);
      Assoc(if a[0].SessionEvent? then [] else [a[0]], Items(a[1..]), Items(b));
    }
  }

  lemma ItemsOne(i: Item)
    ensures Items([i]) == if i.SessionEvent? then [] else [i]
  {
    assert [i][1..] == [];
  }

  lemma {:induction false} ItemsFaked(cs: seq<Completion>, rc: int)
    ensures Items(FakedReplies(cs, rc)) == FakedReplies(cs, rc)
  {
    if cs != [] {
      var first := if cs[0].sync then [] else [Faked(cs[0], rc)];
      ItemsFaked(cs[1..], rc);
      ItemsConcat(first, FakedReplies(cs[1..], rc));
      if !cs[0].sync { ItemsOne(Faked(cs[0], rc)); }
    }
  }

  lemma {:induction false} ItemsDue(f: Frame, reqs: seq<Completion>)
    ensures Items(Due(f, reqs)) == Due(f, reqs)
  {
    if Due(f, reqs) != [] { ItemsOne(Due(f, reqs)[0]); }
  }

  lemma {:induction false} OfAllSnoc(cs: seq<Connection>, c: Connection)
    requires Sound(cs) && c.handled <= |c.received|
    ensures Sound(cs + [c]) && OfAll(cs + [c]) == OfAll(cs) + OfConnection(c)
  {
    if cs == [] {
      assert [c][1..] == [] && OfConnection(c) + [] == OfConnection(c);
    } else {
      assert (cs + [c])[1..] == cs[1..] + [c];
      OfAllSnoc(cs[1..], c);
      Assoc(OfConnection(cs[0]), OfAll(cs[1..]), OfConnection(c));
    }
  }

  // ----------------------------------------------------------- every step keeps it

  /** Steps that touch none of this. */
  lemma SameKeeps(s: State, t: State)
    requires Exact(s) && t.lost == s.lost && t.received == s.received && t.handled == s.handled
    requires t.registered == s.registered && t.toProcess == s.toProcess && t.sentRequests == s.sentRequests
    requires t.delivered == s.delivered && t.completions == s.completions && (s.aborted ==> t.aborted)
    ensures Exact(t)
  {
  }

  lemma SubmitKeeps(s: State, c: Completion)
    requires Exact(s) && !s.aborted
    ensures Exact(Submit(s, c))
  {
    OneMoreRequest(s.received[..s.handled], s.registered, c);
  }

  lemma ReceiveKeeps(s: State, f: Frame)
    requires Exact(s)
    ensures Exact(Receive(s, f))
  {
    assert (s.received + [f])[..s.handled] == s.received[..s.handled];
  }

  lemma EventKeeps(s: State, state: int)
    requires Kept(s)
    ensures Kept(QueueSessionEvent(s, state))
  {
    ItemsConcat(s.completions, [SessionEvent(state)]);
    ItemsOne(SessionEvent(state));
    assert Items(s.completions) + [] == Items(s.completions);
  }

  lemma CleanupKeeps(s: State, rc: int)
    requires Kept(s)
    ensures Exact(CleanupBufs(s, rc))
  {
    var c := Connection(s.received, s.handled, s.registered, rc);
    var fakes := FakedReplies(s.sentRequests, rc);
    ItemsConcat(s.completions, fakes);
    ItemsFaked(s.sentRequests, rc);
    OfAllSnoc(s.lost, c);
    CleanupItems(Items(s.delivered), Items(s.completions), fakes, OfAll(s.lost),
                 Outcome(s.received[..s.handled], s.registered));
    assert Outcome([], []) == [] && OfAll(s.lost + [c]) + [] == OfAll(s.lost + [c]);
  }

  lemma CleanupItems(d: seq<Item>, q: seq<Item>, fakes: seq<Item>, past: seq<Item>, now: seq<Item>)
    requires d + q == past + now
    ensures d + (q + fakes) == past + (now + fakes)
  {
    Assoc(d, q, fakes);
    Assoc(past, now, fakes);
  }

  /** Giving up a connection settles what it left, also when its last frame was a reply
      that answered nothing. */
  lemma ErrorKeeps(s: State, rc: int)
    requires Kept(s)
    ensures Exact(HandleError(s, rc))
  {
    var s1 := AnnounceLoss(s);
    if Unrecoverable(s) {
      EventKeeps(s, s.state);
    } else if s.state == CONNECTED_STATE {
      EventKeeps(s, CONNECTING_STATE);
    }
    CleanupKeeps(s1, rc);
    SameKeeps(CleanupBufs(s1, rc), HandleError(s, rc));
  }

  /** What processing one frame does to the queues and to what is called for. */
  lemma TakenFrame(s: State)
    requires Kept(s) && s.toProcess != []
    ensures var f, h := s.toProcess[0], s.handled;
            && f == s.received[h] && s.toProcess[1..] == s.received[h + 1..]
            && Outcome(s.received[..h + 1], s.registered) ==
               Outcome(s.received[..h], s.registered) + Due(f, s.sentRequests)
            && Left(s.received[..h + 1], s.registered) == After(f, s.sentRequests)
            && (AllAnswer(s.received[..h + 1], s.registered) <==>
                AllAnswer(s.received[..h], s.registered) && (Special(f.xid) || Answers(f, s.sentRequests)))
  {
    var h := s.handled;
    assert s.received[..h + 1] == s.received[..h] + [s.received[h]];
    OutcomeSnoc(s.received[..h], s.registered, s.received[h]);
  }

  /** A processed frame leaves what it calls for at the end of the queue. */
  lemma DueKeeps(s: State, t: State)
    requires Exact(s) && s.toProcess != [] && !s.aborted
    requires var f := s.toProcess[0];
             && t.sentRequests == After(f, s.sentRequests) && t.completions == s.completions + Due(f, s.sentRequests)
    requires t.lost == s.lost && t.received == s.received && t.handled == s.handled + 1
    requires t.registered == s.registered && t.toProcess == s.toProcess[1..] && t.delivered == s.delivered
    ensures Kept(t)
    ensures t.aborted || Special(s.toProcess[0].xid) || Answers(s.toProcess[0], s.sentRequests) ==> Exact(t)
  {
    var f := s.toProcess[0];
    TakenFrame(s);
    ItemsConcat(s.completions, Due(f, s.sentRequests));
    ItemsDue(f, s.sentRequests);
    CleanupItems(Items(s.delivered), Items(s.completions), Due(f, s.sentRequests), OfAll(s.lost),
                 Outcome(s.received[..s.handled], s.registered));
  }

  lemma NothingDue(s: State, t: State)
    requires Exact(s) && s.toProcess != [] && !s.aborted
    requires Due(s.toProcess[0], s.sentRequests) == [] && !Answers(s.toProcess[0], s.sentRequests)
    requires t.sentRequests == s.sentRequests && t.completions == s.completions && t.delivered == s.delivered
    requires t.lost == s.lost && t.received == s.received && t.handled == s.handled + 1
    requires t.registered == s.registered && t.toProcess == s.toProcess[1..]
    ensures Kept(t) && (t.aborted || Special(s.toProcess[0].xid) ==> Exact(t))
  {
    assert s.completions + [] == s.completions;
    DueKeeps(s, t);
  }

  lemma ReplyKeeps(s: State)
    requires Exact(s) && s.toProcess != [] && !s.aborted && !Special(s.toProcess[0].xid)
    ensures Exact(ProcessReply(s))
  {
    var f := s.toProcess[0];
    if s.sentRequests == [] {
      NothingDue(s, ProcessReply(s));
    } else if s.sentRequests[0].xid != f.xid {
      var t := TakeFrame(s).(mismatched := true);
      NothingDue(s, t);
      ErrorKeeps(t, ZRUNTIMEINCONSISTENCY);
    } else {
      assert s.completions + [] == s.completions;
      DueKeeps(s, ProcessReply(s));
    }
  }

  lemma ProcessKeeps(s: State)
    requires Exact(s) && !s.aborted
    ensures Exact(ProcessOne(s))
  {
    if s.toProcess != [] {
      var f := s.toProcess[0];
      if f.xid == WATCHER_EVENT_XID {
        DueKeeps(s, ProcessOne(s));
      } else if Special(f.xid) {
        NothingDue(s, TakeFrame(s));
        if f.xid == AUTH_XID && f.err != 0 {
          var t := TakeFrame(s).(state := AUTH_FAILED_STATE);
          SameKeeps(TakeFrame(s), t);
          ErrorKeeps(t, ZAUTHFAILED);
        }
      } else {
        ReplyKeeps(s);
      }
    }
  }

  lemma DeliverKeeps(s: State)
    requires Exact(s)
    ensures Exact(DeliverOne(s))
  {
    if s.completions != [] {
      var first, rest := s.completions[..1], s.completions[1..];
      assert s.completions == first + rest && first == [s.completions[0]];
      ItemsConcat(first, rest);
      ItemsConcat(s.delivered, first);
      Assoc(Items(s.delivered), Items(first), Items(rest));
    }
  }

  lemma EstablishedKeeps(s: State, front: seq<int>)
    requires Exact(s)
    ensures Exact(Established(s, front))
  {
    var s1 := s.(state := CONNECTED_STATE, toSend := front + s.toSend);
    SameKeeps(s, s1);
    EventKeeps(s1, CONNECTED_STATE);
  }

  lemma InterestKeeps(s: State, how: Connect)
    requires Exact(s)
    ensures Exact(Interest(s, how))
  {
    if !Unrecoverable(s) && !s.fdOpen {
      if how.Failed? && s.connectIndex != s.addrsCount {
        ErrorKeeps(s, how.rc);
      } else {
        SameKeeps(s, Interest(s, how));
      }
    }
  }

  lemma ExpiredKeeps(s: State)
    requires Exact(s)
    ensures Exact(Expired(s))
  {
    var s1 := s.(state := EXPIRED_SESSION_STATE);
    SameKeeps(s, s1);
    ErrorKeeps(s1, ZSESSIONEXPIRED);
  }

  lemma StepKeeps(s: State, a: Step)
    requires Exact(s)
    ensures Exact(Next(s, a))
  {
    if !s.aborted {
      match a
      case DoSubmit(c) => SubmitKeeps(s, c);
      case DoPing => SameKeeps(s, QueuePing(s));
      case DoFront(xid) => SameKeeps(s, QueueFront(s, xid));
      case DoFlush(n) => SameKeeps(s, Flush(s, n));
      case DoReceive(f) => ReceiveKeeps(s, f);
      case DoProcess => ProcessKeeps(s);
      case DoDeliver => DeliverKeeps(s);
      case DoFail(rc) => ErrorKeeps(s, rc);
      case DoInterest(how) => InterestKeeps(s, how);
      case DoPrime => SameKeeps(s, Prime(s));
      case DoEstablished(front) => EstablishedKeeps(s, front);
      case DoExpired => ExpiredKeeps(s);
    }
  }

  lemma {:induction false} RunKeeps(s: State, steps: seq<Step>)
    requires Exact(s)
    ensures Exact(Run(s, steps))
    decreases |steps|
  {
    if steps != [] {
      StepKeeps(s, steps[0]);
      RunKeeps(Next(s, steps[0]), steps[1..]);
    }
  }

  /** Over every run, whatever the server sends: nothing that a processed frame calls for
      is lost, doubled, invented or out of order, and no frame is skipped. */
  lemma CompletionsAreExact(addrsCount: nat, steps: seq<Step>)
    ensures Exact(Run(Init(addrsCount), steps))
  {
    RunKeeps(Init(addrsCount), steps);
  }

  // ------------------------------------------------------------ notifications

  function Notifications(items: seq<Item>): seq<Frame> {
    if items == [] then []
    else (if items[0].Notification? then [items[0].frame] else []) + Notifications(items[1..])
  }

  function WatchEvents(fs: seq<Frame>): seq<Frame> {
    if fs == [] then []
    else (if fs[0].xid == WATCHER_EVENT_XID then [fs[0]] else []) + WatchEvents(fs[1..])
  }

  /** The frames processed before the queues were emptied last. */
  function ProcessedBefore(cs: seq<Connection>): seq<Frame>
    requires Sound(cs)
  {
    if cs == [] then [] else cs[0].received[..cs[0].handled] + ProcessedBefore(cs[1..])
  }

  lemma {:induction false} NotificationsConcat(a: seq<Item>, b: seq<Item>)
    ensures Notifications(a + b) == Notifications(a) + Notifications(b)
  {
    if a == [] {
      assert a + b == b;
    } else {
      assert (a + b)[1..] == a[1..] + b;
      NotificationsConcat(a[1..], b);
      Assoc(if a[0].Notification? then [a[0].frame] else [], Notifications(a[1..]), Notifications(b));
    }
  }

  lemma {:induction false} WatchEventsConcat(a: seq<Frame>, b: seq<Frame>)
    ensures WatchEvents(a + b) == WatchEvents(a) + WatchEvents(b)
  {
    if a == [] {
      assert a + b == b;
    } else {
      assert (a + b)[1..] == a[1..] + b;
      WatchEventsConcat(a[1..], b);
      Assoc(if a[0].xid == WATCHER_EVENT_XID then [a[0]] else [], WatchEvents(a[1..]), WatchEvents(b));
    }
  }

  lemma {:induction false} ItemsNotifications(items: seq<Item>)
    ensures Notifications(Items(items)) == Notifications(items)
  {
    if items != [] {
      ItemsNotifications(items[1..]);
      var first := if items[0].SessionEvent? then [] else [items[0]];
      NotificationsConcat(first, Items(items[1..]));
      if !items[0].SessionEvent? { assert [items[0]][1..] == []; }
    }
  }

  lemma {:induction false} FakedNotifications(cs: seq<Completion>, rc: int)
    ensures Notifications(FakedReplies(cs, rc)) == []
  {
    if cs != [] {
      FakedNotifications(cs[1..], rc);
      NotificationsConcat(if cs[0].sync then [] else [Faked(cs[0], rc)], FakedReplies(cs[1..], rc));
      if !cs[0].sync { assert [Faked(cs[0], rc)][1..] == []; }
    }
  }

  lemma {:induction false} OutcomeNotifications(fs: seq<Frame>, reqs: seq<Completion>)
    ensures Notifications(Outcome(fs, reqs)) == WatchEvents(fs)
    decreases |fs|
  {
    if fs != [] {
      var due := Due(fs[0], reqs);
      OutcomeNotifications(fs[1..], After(fs[0], reqs));
      NotificationsConcat(due, Outcome(fs[1..], After(fs[0], reqs)));
      if due != [] { assert due == [due[0]] && due[1..] == []; }
    }
  }

  lemma {:induction false} PastNotifications(cs: seq<Connection>)
    requires Sound(cs)
    ensures Notifications(OfAll(cs)) == WatchEvents(ProcessedBefore(cs))
  {
    if cs != [] {
      var c := cs[0];
      var fs := c.received[..c.handled];
      PastNotifications(cs[1..]);
      NotificationsConcat(OfConnection(c), OfAll(cs[1..]));
      NotificationsConcat(Outcome(fs, c.registered), FakedReplies(Left(fs, c.registered), c.rc));
      OutcomeNotifications(fs, c.registered);
      FakedNotifications(Left(fs, c.registered), c.rc);
      WatchEventsConcat(fs, ProcessedBefore(cs[1..]));
      assert WatchEvents(fs) + [] == WatchEvents(fs);
    }
  }

  /** Over every run the notifications delivered, then those waiting, are the watch events
      among all frames processed, each once and in the order of arrival. */
  lemma EveryWatchEventIsNotified(addrsCount: nat, steps: seq<Step>)
    ensures var s := Run(Init(addrsCount), steps);
            && Sound(s.lost) && s.handled <= |s.received| && s.toProcess == s.received[s.handled..]
            && Notifications(s.delivered) + Notifications(s.completions) ==
               WatchEvents(ProcessedBefore(s.lost) + s.received[..s.handled])
  {
    var s := Run(Init(addrsCount), steps);
    CompletionsAreExact(addrsCount, steps);
    var now := s.received[..s.handled];
    ItemsNotifications(s.delivered);
    ItemsNotifications(s.completions);
    NotificationsConcat(Items(s.delivered), Items(s.completions));
    NotificationsConcat(OfAll(s.lost), Outcome(now, s.registered));
    PastNotifications(s.lost);
    OutcomeNotifications(now, s.registered);
    WatchEventsConcat(ProcessedBefore(s.lost), now);
  }
}
