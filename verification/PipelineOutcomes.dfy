/** What the steps of the client bring about: which one leads to which session state, what
    is sent and taken in, and how one request goes through. */
module PipelineOutcomes {
  import opened Prelude
  import opened ClientPipeline
  import opened PipelineFifo
  import opened PipelineFrames
  import opened PipelineOrder
  import opened PipelineCauses
  import opened PipelineSession

  // ----------------------------------------------------------- session states

  /** Exactly which steps lead a session with a socket, or without, into which state: 1 a
      connect is under way, 2 the handshake is, 3 the session is established, 0 there is no
      connection, -112 the session has expired, -113 authentication was refused. */
  lemma StateReachedIff(s: State, a: Step)
    requires SessionOk(s)
    ensures var t := Next(s, a);
            && (t.state == 1 && s.state != 1 <==>
                !s.aborted && s.state >= 0 && !s.fdOpen && s.connectIndex != s.addrsCount &&
                a == DoInterest(InProgress))
            && (t.state == 2 && s.state != 2 <==>
                !s.aborted && ((s.state == 1 && a == DoPrime) ||
                (s.state >= 0 && !s.fdOpen && s.connectIndex != s.addrsCount && a == DoInterest(Primed))))
            && (t.state == 3 && s.state != 3 <==> !s.aborted && s.state == 2 && a.DoEstablished?)
            && (t.state == -112 && s.state != -112 <==> !s.aborted && s.state == 2 && a == DoExpired)
            && (t.state == -113 && s.state != -113 <==>
                !s.aborted && a == DoProcess && s.toProcess != [] &&
                s.toProcess[0].xid == -4 && s.toProcess[0].err != 0)
            && (t.state == 0 && s.state != 0 <==>
                s.state >= 0 && s.state != 0 && Failure(s, a).Some? && t.state >= 0)
  {
    if Failure(s, a).Some? { var u := FailingStep(s, a); }
  }

  /** A step that gives up the connection closes the socket and goes on to the next
      address; a session that did not end is then without connection. */
  lemma AfterFailure(s: State, a: Step)
    requires SessionOk(s) && Failure(s, a).Some?
    ensures var t := Next(s, a);
            && !t.fdOpen && t.connectIndex == s.connectIndex + 1
            && t.state == (if a == DoExpired then -112
                           else if a == DoProcess && Failure(s, a) == Some(-115) then -113 else 0)
            && t.toSend == [] && t.toProcess == [] && t.sentRequests == []
  {
    var u := FailingStep(s, a);
  }

  /** The client stops exactly at a reply that finds no request outstanding. */
  lemma StopsIff(s: State, a: Step)
    requires !s.aborted
    ensures Next(s, a).aborted <==>
            a == DoProcess && s.toProcess != [] && s.toProcess[0].xid !in {-1, -2, -4, -8} && s.sentRequests == []
  {
    if Failure(s, a).Some? { var u := FailingStep(s, a); }
  }

  /** What a frame does, by its number: the reply to a ping (-2), to the watches sent again
      (-8) and to an accepted authentication (-4) is only taken; a watch event (-1) becomes
      a notification; the reply to the oldest request completes that one alone, through the
      completion queue if nobody blocks on it. */
  lemma FrameEffect(s: State)
    requires !s.aborted && s.toProcess != []
    ensures var (f, t) := (s.toProcess[0], Next(s, DoProcess));
            && (f.xid in {-2, -8} || (f.xid == -4 && f.err == 0) ==>
                t == s.(toProcess := s.toProcess[1..], handled := t.handled, lastZxid := t.lastZxid))
            && (f.xid == -1 ==> t == s.(toProcess := s.toProcess[1..], handled := t.handled, lastZxid := t.lastZxid,
                                        completions := s.completions + [Notification(f)]))
            && (f.xid !in {-1, -2, -4, -8} && s.sentRequests != [] && s.sentRequests[0].xid == f.xid ==>
                var c := s.sentRequests[0];
                && t.toProcess == s.toProcess[1..] && t.sentRequests == s.sentRequests[1..]
                && t.completions == s.completions + (if c.sync then [] else [Reply(c, f)])
                && t.outstandingSync == s.outstandingSync - (if c.sync then 1 else 0)
                && t.state == s.state && t.toSend == s.toSend && t.fdOpen == s.fdOpen)
  {
    assert s.completions + [] == s.completions;
  }

  // ---------------------------------------------------------------- addresses

  function Attempts(rcs: seq<int>): seq<Step> {
    if rcs == [] then [] else [DoInterest(Failed(rcs[0]))] + Attempts(rcs[1..])
  }

  /** Calls that find no server try all addresses in turn, starting with the first; then
      one call starts over. */
  lemma {:induction false} AddressesInTurn(s: State, rcs: seq<int>)
    requires !s.aborted && s.state >= 0 && !s.fdOpen && s.connectIndex + |rcs| <= s.addrsCount
    ensures var t := Run(s, Attempts(rcs));
            && t.connectIndex == s.connectIndex + |rcs| && t.addrsCount == s.addrsCount
            && !t.aborted && t.state >= 0 && !t.fdOpen && |t.lost| == |s.lost| + |rcs|
            && (t.connectIndex == t.addrsCount ==> forall how :: Next(t, DoInterest(how)) == t.(connectIndex := 0))
    decreases |rcs|
  {
    if rcs != [] {
      var t := Next(s, DoInterest(Failed(rcs[0])));
      assert Attempts(rcs)[1..] == Attempts(rcs[1..]);
      AddressesInTurn(t, rcs[1..]);
    }
  }

  // ------------------------------------------------------ sending and receiving

  /** A connected client sends as many packets as the socket takes, from the front; any
      other sends none. The requests among them wait for their reply from then on. */
  lemma FlushSends(s: State, n: nat)
    ensures var t := Flush(s, n);
            var k := |s.toSend| - |t.toSend|;
            && k == (if s.state != CONNECTED_STATE then 0 else if n < |s.toSend| then n else |s.toSend|)
            && s.toSend == s.toSend[..k] + t.toSend && t.unanswered == s.unanswered + Ordinary(s.toSend[..k])
  {
    assert s.unanswered + [] == s.unanswered;
  }

  /** Set-watches and authentication packets are sent before anything that was queued while
      there was no session. */
  lemma FrontGoesFirst(s: State, front: seq<int>)
    requires !s.aborted && s.fdOpen && s.state == ASSOCIATING_STATE && SpecialAll(front)
    ensures var t := Flush(Established(s, front), |front|);
            t.toSend == s.toSend && t.unanswered == s.unanswered && t.state == CONNECTED_STATE
  {
    SpecialNotOrdinary(front);
    assert (front + s.toSend)[..|front|] == front && (front + s.toSend)[|front|..] == s.toSend;
    assert s.unanswered + [] == s.unanswered;
  }

  /** A packet queued in front goes next, a ping and a request go last. */
  lemma QueuePlaces(s: State, xid: int, c: Completion)
    requires s.state == CONNECTED_STATE
    ensures Flush(QueueFront(s, xid), 1).toSend == s.toSend && QueueFront(s, xid).toSend[0] == xid
    ensures Flush(QueuePing(s), |s.toSend|).toSend == [-2]
    ensures Flush(Submit(s, c), |s.toSend|).toSend == [c.xid]
  {
  }

  /** All frames received, over all connections. */
  function Arrivals(s: State): seq<Frame> {
    PastArrivals(s.lost) + s.received
  }

  function PastArrivals(cs: seq<Connection>): seq<Frame> {
    if cs == [] then [] else PastArrivals(cs[..|cs| - 1]) + cs[|cs| - 1].received
  }

  /** The frames received grow by exactly the frames that come in on an established
      connection, and the asynchronous requests accepted by exactly those submitted. */
  lemma StepTakesIn(s: State, a: Step)
    ensures Arrivals(Next(s, a)) ==
            Arrivals(s) + (if !s.aborted && a.DoReceive? && s.state == CONNECTED_STATE then [a.f] else [])
    ensures Next(s, a).accepted == s.accepted + (if !s.aborted && a.DoSubmit? && !a.c.sync then [a.c] else [])
  {
    assert Arrivals(s) + [] == Arrivals(s) && s.accepted + [] == s.accepted;
    if Failure(s, a).Some? {
      LostArrivals(s, a);
    } else if !s.aborted && a.DoReceive? && s.state == CONNECTED_STATE {
      Assoc(PastArrivals(s.lost), s.received, [a.f]);
    }
  }

  /** The record of a connection that a step gives up. */
  lemma GivenUp(s: State, a: Step) returns (c: Connection)
    requires Failure(s, a).Some?
    ensures var t := Next(s, a);
            && t.lost == s.lost + [c] && t.received == [] && t.handled == 0 && t.accepted == s.accepted
            && c.received == s.received && c.handled == s.handled + (if a.DoProcess? then 1 else 0)
            && t.lastZxid == if a.DoProcess? then TakeFrame(s).lastZxid else s.lastZxid
  {
    var u := FailingStep(s, a);
    c := Connection(u.received, u.handled, u.registered, Failure(s, a).value);
  }

  lemma LostArrivals(s: State, a: Step)
    requires Failure(s, a).Some?
    ensures Arrivals(Next(s, a)) == Arrivals(s) && Next(s, a).accepted == s.accepted
  {
    var c := GivenUp(s, a);
    var lost := s.lost + [c];
    assert lost[..|lost| - 1] == s.lost;
    assert PastArrivals(lost) + [] == PastArrivals(lost);
  }

  // ------------------------------------------------------- one request, answered

  /** On an idle connection a request that is submitted, sent, answered, processed and
      delivered hands its caller the reply to it, or wakes him, and leaves the connection
      idle. */
  lemma RequestIsAnswered(s: State, c: Completion, f: Frame)
    requires !s.aborted && s.state == CONNECTED_STATE && !Special(c.xid) && f.xid == c.xid
    requires s.toSend == [] && s.sentRequests == [] && s.toProcess == [] && s.completions == [] && s.unanswered == []
    ensures var t := Run(s, [DoSubmit(c), DoFlush(1), DoReceive(f), DoProcess, DoDeliver]);
            && t.delivered == s.delivered + (if c.sync then [] else [Reply(c, f)])
            && t.outstandingSync == s.outstandingSync && t.lost == s.lost && t.state == CONNECTED_STATE
            && t.toSend == [] && t.sentRequests == [] && t.toProcess == [] && t.completions == [] && t.unanswered == []
  {
    FiveSteps(s, DoSubmit(c), DoFlush(1), DoReceive(f), DoProcess, DoDeliver);
    var s1 := Submit(s, c);
    var s2 := Flush(s1, 1);
    assert s1.toSend == [c.xid] && s1.sentRequests == [c];
    assert Ordinary([c.xid]) == [c.xid] + Ordinary([c.xid][1..]) == [c.xid];
    assert s2.toSend == [] && s2.unanswered == [c.xid] && s2.state == CONNECTED_STATE;
    Answered(s2, c, f);
    assert s.delivered + [] == s.delivered;
  }

  lemma Answered(s: State, c: Completion, f: Frame)
    requires !s.aborted && s.state == CONNECTED_STATE && !Special(c.xid) && f.xid == c.xid
    requires s.toSend == [] && s.sentRequests == [c] && s.toProcess == [] && s.completions == []
    requires s.unanswered == [c.xid]
    ensures var t := Next(Next(Next(s, DoReceive(f)), DoProcess), DoDeliver);
            && t.delivered == s.delivered + (if c.sync then [] else [Reply(c, f)])
            && t.outstandingSync == s.outstandingSync - (if c.sync then 1 else 0)
            && t.lost == s.lost && t.state == CONNECTED_STATE
            && t.toSend == [] && t.sentRequests == [] && t.toProcess == [] && t.completions == [] && t.unanswered == []
  {
    var s1 := Receive(s, f);
    assert s1.toProcess == [f];
    var s2 := ProcessOne(s1);
    assert s2.toProcess == [] && s2.sentRequests == [] && s2.unanswered == [];
    assert s2.completions == if c.sync then [] else [Reply(c, f)];
    assert s.delivered + [] == s.delivered;
  }

  // ------------------------------------------------------------------- zxids

  /** The zxid of the last frame that has one, 0 if there is none. */
  function LastZxid(fs: seq<Frame>): int {
    if fs == [] then 0
    else if fs[|fs| - 1].zxid > 0 then fs[|fs| - 1].zxid
    else LastZxid(fs[..|fs| - 1])
  }

  /** What is needed of the record of frames. */
  predicate Tidy(s: State) {
    Sound(s.lost) && s.handled <= |s.received| && s.toProcess == s.received[s.handled..]
  }

  function Processed(s: State): seq<Frame>
    requires Tidy(s)
  {
    ProcessedBefore(s.lost) + s.received[..s.handled]
  }

  predicate ZxidKept(s: State)
    requires Tidy(s)
  {
    s.lastZxid == LastZxid(Processed(s))
  }

  lemma LastZxidSnoc(fs: seq<Frame>, f: Frame)
    ensures LastZxid(fs + [f]) == if f.zxid > 0 then f.zxid else LastZxid(fs)
  {
    assert (fs + [f])[..|fs|] == fs;
  }

  lemma {:induction false} ProcessedSnoc(cs: seq<Connection>, c: Connection)
    requires Sound(cs) && Sound(cs + [c]) && c.handled <= |c.received|
    ensures ProcessedBefore(cs + [c]) == ProcessedBefore(cs) + c.received[..c.handled]
  {
    if cs == [] {
      assert [c][1..] == [] && cs + [c] == [c];
      assert c.received[..c.handled] + [] == c.received[..c.handled];
    } else {
      assert (cs + [c])[1..] == cs[1..] + [c];
      ProcessedSnoc(cs[1..], c);
      Assoc(cs[0].received[..cs[0].handled], ProcessedBefore(cs[1..]), c.received[..c.handled]);
    }
  }

  /** One more frame processed. */
  lemma OneProcessed(s: State)
    requires Tidy(s) && s.toProcess != []
    ensures var f := s.toProcess[0];
            && ProcessedBefore(s.lost) + s.received[..s.handled + 1] == Processed(s) + [f]
            && LastZxid(Processed(s) + [f]) == if f.zxid > 0 then f.zxid else LastZxid(Processed(s))
  {
    var f := s.toProcess[0];
    assert s.received[..s.handled + 1] == s.received[..s.handled] + [f];
    Assoc(ProcessedBefore(s.lost), s.received[..s.handled], [f]);
    LastZxidSnoc(Processed(s), f);
  }

  lemma FailZxid(s: State, a: Step)
    requires Tidy(s) && Tidy(Next(s, a)) && ZxidKept(s) && Failure(s, a).Some?
    ensures ZxidKept(Next(s, a))
  {
    var t := Next(s, a);
    var c := GivenUp(s, a);
    if a.DoProcess? { OneProcessed(s); }
    ProcessedSnoc(s.lost, c);
    assert Processed(t) == ProcessedBefore(t.lost) + [] == ProcessedBefore(t.lost);
  }

  lemma ProcessZxid(s: State)
    requires Tidy(s) && Tidy(ProcessOne(s)) && ZxidKept(s) && !s.aborted && Failure(s, DoProcess) == None
    ensures ZxidKept(ProcessOne(s))
  {
    if s.toProcess != [] {
      OneProcessed(s);
      FrameTaken(s);
    }
  }

  lemma FrameTaken(s: State)
    requires !s.aborted && s.toProcess != [] && Failure(s, DoProcess) == None
    ensures var t := ProcessOne(s);
            && t.lost == s.lost && t.received == s.received && t.handled == s.handled + 1
            && t.lastZxid == TakeFrame(s).lastZxid
  {
  }

  lemma SameZxid(s: State, t: State)
    requires Tidy(s) && ZxidKept(s) && Tidy(t) && t.lost == s.lost && t.handled == s.handled
    requires s.received <= t.received && t.lastZxid == s.lastZxid
    ensures ZxidKept(t)
  {
    assert t.received[..t.handled] == s.received[..s.handled];
  }

  lemma StepZxid(s: State, a: Step)
    requires Tidy(s) && Tidy(Next(s, a)) && ZxidKept(s)
    ensures ZxidKept(Next(s, a))
  {
    if Failure(s, a).Some? {
      FailZxid(s, a);
    } else if !s.aborted && a.DoProcess? {
      ProcessZxid(s);
    } else {
      OtherSteps(s, a);
      SameZxid(s, Next(s, a));
    }
  }

  lemma OtherSteps(s: State, a: Step)
    requires Failure(s, a) == None && (s.aborted || !a.DoProcess?)
    ensures var t := Next(s, a);
            t.lost == s.lost && t.handled == s.handled && s.received <= t.received && t.lastZxid == s.lastZxid
  {
  }

  lemma {:induction false} RunZxid(s: State, steps: seq<Step>)
    requires Exact(s) && Tidy(s) && ZxidKept(s)
    ensures var t := Run(s, steps); Tidy(t) && ZxidKept(t)
    decreases |steps|
  {
    if steps != [] {
      StepKeeps(s, steps[0]);
      StepZxid(s, steps[0]);
      RunZxid(Next(s, steps[0]), steps[1..]);
    }
  }

  /** Over every run the zxid that the next handshake will claim is that of the last frame
      processed, on any connection, that had one. */
  lemma LastZxidIsLastProcessed(addrsCount: nat, steps: seq<Step>)
    ensures var s := Run(Init(addrsCount), steps);
            Tidy(s) && s.lastZxid == LastZxid(ProcessedBefore(s.lost) + s.received[..s.handled])
  {
    RunZxid(Init(addrsCount), steps);
  }
}
