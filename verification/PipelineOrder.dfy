/** Requests and their replies along every run: which steps keep the queues aligned, and
    that replies meet their requests if the server answers in order. */
module PipelineOrder {
  import opened Prelude
  import opened ClientPipeline
  import opened PipelineFifo

  /** The outstanding requests are those sent and unanswered on this connection
      followed by those still queued to be sent, special packets apart. */
  ghost predicate Aligned(s: State) {
    Xids(s.sentRequests) == s.unanswered + Ordinary(s.toSend)
  }

  // ---------------------------------------------- which steps keep the alignment

  /** Step a takes a reply for the oldest request although all requests outstanding still
      wait to be sent. */
  predicate Premature(s: State, a: Step) {
    && a.DoProcess? && !s.aborted && s.toProcess != [] && !Special(s.toProcess[0].xid)
    && s.sentRequests != [] && s.sentRequests[0].xid == s.toProcess[0].xid
    && |s.sentRequests| <= |Ordinary(s.toSend)|
  }

  lemma {:induction false} XidsLength(cs: seq<Completion>)
    ensures |Xids(cs)| == |cs|
  {
    if cs != [] { XidsLength(cs[1..]); }
  }

  lemma XidsAppend(cs: seq<Completion>, c: Completion)
    ensures Xids(cs + [c]) == Xids(cs) + [c.xid]
  {
    XidsConcat(cs, [c]);
    assert [c][1..] == [];
  }

  lemma OrdinaryAppend(xs: seq<int>, xid: int)
    requires !Special(xid)
    ensures Ordinary(xs + [xid]) == Ordinary(xs) + [xid]
  {
    OrdinaryConcat(xs, [xid]);
    assert [xid][1..] == [];
  }

  lemma SubmitAligned(s: State, c: Completion)
    requires Aligned(s) && !Special(c.xid)
    ensures Aligned(Submit(s, c))
  {
    XidsAppend(s.sentRequests, c);
    OrdinaryAppend(s.toSend, c.xid);
    Assoc(s.unanswered, Ordinary(s.toSend), [c.xid]);
  }

  lemma SpecialAround(front: seq<int>, xs: seq<int>, back: seq<int>)
    requires SpecialAll(front) && SpecialAll(back)
    ensures Ordinary(front + xs + back) == Ordinary(xs)
  {
    OrdinaryConcat(front + xs, back);
    OrdinaryConcat(front, xs);
    SpecialNotOrdinary(front);
    SpecialNotOrdinary(back);
  }

  lemma SpecialInFront(front: seq<int>, xs: seq<int>)
    requires SpecialAll(front)
    ensures Ordinary(front + xs) == Ordinary(xs)
  {
    SpecialAround(front, xs, []);
    assert front + xs + [] == front + xs;
  }

  lemma SpecialBehind(xs: seq<int>, back: seq<int>)
    requires SpecialAll(back)
    ensures Ordinary(xs + back) == Ordinary(xs)
  {
    SpecialAround([], xs, back);
    assert [] + xs == xs;
  }

  lemma FlushAligned(s: State, n: nat)
    requires Aligned(s)
    ensures Aligned(Flush(s, n))
  {
    var k := if n < |s.toSend| then n else |s.toSend|;
    assert s.toSend == s.toSend[..k] + s.toSend[k..];
    OrdinaryConcat(s.toSend[..k], s.toSend[k..]);
    Assoc(s.unanswered, Ordinary(s.toSend[..k]), Ordinary(s.toSend[k..]));
  }

  lemma ErrorAligned(s: State, rc: int)
    ensures Aligned(HandleError(s, rc))
  {
  }

  /** A reply bearing the number of the oldest request keeps the queues aligned exactly if
      some request was sent and unanswered, that is, if more requests are outstanding than
      still wait to be sent. A reply to a request not yet sent breaks the alignment. */
  lemma ReplyKeepsAlignmentIff(s: State)
    requires Aligned(s) && s.toProcess != [] && !Special(s.toProcess[0].xid)
    requires s.sentRequests != [] && s.sentRequests[0].xid == s.toProcess[0].xid
    ensures Aligned(ProcessOne(s)) <==> s.unanswered != []
    ensures Aligned(ProcessOne(s)) <==> |s.sentRequests| > |Ordinary(s.toSend)|
  {
    var sent := Xids(s.sentRequests);
    XidsLength(s.sentRequests);
    assert sent[1..] == Xids(s.sentRequests[1..]);
    if s.unanswered != [] {
      assert sent[1..] == s.unanswered[1..] + Ordinary(s.toSend);
    } else {
      assert |sent| == |Ordinary(s.toSend)|;
    }
  }

  lemma ProcessAlignedIff(s: State)
    requires Aligned(s) && !s.aborted
    ensures Aligned(ProcessOne(s)) <==> !Premature(s, DoProcess)
  {
    if s.toProcess != [] {
      var f := s.toProcess[0];
      if f.xid == AUTH_XID && f.err != 0 {
        ErrorAligned(TakeFrame(s).(state := AUTH_FAILED_STATE), ZAUTHFAILED);
      } else if !Special(f.xid) && s.sentRequests != [] {
        if s.sentRequests[0].xid == f.xid {
          ReplyKeepsAlignmentIff(s);
        } else {
          ErrorAligned(TakeFrame(s).(mismatched := true), ZRUNTIMEINCONSISTENCY);
        }
      }
    }
  }

  lemma ConnectAligned(s: State, a: Step)
    requires Aligned(s) && Legal(a)
    requires a.DoInterest? || a.DoPrime? || a.DoEstablished? || a.DoExpired? || a.DoFail?
    ensures Aligned(Next(s, a))
  {
    match a
    case DoFail(rc) => ErrorAligned(s, rc);
    case DoInterest(how) => if how.Failed? { ErrorAligned(s, how.rc); }
    case DoPrime =>
    case DoEstablished(front) => SpecialInFront(front, s.toSend);
    case DoExpired => ErrorAligned(s.(state := EXPIRED_SESSION_STATE), ZSESSIONEXPIRED);
  }

  /** Of all steps, whatever the server sends, exactly the premature ones break the
      alignment. */
  lemma StepKeepsAlignmentIff(s: State, a: Step)
    requires Aligned(s) && Legal(a)
    ensures Aligned(Next(s, a)) <==> !Premature(s, a)
  {
    if !s.aborted {
      match a
      case DoSubmit(c) => SubmitAligned(s, c);
      case DoPing => SpecialBehind(s.toSend, [PING_XID]);
      case DoFront(xid) => SpecialInFront([xid], s.toSend);
      case DoFlush(n) => FlushAligned(s, n);
      case DoReceive(f) =>
      case DoProcess => ProcessAlignedIff(s);
      case DoDeliver =>
      case _ => ConnectAligned(s, a);
    }
  }

  ghost predicate AlignedAfter(s: State, steps: seq<Step>, n: nat)
    requires n <= |steps|
  {
    Aligned(Run(s, steps[..n]))
  }

  predicate PrematureAt(s: State, steps: seq<Step>, n: nat)
    requires n < |steps|
  {
    Premature(Run(s, steps[..n]), steps[n])
  }

  lemma NextAlignedIff(s: State, steps: seq<Step>, n: nat)
    requires n < |steps| && LegalRun(steps) && AlignedAfter(s, steps, n)
    ensures AlignedAfter(s, steps, n + 1) <==> !PrematureAt(s, steps, n)
  {
    assert steps[..n + 1] == steps[..n] + [steps[n]];
    RunSnoc(s, steps[..n], steps[n]);
    StepKeepsAlignmentIff(Run(s, steps[..n]), steps[n]);
  }

  lemma {:induction false} NonePremature(s: State, steps: seq<Step>, n: nat)
    requires Aligned(s) && LegalRun(steps) && n <= |steps|
    requires forall i | 0 <= i < |steps| :: !PrematureAt(s, steps, i)
    ensures AlignedAfter(s, steps, n)
    decreases n
  {
    if n > 0 {
      NonePremature(s, steps, n - 1);
      NextAlignedIff(s, steps, n - 1);
    }
  }

  /** The queues are aligned in every state of a run if and only if none of its steps is
      premature. */
  lemma RunKeepsAlignmentIff(s: State, steps: seq<Step>)
    requires Aligned(s) && LegalRun(steps)
    ensures (forall n | 0 <= n <= |steps| :: AlignedAfter(s, steps, n)) <==>
            (forall n | 0 <= n < |steps| :: !PrematureAt(s, steps, n))
  {
    if forall n | 0 <= n <= |steps| :: AlignedAfter(s, steps, n) {
      forall n | 0 <= n < |steps| ensures !PrematureAt(s, steps, n) {
        assert AlignedAfter(s, steps, n) && AlignedAfter(s, steps, n + 1);
        NextAlignedIff(s, steps, n);
      }
    }
    if forall n | 0 <= n < |steps| :: !PrematureAt(s, steps, n) {
      forall n | 0 <= n <= |steps| ensures AlignedAfter(s, steps, n) { NonePremature(s, steps, n); }
    }
  }

  /** Five steps that a server can bring about by answering a request it has not got:
      connect, establish the session, submit, receive, process. */
  function EarlyReply(c: Completion, f: Frame): seq<Step> {
    [DoInterest(Primed), DoEstablished([]), DoSubmit(c), DoReceive(f), DoProcess]
  }

  lemma EarlyReplyMisaligns(addrsCount: nat, c: Completion, f: Frame)
    requires addrsCount > 0 && !Special(c.xid) && f.xid == c.xid
    ensures LegalRun(EarlyReply(c, f)) && !Aligned(Run(Init(addrsCount), EarlyReply(c, f)))
  {
    var s := Submit(Established(Interest(Init(addrsCount), Primed), []), c);
    EarlyReplyRun(addrsCount, c, f);
    EarlyReplyBreaks(s, c, f);
  }

  lemma EarlyReplyBreaks(s: State, c: Completion, f: Frame)
    requires s.toSend == [c.xid] && s.sentRequests == [c] && s.toProcess == [] && s.unanswered == []
    requires s.state == CONNECTED_STATE && !Special(c.xid) && f.xid == c.xid
    ensures !Aligned(ProcessOne(Receive(s, f)))
  {
    var t := ProcessOne(Receive(s, f));
    assert t.toSend == [c.xid] && t.sentRequests == [] && t.unanswered == [];
    assert Ordinary([c.xid]) == [c.xid] + Ordinary([c.xid][1..]);
  }

  lemma RunCons(s: State, a: Step, rest: seq<Step>)
    ensures Run(s, [a] + rest) == Run(Next(s, a), rest)
  {
    assert ([a] + rest)[1..] == rest;
  }

  lemma TwoSteps(s: State, a: Step, b: Step, rest: seq<Step>)
    ensures Run(s, [a, b] + rest) == Run(Next(Next(s, a), b), rest)
  {
    RunCons(Next(s, a), b, rest);
    RunCons(s, a, [b] + rest);
    assert [a, b] + rest == [a] + ([b] + rest);
  }

  lemma FiveSteps(s: State, a: Step, b: Step, c: Step, d: Step, e: Step)
    ensures Run(s, [a, b, c, d, e]) == Next(Next(Next(Next(Next(s, a), b), c), d), e)
  {
    var s2 := Next(Next(s, a), b);
    TwoSteps(s, a, b, [c, d, e]);
    TwoSteps(s2, c, d, [e]);
    RunCons(Next(Next(s2, c), d), e, []);
    FiveParts(a, b, c, d, e);
  }

  lemma FiveParts(a: Step, b: Step, c: Step, d: Step, e: Step)
    ensures [a, b, c, d, e] == [a, b] + [c, d, e] && [c, d, e] == [c, d] + [e] && [e] == [e] + []
  {
  }

  lemma Connected(addrsCount: nat)
    requires addrsCount > 0
    ensures var s := Established(Interest(Init(addrsCount), Primed), []);
            && s.toSend == [] && s.sentRequests == [] && s.toProcess == [] && s.unanswered == []
            && s.state == CONNECTED_STATE && !s.aborted && !Interest(Init(addrsCount), Primed).aborted
  {
  }

  lemma EarlyReplyRun(addrsCount: nat, c: Completion, f: Frame)
    requires addrsCount > 0 && !Special(c.xid)
    ensures var s := Submit(Established(Interest(Init(addrsCount), Primed), []), c);
            && s.toSend == [c.xid] && s.sentRequests == [c] && s.toProcess == [] && s.unanswered == []
            && s.state == CONNECTED_STATE
            && Run(Init(addrsCount), EarlyReply(c, f)) == ProcessOne(Receive(s, f))
  {
    FiveSteps(Init(addrsCount), DoInterest(Primed), DoEstablished([]), DoSubmit(c), DoReceive(f), DoProcess);
    Connected(addrsCount);
  }

  // ------------------------------------------ a server that answers in order

  /** The replies received and not yet processed answer the oldest requests sent. */
  ghost predicate RepliesDue(s: State) {
    Ordinary(FrameXids(s.toProcess)) <= s.unanswered
  }

  ghost predicate Matching(s: State) {
    Aligned(s) && RepliesDue(s) && !s.aborted && !s.mismatched
  }

  /** With matching queues the head reply finds its request: the branch for an
      unexpected reply and the failing assertion are not taken. */
  lemma HeadReplyMatches(s: State)
    requires Matching(s) && s.toProcess != [] && !Special(s.toProcess[0].xid)
    ensures s.sentRequests != [] && s.unanswered != []
    ensures s.sentRequests[0].xid == s.toProcess[0].xid == s.unanswered[0]
  {
    var xs := Ordinary(FrameXids(s.toProcess));
    assert xs[0] == s.toProcess[0].xid;
    assert s.unanswered[0] == xs[0];
    assert Xids(s.sentRequests)[0] == s.unanswered[0];
  }

  lemma NotPremature(s: State, a: Step)
    requires Matching(s)
    ensures !Premature(s, a)
  {
    if a.DoProcess? && s.toProcess != [] && !Special(s.toProcess[0].xid) {
      HeadReplyMatches(s);
      XidsLength(s.sentRequests);
    }
  }

  lemma ReceiveDue(s: State, f: Frame)
    requires RepliesDue(s) && InOrder(s, DoReceive(f))
    ensures RepliesDue(Receive(s, f))
  {
    FrameXidsConcat(s.toProcess, [f]);
    assert [f][1..] == [] && FrameXids([f]) == [f.xid];
    OrdinaryConcat(FrameXids(s.toProcess), [f.xid]);
    assert Ordinary(FrameXids(s.toProcess)) + [] == Ordinary(FrameXids(s.toProcess));
  }

  /** The rest of a step that keeps the queues matching. */
  ghost predicate Due(s: State) {
    RepliesDue(s) && !s.aborted && !s.mismatched
  }

  lemma ErrorDue(s: State, rc: int)
    requires !s.aborted && !s.mismatched
    ensures Due(HandleError(s, rc))
  {
  }

  lemma SpecialDue(s: State)
    requires Due(s) && s.toProcess != [] && Special(s.toProcess[0].xid)
    ensures Due(ProcessOne(s))
  {
    var f := s.toProcess[0];
    if f.xid == AUTH_XID && f.err != 0 {
      ErrorDue(TakeFrame(s).(state := AUTH_FAILED_STATE), ZAUTHFAILED);
    } else {
      assert ProcessOne(s).toProcess == s.toProcess[1..];
    }
  }

  lemma ReplyDue(s: State)
    requires Matching(s) && s.toProcess != [] && !Special(s.toProcess[0].xid)
    ensures Due(ProcessReply(s))
  {
    HeadReplyMatches(s);
    var xs := Ordinary(FrameXids(s.toProcess));
    assert xs[1..] == Ordinary(FrameXids(s.toProcess[1..]));
  }

  lemma ConnectDue(s: State, a: Step)
    requires Due(s) && (a.DoInterest? || a.DoPrime? || a.DoEstablished? || a.DoExpired? || a.DoFail?)
    ensures Due(Next(s, a))
  {
    match a
    case DoFail(rc) => ErrorDue(s, rc);
    case DoInterest(how) => if how.Failed? { ErrorDue(s, how.rc); }
    case DoPrime =>
    case DoEstablished(front) =>
    case DoExpired => ErrorDue(s.(state := EXPIRED_SESSION_STATE), ZSESSIONEXPIRED);
  }

  lemma StepDue(s: State, a: Step)
    requires Matching(s) && InOrder(s, a)
    ensures Due(Next(s, a))
  {
    match a
    case DoSubmit(c) =>
    case DoPing =>
    case DoFront(xid) =>
    case DoFlush(n) =>
    case DoReceive(f) => ReceiveDue(s, f);
    case DoProcess =>
      if s.toProcess != [] {
        if Special(s.toProcess[0].xid) { SpecialDue(s); } else { ReplyDue(s); }
      }
    case DoDeliver =>
    case _ => ConnectDue(s, a);
  }

  lemma {:induction false} RunMatches(s: State, steps: seq<Step>)
    requires Matching(s) && LegalRun(steps) && InOrderRun(s, steps)
    ensures Matching(Run(s, steps))
    decreases |steps|
  {
    if steps != [] {
      NotPremature(s, steps[0]);
      StepKeepsAlignmentIff(s, steps[0]);
      StepDue(s, steps[0]);
      RunMatches(Next(s, steps[0]), steps[1..]);
    }
  }

  /** Along any run against a server that answers in order what it has received,
      across any number of lost connections: the outstanding requests are the sent and
      unanswered ones followed by the unsent ones, no reply finds the queue empty, and
      none is taken for another request's. */
  lemma RepliesMeetRequests(addrsCount: nat, steps: seq<Step>)
    requires LegalRun(steps) && InOrderRun(Init(addrsCount), steps)
    ensures var s := Run(Init(addrsCount), steps);
            Aligned(s) && RepliesDue(s) && !s.aborted && !s.mismatched
  {
    RunMatches(Init(addrsCount), steps);
  }
}
