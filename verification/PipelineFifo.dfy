/** Requests are conserved, and completed first in, first out, over every run. */
module PipelineFifo {
  import opened Prelude
  import opened ClientPipeline

  // ------------------------------------------- projections and concatenation

  lemma {:induction false} OrdinaryConcat(a: seq<int>, b: seq<int>)
    ensures Ordinary(a + b) == Ordinary(a) + Ordinary(b)
  {
    if a == [] {
      assert a + b == b;
    } else {
      assert (a + b)[1..] == a[1..] + b;
      OrdinaryConcat(a[1..], b);
    }
  }

  lemma {:induction false} XidsConcat(a: seq<Completion>, b: seq<Completion>)
    ensures Xids(a + b) == Xids(a) + Xids(b)
  {
    if a == [] {
      assert a + b == b;
    } else {
      assert (a + b)[1..] == a[1..] + b;
      XidsConcat(a[1..], b);
    }
  }

  lemma {:induction false} FrameXidsConcat(a: seq<Frame>, b: seq<Frame>)
    ensures FrameXids(a + b) == FrameXids(a) + FrameXids(b)
  {
    if a == [] {
      assert a + b == b;
    } else {
      assert (a + b)[1..] == a[1..] + b;
      FrameXidsConcat(a[1..], b);
    }
  }

  lemma {:induction false} AsyncConcat(a: seq<Completion>, b: seq<Completion>)
    ensures Asynchronous(a + b) == Asynchronous(a) + Asynchronous(b)
    ensures SyncCount(a + b) == SyncCount(a) + SyncCount(b)
  {
    if a == [] {
      assert a + b == b;
    } else {
      assert (a + b)[1..] == a[1..] + b;
      AsyncConcat(a[1..], b);
    }
  }

  lemma {:induction false} CompletedConcat(a: seq<Item>, b: seq<Item>)
    ensures Completed(a + b) == Completed(a) + Completed(b)
  {
    if a == [] {
      assert a + b == b;
    } else {
      assert (a + b)[1..] == a[1..] + b;
      CompletedConcat(a[1..], b);
      Assoc(if a[0].Reply? || a[0].Faked? then [a[0].c] else [], Completed(a[1..]), Completed(b));
    }
  }

  lemma {:induction false} FakedCompleted(cs: seq<Completion>, rc: int)
    ensures Completed(FakedReplies(cs, rc)) == Asynchronous(cs)
  {
    if cs != [] {
      FakedCompleted(cs[1..], rc);
      var first := if cs[0].sync then [] else [Faked(cs[0], rc)];
      CompletedConcat(first, FakedReplies(cs[1..], rc));
      if !cs[0].sync { assert [Faked(cs[0], rc)][1..] == []; }
    }
  }

  lemma {:induction false} SpecialNotOrdinary(xs: seq<int>)
    requires SpecialAll(xs)
    ensures Ordinary(xs) == []
  {
    if xs != [] { SpecialNotOrdinary(xs[1..]); }
  }

  lemma {:induction false} RunConcat(s: State, a: seq<Step>, b: seq<Step>)
    ensures Run(s, a + b) == Run(Run(s, a), b)
    decreases |a|
  {
    if a == [] {
      assert a + b == b;
    } else {
      assert (a + b)[1..] == a[1..] + b;
      RunConcat(Next(s, a[0]), a[1..], b);
    }
  }

  lemma RunOne(s: State, a: Step)
    ensures Run(s, [a]) == Next(s, a)
  {
    assert [a][1..] == [] && Run(Next(s, a), []) == Next(s, a);
  }

  lemma RunSnoc(s: State, steps: seq<Step>, a: Step)
    ensures Run(s, steps + [a]) == Next(Run(s, steps), a)
  {
    RunConcat(s, steps, [a]);
    RunOne(Run(s, steps), a);
  }

  // ---------------------------------------- conservation and order of requests

  /** Accepted asynchronous requests, in the order of submission, are those
      delivered, then those queued for delivery, then those outstanding. */
  ghost predicate Fifo(s: State) {
    s.accepted == Completed(s.delivered) + Completed(s.completions) + Asynchronous(s.sentRequests)
  }

  ghost predicate Conserved(s: State) {
    Fifo(s) && s.outstandingSync == SyncCount(s.sentRequests)
  }

  lemma AppendItem(s: State, i: Item)
    ensures Completed(s.completions + [i]) == Completed(s.completions) + Completed([i])
    ensures Completed([i]) == if i.Reply? || i.Faked? then [i.c] else []
  {
    CompletedConcat(s.completions, [i]);
    assert [i][1..] == [];
  }

  lemma AppendOther(items: seq<Item>, i: Item)
    requires !i.Reply? && !i.Faked?
    ensures Completed(items + [i]) == Completed(items)
  {
    CompletedConcat(items, [i]);
    assert [i][1..] == [];
    assert Completed(items) + [] == Completed(items);
  }

  lemma SubmitConserves(s: State, c: Completion)
    requires Conserved(s)
    ensures Conserved(Submit(s, c))
  {
    var one := if c.sync then [] else [c];
    AsyncConcat(s.sentRequests, [c]);
    assert [c][1..] == [] && Asynchronous([c]) == one + Asynchronous([c][1..]);
    Assoc(Completed(s.delivered) + Completed(s.completions), Asynchronous(s.sentRequests), one);
    assert Asynchronous(s.sentRequests) + [] == Asynchronous(s.sentRequests);
  }

  lemma EventConserves(s: State, state: int)
    requires Conserved(s)
    ensures Conserved(QueueSessionEvent(s, state))
  {
    AppendOther(s.completions, SessionEvent(state));
  }

  lemma CleanupConserves(s: State, rc: int)
    requires Conserved(s)
    ensures Conserved(CleanupBufs(s, rc))
  {
    CompletedConcat(s.completions, FakedReplies(s.sentRequests, rc));
    FakedCompleted(s.sentRequests, rc);
    var async := Asynchronous(s.sentRequests);
    Assoc(Completed(s.delivered), Completed(s.completions), async);
    assert Completed(s.delivered) + (Completed(s.completions) + async) + [] ==
           Completed(s.delivered) + (Completed(s.completions) + async);
  }

  lemma ErrorConserves(s: State, rc: int)
    requires Conserved(s)
    ensures Conserved(HandleError(s, rc))
  {
    if Unrecoverable(s) { EventConserves(s, s.state); }
    if s.state == CONNECTED_STATE { EventConserves(s, CONNECTING_STATE); }
    CleanupConserves(AnnounceLoss(s), rc);
  }

  lemma Regroup<T>(a: seq<T>, b: seq<T>, x: seq<T>, c: seq<T>)
    ensures a + b + (x + c) == a + (b + x) + c
    ensures a + (x + c) == (a + x) + c
  {
  }

  lemma MatchConserves(s: State)
    requires s.toProcess != [] && s.sentRequests != [] && Conserved(s)
    requires s.sentRequests[0].xid == s.toProcess[0].xid
    ensures Conserved(ProcessReply(s))
  {
    var f, c := s.toProcess[0], s.sentRequests[0];
    var rest := Asynchronous(s.sentRequests[1..]);
    if c.sync {
      assert [] + rest == rest;
    } else {
      AppendItem(s, Reply(c, f));
      Regroup(Completed(s.delivered), Completed(s.completions), [c], rest);
    }
  }

  lemma ProcessConserves(s: State)
    requires Conserved(s)
    ensures Conserved(ProcessOne(s))
  {
    if s.toProcess != [] {
      var f := s.toProcess[0];
      if f.xid == WATCHER_EVENT_XID {
        NotifyConserves(s);
      } else if f.xid == AUTH_XID && f.err != 0 {
        ErrorConserves(TakeFrame(s).(state := AUTH_FAILED_STATE), ZAUTHFAILED);
      } else if !Special(f.xid) && s.sentRequests != [] {
        if s.sentRequests[0].xid == f.xid {
          MatchConserves(s);
        } else {
          ErrorConserves(TakeFrame(s).(mismatched := true), ZRUNTIMEINCONSISTENCY);
        }
      }
    }
  }

  lemma NotifyConserves(s: State)
    requires s.toProcess != [] && Conserved(s)
    ensures Conserved(TakeFrame(s).(completions := s.completions + [Notification(s.toProcess[0])]))
  {
    AppendOther(s.completions, Notification(s.toProcess[0]));
  }

  lemma HeadItem(items: seq<Item>)
    requires items != []
    ensures Completed(items) == Completed(items[..1]) + Completed(items[1..])
  {
    assert items == items[..1] + items[1..];
    CompletedConcat(items[..1], items[1..]);
  }

  lemma DeliverConserves(s: State)
    requires Conserved(s)
    ensures Conserved(DeliverOne(s))
  {
    if s.completions != [] {
      var first, rest := s.completions[..1], s.completions[1..];
      assert first == [s.completions[0]];
      HeadItem(s.completions);
      CompletedConcat(s.delivered, first);
      Regroup(Completed(s.delivered), [], Completed(first), Completed(rest));
    }
  }

  lemma EstablishedConserves(s: State, front: seq<int>)
    requires Conserved(s)
    ensures Conserved(Established(s, front))
  {
    var s1 := s.(state := CONNECTED_STATE, toSend := front + s.toSend);
    assert Conserved(s1);
    EventConserves(s1, CONNECTED_STATE);
  }

  lemma InterestConserves(s: State, how: Connect)
    requires Conserved(s)
    ensures Conserved(Interest(s, how))
  {
    if Unrecoverable(s) || s.fdOpen {
      assert Interest(s, how) == s;
    } else if how.Failed? && s.connectIndex != s.addrsCount {
      ErrorConserves(s, how.rc);
    } else {
      SameRequests(s, Interest(s, how));
    }
  }

  lemma SameRequests(s: State, t: State)
    requires Conserved(s) && t.accepted == s.accepted && t.delivered == s.delivered
    requires Completed(t.completions) == Completed(s.completions)
    requires t.sentRequests == s.sentRequests && t.outstandingSync == s.outstandingSync
    ensures Conserved(t)
  {
  }

  lemma ExpiredConserves(s: State)
    requires Conserved(s)
    ensures Conserved(Expired(s))
  {
    var s1 := s.(state := EXPIRED_SESSION_STATE);
    assert Conserved(s1);
    ErrorConserves(s1, ZSESSIONEXPIRED);
  }

  lemma StepConserves(s: State, a: Step)
    requires Conserved(s)
    ensures Conserved(Next(s, a))
  {
    if !s.aborted {
      match a
      case DoSubmit(c) => SubmitConserves(s, c);
      case DoPing =>
      case DoFront(xid) =>
      case DoFlush(n) =>
      case DoReceive(f) =>
      case DoProcess => ProcessConserves(s);
      case DoDeliver => DeliverConserves(s);
      case DoFail(rc) => ErrorConserves(s, rc);
      case DoInterest(how) => InterestConserves(s, how);
      case DoPrime =>
      case DoEstablished(front) => EstablishedConserves(s, front);
      case DoExpired => ExpiredConserves(s);
    }
  }

  lemma {:induction false} RunConserves(s: State, steps: seq<Step>)
    requires Conserved(s)
    ensures Conserved(Run(s, steps))
    decreases |steps|
  {
    if steps != [] {
      StepConserves(s, steps[0]);
      RunConserves(Next(s, steps[0]), steps[1..]);
    }
  }

  /** In every state reachable by any sequence of submissions, sends, receipts of
      arbitrary frames, failures and deliveries, requests are conserved and first in,
      first out. */
  lemma RequestsAreFifo(addrsCount: nat, steps: seq<Step>)
    ensures var s := Run(Init(addrsCount), steps);
            Fifo(s) && s.outstandingSync == SyncCount(s.sentRequests)
  {
    RunConserves(Init(addrsCount), steps);
  }
}
