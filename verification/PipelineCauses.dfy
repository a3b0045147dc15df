/** Why a request ends with an error: every faked reply carries the code of the step that
    lost the connection, and every such step fakes one for each request it loses. */
module PipelineCauses {
  import opened Prelude
  import opened ClientPipeline
  import opened PipelineFifo

  /** The code with which a step gives up the connection, if it does: the given one for a
      failing socket or a failing connect, -112 for an expired session, -115 for a refused
      authentication, -2 for a reply that is not for the oldest request. */
  function Failure(s: State, a: Step): Option<int> {
    if s.aborted then None
    else
      match a
      case DoFail(rc) => if s.fdOpen && s.state >= 0 then Some(rc) else None
      case DoInterest(Failed(rc)) =>
        if s.state >= 0 && !s.fdOpen && s.connectIndex != s.addrsCount then Some(rc) else None
      case DoExpired => if s.fdOpen && s.state == 2 then Some(-112) else None
      case DoProcess =>
        if s.toProcess == [] then None
        else if s.toProcess[0].xid == -4 then (if s.toProcess[0].err != 0 then Some(-115) else None)
        else if s.toProcess[0].xid in {-1, -2, -8} || s.sentRequests == [] then None
        else if s.sentRequests[0].xid != s.toProcess[0].xid then Some(-2)
        else None
      case _ => None
  }

  /** Everything that was queued for delivery so far. */
  function Queued(s: State): seq<Item> {
    s.delivered + s.completions
  }

  /** Item x is the faked reply for a request that step a loses in state s. */
  ghost predicate Faking(s: State, a: Step, x: Item) {
    x.Faked? && x.c in s.sentRequests && !x.c.sync && Failure(s, a) == Some(x.rc)
  }

  // ---------------------------------------------------------------- one step

  lemma {:induction false} FakedMembers(cs: seq<Completion>, rc: int, x: Item)
    ensures x in FakedReplies(cs, rc) <==> x.Faked? && x.rc == rc && x.c in cs && !x.c.sync
  {
    if cs != [] {
      FakedMembers(cs[1..], rc, x);
      assert cs == [cs[0]] + cs[1..];
    }
  }

  /** What a step adds to the items that were queued before. */
  ghost predicate Adds(s: State, t: State, more: seq<Item>) {
    Queued(t) == Queued(s) + more
  }

  ghost predicate NoFakes(more: seq<Item>) {
    forall x | x in more :: !x.Faked?
  }

  lemma ErrorAdds(s: State, rc: int) returns (news: seq<Item>)
    ensures Adds(s, HandleError(s, rc), news + FakedReplies(s.sentRequests, rc)) && NoFakes(news)
  {
    news := if Unrecoverable(s) then [SessionEvent(s.state)]
            else if s.state == CONNECTED_STATE then [SessionEvent(CONNECTING_STATE)] else [];
    var fakes := FakedReplies(s.sentRequests, rc);
    assert s.completions + [] == s.completions;
    assert HandleError(s, rc).completions == s.completions + news + fakes;
    Assoc(s.completions, news, fakes);
    Assoc(s.delivered, s.completions, news + fakes);
  }

  lemma OtherAdds(s: State, a: Step) returns (more: seq<Item>)
    requires Failure(s, a) == None
    ensures Adds(s, Next(s, a), more) && NoFakes(more)
  {
    more := [];
    assert Queued(s) + [] == Queued(s);
    if !s.aborted {
      if a.DoDeliver? {
        if s.completions != [] {
          assert s.completions == [s.completions[0]] + s.completions[1..];
          Assoc(s.delivered, [s.completions[0]], s.completions[1..]);
        }
      } else if a.DoEstablished? && s.fdOpen && s.state == ASSOCIATING_STATE {
        more := [SessionEvent(CONNECTED_STATE)];
        Assoc(s.delivered, s.completions, more);
      } else if a.DoProcess? && s.toProcess != [] {
        more := ProcessAdds(s);
      }
    }
  }

  lemma ProcessAdds(s: State) returns (more: seq<Item>)
    requires !s.aborted && s.toProcess != [] && Failure(s, DoProcess) == None
    ensures Adds(s, ProcessOne(s), more) && NoFakes(more)
  {
    var f := s.toProcess[0];
    more := [];
    if f.xid == WATCHER_EVENT_XID {
      more := [Notification(f)];
    } else if !Special(f.xid) && s.sentRequests != [] && !s.sentRequests[0].sync {
      more := [Reply(s.sentRequests[0], f)];
    }
    assert s.completions + [] == s.completions;
    assert ProcessOne(s).completions == s.completions + more && ProcessOne(s).delivered == s.delivered;
    Assoc(s.delivered, s.completions, more);
  }

  /** A failing step is the error handling for its code, in a state with the same requests
      outstanding and the same items queued. */
  lemma FailingStep(s: State, a: Step) returns (t: State)
    requires Failure(s, a).Some?
    ensures Next(s, a) == HandleError(t, Failure(s, a).value)
    ensures t.sentRequests == s.sentRequests && Queued(t) == Queued(s) && t.lost == s.lost
    ensures t.received == s.received && t.registered == s.registered && t.accepted == s.accepted
    ensures t.handled == s.handled + (if a.DoProcess? then 1 else 0)
    ensures t.lastZxid == if a.DoProcess? then TakeFrame(s).lastZxid else s.lastZxid
  {
    match a
    case DoFail(rc) => t := s;
    case DoInterest(how) => t := s;
    case DoExpired => t := s.(state := EXPIRED_SESSION_STATE);
    case DoProcess =>
      if s.toProcess[0].xid == AUTH_XID {
        t := TakeFrame(s).(state := AUTH_FAILED_STATE);
      } else {
        t := TakeFrame(s).(mismatched := true);
      }
  }

  /** The faked replies that a step adds are one for each asynchronous request outstanding,
      with the code of the step, if it fails; and none if it does not. */
  lemma StepFakes(s: State, a: Step)
    ensures Queued(s) <= Queued(Next(s, a))
    ensures var more := Queued(Next(s, a))[|Queued(s)|..];
            forall x: Item | x.Faked? :: x in more <==> Faking(s, a, x)
  {
    var more;
    if Failure(s, a) == None {
      more := OtherAdds(s, a);
    } else {
      var t := FailingStep(s, a);
      var news := ErrorAdds(t, Failure(s, a).value);
      more := news + FakedReplies(s.sentRequests, Failure(s, a).value);
      forall x: Item | x.Faked? ensures x in more <==> Faking(s, a, x) {
        FakedMembers(s.sentRequests, Failure(s, a).value, x);
      }
    }
    assert Queued(Next(s, a))[|Queued(s)|..] == more;
  }

  /** A connection is given up by exactly the failing steps, and the record has the code. */
  lemma StepLoses(s: State, a: Step)
    ensures var t := Next(s, a);
            if Failure(s, a) == None then t.lost == s.lost
            else |t.lost| == |s.lost| + 1 && t.lost[|s.lost|].rc == Failure(s, a).value
  {
    if Failure(s, a).Some? { var t := FailingStep(s, a); }
  }

  // -------------------------------------------------------------- whole runs

  /** The state before step n. */
  function Before(addrsCount: nat, steps: seq<Step>, n: nat): State
    requires n <= |steps|
  {
    Run(Init(addrsCount), steps[..n])
  }

  lemma LastStep(addrsCount: nat, steps: seq<Step>, n: nat)
    requires n < |steps|
    ensures Before(addrsCount, steps, n + 1) == Next(Before(addrsCount, steps, n), steps[n])
  {
    assert steps[..n + 1] == steps[..n] + [steps[n]];
    RunSnoc(Init(addrsCount), steps[..n], steps[n]);
  }

  lemma {:induction false} QueueGrows(addrsCount: nat, steps: seq<Step>, m: nat, n: nat)
    requires m <= n <= |steps|
    ensures Queued(Before(addrsCount, steps, m)) <= Queued(Before(addrsCount, steps, n))
    decreases n
  {
    if m < n {
      QueueGrows(addrsCount, steps, m, n - 1);
      LastStep(addrsCount, steps, n - 1);
      StepFakes(Before(addrsCount, steps, n - 1), steps[n - 1]);
    }
  }

  lemma {:induction false} CauseBefore(addrsCount: nat, steps: seq<Step>, n: nat, x: Item)
    requires n <= |steps| && x.Faked? && x in Queued(Before(addrsCount, steps, n))
    ensures exists i: nat :: i < n && Faking(Before(addrsCount, steps, i), steps[i], x)
    decreases n
  {
    if n > 0 {
      var s := Before(addrsCount, steps, n - 1);
      LastStep(addrsCount, steps, n - 1);
      StepFakes(s, steps[n - 1]);
      var t := Next(s, steps[n - 1]);
      assert Queued(t) == Queued(s) + Queued(t)[|Queued(s)|..];
      if x in Queued(s) { CauseBefore(addrsCount, steps, n - 1, x); }
    }
  }

  /** Over every run the faked replies delivered and waiting are exactly those that a step
      which gave up a connection owed to the asynchronous requests outstanding then, each
      with the code of that step. */
  lemma FakedRepliesHaveCause(addrsCount: nat, steps: seq<Step>, x: Item)
    requires x.Faked?
    ensures var s := Run(Init(addrsCount), steps);
            x in s.delivered + s.completions <==>
            exists i: nat :: i < |steps| && Faking(Before(addrsCount, steps, i), steps[i], x)
  {
    assert steps[..|steps|] == steps;
    if x in Queued(Run(Init(addrsCount), steps)) { CauseBefore(addrsCount, steps, |steps|, x); }
    forall i: nat | i < |steps| && Faking(Before(addrsCount, steps, i), steps[i], x)
      ensures x in Queued(Run(Init(addrsCount), steps))
    {
      LastStep(addrsCount, steps, i);
      StepFakes(Before(addrsCount, steps, i), steps[i]);
      QueueGrows(addrsCount, steps, i + 1, |steps|);
      assert x in Queued(Before(addrsCount, steps, i + 1));
    }
  }
}
