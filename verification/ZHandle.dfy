/** The client handle: the fields of the C structure and the functions that work on
    them, each shown to perform steps of the pipeline. The build with threads is
    modelled: completions are delivered by a thread of their own. The queues are
    represented by their contents (see LinkedQueue for the linked form). */
module ZHandle {
  import opened Prelude
  import opened ClientPipeline
  import opened PipelineFifo
  import opened PipelineCauses
  import opened PipelineOutcomes
  import opened PipelineSession
  import Chroot
  import PathScan
  import ZkPath

  const ZCONNECTIONLOSS := -4
  const ZBADARGUMENTS := -8
  const ZNOTHING := -117

  /** What the socket does during one call. */
  datatype Recv =
    | RecvFails
    | Incomplete
    | Whole(f: Frame)
    | Handshake(accepted: bool, front: seq<int>)
  datatype Socket = Socket(refused: bool, primed: bool, room: nat, sendFails: bool, recv: Recv)

  function Repeat(a: Step, n: nat): seq<Step> {
    seq(n, i => a)
  }

  /** The steps one call of check_events performs, and its return code. */
  function CheckSteps(s: State, write: bool, read: bool, k: Socket): (seq<Step>, int) {
    if !s.fdOpen then ([], ZINVALIDSTATE)
    else if write && s.state == CONNECTING_STATE then
      if k.refused || !k.primed then ([DoFail(ZCONNECTIONLOSS)], ZCONNECTIONLOSS) else ([DoPrime], ZOK)
    else
      var sent := if write && s.toSend != [] then [DoFlush(k.room)] else [];
      if sent != [] && k.sendFails && s.state == CONNECTED_STATE then
        (sent + [DoFail(ZCONNECTIONLOSS)], ZCONNECTIONLOSS)
      else if !read then (sent, ZOK)
      else (sent + ReadSteps(k.recv), ReadRc(k.recv))
  }

  /** What reading once does, and its return code. */
  function ReadSteps(recv: Recv): seq<Step> {
    match recv
    case RecvFails => [DoFail(ZCONNECTIONLOSS)]
    case Incomplete => []
    case Whole(f) => [DoReceive(f)]
    case Handshake(ok, front) => if ok then [DoEstablished(front)] else [DoExpired]
  }

  function ReadRc(recv: Recv): int {
    match recv
    case RecvFails => ZCONNECTIONLOSS
    case Incomplete => ZNOTHING
    case Whole(f) => ZOK
    case Handshake(ok, front) => if ok then ZOK else ZSESSIONEXPIRED
  }

  /** Frames come over an established connection, the handshake while associating. */
  predicate Plausible(s: State, k: Socket) {
    && (k.recv.Whole? ==> s.state == CONNECTED_STATE)
    && (k.recv.Handshake? ==> s.state == ASSOCIATING_STATE && SpecialAll(k.recv.front))
  }

  /** The return code for the frame at the head of the queue. */
  function FrameRc(s: State): (rc: int)
    requires s.toProcess != []
    ensures rc <= 0
  {
    var f := s.toProcess[0];
    if f.xid == AUTH_XID && f.err != 0 then ZAUTHFAILED
    else if !Special(f.xid) && (s.sentRequests == [] || s.sentRequests[0].xid != f.xid) then ZRUNTIMEINCONSISTENCY
    else ZOK
  }

  /** That of the processing loop: the first one that is not ZOK. */
  function LoopRc(s: State): int
    decreases |s.toProcess|
  {
    if s.toProcess == [] then ZOK
    else if FrameRc(s) != ZOK then FrameRc(s)
    else LoopRc(ProcessOne(s))
  }

  lemma RoundShape(s: State)
    requires s.toProcess != []
    ensures var t := ProcessOne(s); t.aborted || t.toProcess == [] || t.toProcess == s.toProcess[1..]
  {
  }

  lemma LastRounds(t: State, n: nat)
    requires t.aborted || t.toProcess == [] || |t.toProcess| == n
    ensures Run(t, Repeat(DoProcess, n)) ==
            if t.aborted || t.toProcess == [] then t else Run(t, Repeat(DoProcess, |t.toProcess|))
  {
    if t.aborted || t.toProcess == [] { IdleSteps(t, n); }
  }

  /** One round of that loop. */
  lemma ProcessRound(s: State, t: State)
    requires !s.aborted && s.toProcess != [] && t == ProcessOne(s)
    ensures Run(s, Repeat(DoProcess, |s.toProcess|)) ==
            if t.aborted || t.toProcess == [] then t else Run(t, Repeat(DoProcess, |t.toProcess|))
  {
    RoundShape(s);
    RepeatStep(s, DoProcess, |s.toProcess|);
    LastRounds(t, |s.toProcess| - 1);
  }

  // --------------------------------------------- what the return codes tell

  /** A frame has the code 0 exactly when it neither costs the connection nor stops the
      client; otherwise the connection is given up with its code. */
  lemma FrameRcTells(s: State)
    requires !s.aborted && s.toProcess != []
    ensures var t := ProcessOne(s);
            && (FrameRc(s) == 0 <==> t.lost == s.lost && !t.aborted)
            && (FrameRc(s) != 0 && !t.aborted ==> Failure(s, DoProcess) == Some(FrameRc(s)))
  {
    StepLoses(s, DoProcess);
    StopsIff(s, DoProcess);
  }

  /** The loop has the code 0 exactly when all frames that were there are processed on
      this connection. */
  lemma {:induction false} LoopRcTells(s: State)
    requires !s.aborted
    ensures var t := Run(s, Repeat(DoProcess, |s.toProcess|));
            LoopRc(s) == 0 <==> t.lost == s.lost && !t.aborted
    decreases |s.toProcess|
  {
    if s.toProcess == [] {
      IdleSteps(s, 0);
    } else {
      var t := ProcessOne(s);
      FrameRcTells(s);
      ProcessRound(s, t);
      RoundShape(s);
      if FrameRc(s) == ZOK {
        LoopRcTells(t);
        if t.toProcess == [] { IdleSteps(t, 0); }
      } else {
        EndsHere(s);
      }
    }
  }

  lemma EndsHere(s: State)
    requires !s.aborted && s.toProcess != [] && FrameRc(s) != ZOK
    ensures ProcessOne(s).aborted || ProcessOne(s).toProcess == []
  {
  }

  /** What a step that may give up an open connection tells with code rc. */
  ghost predicate Tells(s: State, a: Step, rc: int) {
    (rc == 0 <==> Next(s, a).fdOpen) && (rc != 0 ==> Failure(s, a) == Some(rc))
  }

  lemma ReadTells(s: State, recv: Recv)
    requires !s.aborted && s.fdOpen && s.state >= 0 && !recv.Incomplete?
    requires (recv.Whole? ==> s.state == CONNECTED_STATE) && (recv.Handshake? ==> s.state == ASSOCIATING_STATE)
    ensures Tells(s, ReadSteps(recv)[0], ReadRc(recv))
  {
  }

  lemma FailTells(s: State)
    requires !s.aborted && s.fdOpen && s.state >= 0
    ensures Tells(s, DoFail(ZCONNECTIONLOSS), ZCONNECTIONLOSS)
  {
  }

  /** Of steps from s on, the code rc tells whether the connection is still open, and why
      the last of them gave it up. */
  ghost predicate AllTells(s: State, steps: seq<Step>, rc: int) {
    var t := Run(s, steps);
    && (rc == 0 || rc == -117 <==> t.fdOpen)
    && (!t.fdOpen ==> steps != [] && Failure(Run(s, steps[..|steps| - 1]), steps[|steps| - 1]) == Some(rc))
  }

  lemma LastTells(s: State, sent: seq<Step>, a: Step, rc: int)
    requires Tells(Run(s, sent), a, rc) && rc != ZNOTHING
    ensures AllTells(s, sent + [a], rc)
  {
    RunSnoc(s, sent, a);
    assert (sent + [a])[..|sent|] == sent;
  }

  lemma AfterSending(s: State, sent: seq<Step>, recv: Recv)
    requires var t := Run(s, sent);
             && !t.aborted && t.fdOpen && t.state >= 0
             && (recv.Whole? ==> t.state == CONNECTED_STATE) && (recv.Handshake? ==> t.state == ASSOCIATING_STATE)
    ensures AllTells(s, sent + ReadSteps(recv), ReadRc(recv))
  {
    if recv.Incomplete? {
      assert sent + [] == sent;
    } else {
      ReadTells(Run(s, sent), recv);
      assert ReadSteps(recv) == [ReadSteps(recv)[0]];
      LastTells(s, sent, ReadSteps(recv)[0], ReadRc(recv));
    }
  }

  /** A call that checks an open socket returns an error exactly when it gives the
      connection up, and then with the code of that. */
  lemma CheckRcTells(s: State, write: bool, read: bool, k: Socket)
    requires !s.aborted && s.state >= 0 && Plausible(s, k)
    ensures var (steps, rc) := CheckSteps(s, write, read, k);
            if s.fdOpen then AllTells(s, steps, rc) else steps == [] && rc == -9
  {
    if s.fdOpen {
      if write && s.state == CONNECTING_STATE {
        ConnectTells(s, k);
      } else {
        var sent := if write && s.toSend != [] then [DoFlush(k.room)] else [];
        RunOne(s, DoFlush(k.room));
        if sent != [] && k.sendFails && s.state == CONNECTED_STATE {
          FailTells(Run(s, sent));
          LastTells(s, sent, DoFail(ZCONNECTIONLOSS), ZCONNECTIONLOSS);
        } else if read {
          AfterSending(s, sent, k.recv);
        }
      }
    }
  }

  lemma ConnectTells(s: State, k: Socket)
    requires !s.aborted && s.fdOpen && s.state == CONNECTING_STATE
    ensures AllTells(s, [DoFail(ZCONNECTIONLOSS)], ZCONNECTIONLOSS) && AllTells(s, [DoPrime], ZOK)
  {
    FailTells(s);
    LastTells(s, [], DoFail(ZCONNECTIONLOSS), ZCONNECTIONLOSS);
    RunOne(s, DoPrime);
    assert [] + [DoFail(ZCONNECTIONLOSS)] == [DoFail(ZCONNECTIONLOSS)];
  }

  /** On an established connection that the socket does not break, packets go out when they
      may be written, as many as there is room for, and a whole frame comes in when it may
      be read; the code is -117 if nothing whole was there to be read. */
  lemma CheckTransfers(s: State, write: bool, read: bool, k: Socket)
    requires !s.aborted && s.fdOpen && s.state == CONNECTED_STATE
    requires !k.sendFails && (k.recv.Whole? || k.recv.Incomplete?)
    ensures CheckSteps(s, write, read, k).1 == if read && k.recv.Incomplete? then -117 else 0
    ensures var t := Run(s, CheckSteps(s, write, read, k).0);
            && t.toSend == (if !write then s.toSend else if k.room < |s.toSend| then s.toSend[k.room..] else [])
            && t.toProcess == s.toProcess + (if read && k.recv.Whole? then [k.recv.f] else [])
  {
    var sent := if write && s.toSend != [] then [DoFlush(k.room)] else [];
    RunOne(s, DoFlush(k.room));
    var t := Run(s, sent);
    assert t.toProcess == s.toProcess && t.state == CONNECTED_STATE && !t.aborted;
    if k.recv.Whole? { RunSnoc(s, sent, DoReceive(k.recv.f)); }
    assert sent + [] == sent && s.toProcess + [] == s.toProcess;
  }

  /** A connect that is under way comes to the handshake or fails. */
  lemma CheckConnects(s: State, read: bool, k: Socket)
    requires !s.aborted && s.fdOpen && s.state == CONNECTING_STATE
    ensures Run(s, CheckSteps(s, true, read, k).0).state == if k.refused || !k.primed then 0 else ASSOCIATING_STATE
  {
    RunOne(s, DoFail(ZCONNECTIONLOSS));
    RunOne(s, DoPrime);
  }

  /** The reply to the handshake establishes the session, with the packets for its start in
      front of the queue, or ends it; a failing read gives the connection up. */
  lemma CheckHandshake(s: State, write: bool, k: Socket)
    requires !s.aborted && s.fdOpen && s.state == ASSOCIATING_STATE
    ensures var t := Run(s, CheckSteps(s, write, true, k).0);
            && (k.recv.Handshake? && k.recv.accepted ==>
                t.state == CONNECTED_STATE && t.toSend == k.recv.front + s.toSend)
            && (k.recv.Handshake? && !k.recv.accepted ==> t.state == EXPIRED_SESSION_STATE && t.toSend == [])
            && (k.recv.RecvFails? ==> t.state == 0 && !t.fdOpen)
  {
    var sent := if write && s.toSend != [] then [DoFlush(k.room)] else [];
    RunOne(s, DoFlush(k.room));
    assert Run(s, sent) == s;
    if !k.recv.Incomplete? { RunSnoc(s, sent, ReadSteps(k.recv)[0]); }
  }

  /** The path a request is made for; without a chroot it is the client's. */
  function ServerPath(chroot: string, path: string): string {
    if chroot == "" then path else Chroot.PrependString(chroot, path)
  }

  lemma RepeatStep(s: State, a: Step, n: nat)
    requires n > 0
    ensures Run(s, Repeat(a, n)) == Run(Next(s, a), Repeat(a, n - 1))
  {
    assert Repeat(a, n)[0] == a && Repeat(a, n)[1..] == Repeat(a, n - 1);
  }

  /** Once stopped, or with nothing left to process, further rounds do nothing. */
  lemma {:induction false} IdleSteps(s: State, n: nat)
    requires s.aborted || s.toProcess == []
    ensures Run(s, Repeat(DoProcess, n)) == s
  {
    if n > 0 {
      RepeatStep(s, DoProcess, n);
      assert Next(s, DoProcess) == s;
      IdleSteps(s, n - 1);
    }
  }

  lemma ApiKeeps(s: State, steps: seq<Step>)
    requires Conserved(s) && SessionOk(s)
    ensures Conserved(Run(s, steps)) && SessionOk(Run(s, steps))
  {
    RunConserves(s, steps);
    RunSession(s, steps);
  }

  /** A request for a valid path is made below the chroot, for the node that the client path
      names there. */
  lemma ServerPathIs(chroot: string, path: string)
    requires chroot == "" || Chroot.ValidChroot(chroot)
    requires ZkPath.ValidPath(path)
    ensures chroot == "" ==> ServerPath(chroot, path) == path
    ensures chroot != "" ==>
              var p := ServerPath(chroot, path);
              ZkPath.ValidPath(p) && ZkPath.Under(chroot, p) && Chroot.SubString(chroot, p) == path
  {
    if chroot != "" {
      Chroot.PrependKeepsValid(chroot, path);
      Chroot.AcceptedInsideIff(chroot, path);
      Chroot.SubUndoesPrepend(chroot, path);
    }
  }

  class ZHandle {
    const addrsCount: nat
    const chroot: string   // empty if there is none
    var state: int
    var fdOpen: bool
    var connectIndex: nat
    var toSend: seq<int>
    var sentRequests: seq<Completion>
    var toProcess: seq<Frame>
    var completions: seq<Item>
    var outstandingSync: int
    var lastZxid: int
    ghost var st: State   // the fields above, with the history of the handle

    ghost predicate Linked()
      reads this
    {
      && st.state == state && st.fdOpen == fdOpen
      && st.connectIndex == connectIndex && st.addrsCount == addrsCount
      && st.toSend == toSend && st.sentRequests == sentRequests
      && st.toProcess == toProcess && st.completions == completions
      && st.outstandingSync == outstandingSync && st.lastZxid == lastZxid
    }

    ghost predicate Valid()
      reads this
    {
      Linked() && !st.aborted && Conserved(st) && SessionOk(st)
    }

    constructor (addrsCount: nat, chroot: string)
      ensures st == Init(addrsCount) && Valid() && this.chroot == chroot
    {
      this.addrsCount, this.chroot := addrsCount, chroot;
      state, fdOpen, connectIndex := NOTCONNECTED_STATE, false, 0;
      toSend, sentRequests, toProcess, completions, outstandingSync, lastZxid := [], [], [], [], 0, 0;
      st := Init(addrsCount);
    }

    /** An API call for a path: path and state are looked at first, then request and
        packet are queued in one critical section. */
    method SubmitRequest(c: Completion, path: string, sequence: bool) returns (rc: int)
      requires Valid() && !Special(c.xid)
      modifies this
      ensures Valid()
      ensures rc == if !PathScan.Acceptable(ServerPath(chroot, path), sequence) then -8
                    else if old(state) < 0 then -9 else 0
      ensures st == if rc == 0 then Submit(old(st), c) else old(st)
    {
      var ok := PathScan.IsValidPath(ServerPath(chroot, path), sequence);
      if !ok { return ZBADARGUMENTS; }
      if state < 0 { return ZINVALIDSTATE; }
      SubmitConserves(st, c);
      sentRequests := sentRequests + [c];
      if c.sync {
        outstandingSync := outstandingSync + 1;
      }
      toSend := toSend + [c.xid];
      st := Submit(st, c);
      return ZOK;
    }

    method SendPing()
      requires Valid()
      modifies this`toSend, this`st
      ensures Valid() && st == QueuePing(old(st))
    {
      toSend := toSend + [PING_XID];
      st := QueuePing(st);
    }

    method ZooAddAuth() returns (rc: int)
      requires Valid()
      modifies this`toSend, this`st
      ensures Valid()
      ensures rc == if old(state) <= 0 then -9 else 0
      ensures st == if old(state) == CONNECTED_STATE || old(state) == ASSOCIATING_STATE
                    then QueueFront(old(st), AUTH_XID) else old(st)
    {
      if state < 0 || state == 0 { return ZINVALIDSTATE; }
      if state == CONNECTED_STATE || state == ASSOCIATING_STATE {
        toSend := [AUTH_XID] + toSend;
        st := QueueFront(st, AUTH_XID);
      }
      return ZOK;
    }

    /** Sends packets while connected and the socket has room. */
    method FlushSendQueue(room: nat)
      requires Linked()
      modifies this`toSend, this`st
      ensures Linked() && st == Flush(old(st), room)
    {
      var left := room;
      ghost var s0 := toSend;
      assert s0[0..] == s0;
      while toSend != [] && state == CONNECTED_STATE && left > 0
        invariant st == old(st)
        invariant 0 <= left <= room && room - left <= |s0| && toSend == s0[room - left..]
        invariant state != CONNECTED_STATE ==> left == room
        decreases left
      {
        toSend := toSend[1..];
        left := left - 1;
      }
      assert state == CONNECTED_STATE ==> room - left == if room < |s0| then room else |s0|;
      st := Flush(st, room);
    }

    method QueueSessionEvent(event: int)
      requires Linked()
      modifies this`completions, this`st
      ensures Linked() && st == ClientPipeline.QueueSessionEvent(old(st), event)
    {
      completions := completions + [SessionEvent(event)];
      st := ClientPipeline.QueueSessionEvent(st, event);
    }

    /** Takes the list of outstanding requests and goes through it: synchronous callers
        are woken, asynchronous requests get a faked reply. */
    method FreeCompletions(rc: int)
      modifies this`sentRequests, this`completions, this`outstandingSync
      ensures sentRequests == []
      ensures completions == old(completions) + FakedReplies(old(sentRequests), rc)
      ensures outstandingSync == old(outstandingSync) - SyncCount(old(sentRequests))
    {
      var list := sentRequests;
      sentRequests := [];
      ghost var all := completions + FakedReplies(list, rc);
      while list != []
        invariant sentRequests == [] && completions + FakedReplies(list, rc) == all
        invariant outstandingSync - SyncCount(list) == old(outstandingSync) - SyncCount(old(sentRequests))
        decreases |list|
      {
        var c := list[0];
        if c.sync {
          assert [] + FakedReplies(list[1..], rc) == FakedReplies(list[1..], rc);
          outstandingSync := outstandingSync - 1;
        } else {
          Assoc(completions, [Faked(c, rc)], FakedReplies(list[1..], rc));
          completions := completions + [Faked(c, rc)];
        }
        list := list[1..];
      }
    }

    method CleanupBufs(rc: int)
      requires Linked()
      modifies this
      ensures Linked() && st == ClientPipeline.CleanupBufs(old(st), rc)
    {
      toSend := [];
      toProcess := [];
      FreeCompletions(rc);
      st := ClientPipeline.CleanupBufs(st, rc);
    }

    method HandleError(rc: int)
      requires Linked()
      modifies this
      ensures Linked() && st == ClientPipeline.HandleError(old(st), rc)
    {
      ghost var s0 := st;
      if state < 0 {
        QueueSessionEvent(state);
      } else if state == CONNECTED_STATE {
        QueueSessionEvent(CONNECTING_STATE);
      }
      CleanupBufs(rc);
      fdOpen := false;
      connectIndex := connectIndex + 1;
      if state >= 0 {
        state := 0;
      }
      st := ClientPipeline.HandleError(s0, rc);
    }

    /** The part of zookeeper_interest that opens a connection. */
    method ZookeeperInterest(how: Connect)
      requires Valid()
      modifies this
      ensures Valid() && st == Interest(old(st), how)
    {
      InterestConserves(st, how);
      StepSession(st, DoInterest(how));
      ghost var s1 := Interest(st, how);
      if state < 0 || fdOpen { return; }
      if connectIndex == addrsCount {
        connectIndex := 0;
      } else {
        match how
        case Failed(rc) => HandleError(rc);
        case InProgress => fdOpen, state := true, CONNECTING_STATE;
        case Primed => fdOpen, state := true, ASSOCIATING_STATE;
      }
      st := s1;
    }

    /** Completions in order, until the queue is empty. */
    method ProcessCompletions()
      requires Valid()
      modifies this`completions, this`st
      ensures Valid() && completions == []
      ensures st == Run(old(st), Repeat(DoDeliver, |old(completions)|))
    {
      ApiKeeps(st, Repeat(DoDeliver, |completions|));
      DeliverAll();
    }

    method DeliverAll()
      requires Linked() && !st.aborted
      modifies this`completions, this`st
      ensures Linked() && !st.aborted && completions == []
      ensures st == Run(old(st), Repeat(DoDeliver, |old(completions)|))
    {
      ghost var goal := Run(st, Repeat(DoDeliver, |completions|));
      while completions != []
        invariant Linked() && !st.aborted
        invariant Run(st, Repeat(DoDeliver, |completions|)) == goal
        decreases |completions|
      {
        RepeatStep(st, DoDeliver, |completions|);
        completions := completions[1..];
        st := DeliverOne(st);
      }
    }

    /** Writes, then reads at most one frame or the handshake reply. */
    method CheckEvents(write: bool, read: bool, k: Socket) returns (rc: int)
      requires Linked() && !st.aborted && SessionOk(st) && state >= 0 && Plausible(st, k)
      modifies this
      ensures Linked() && !st.aborted
      ensures var r := CheckSteps(old(st), write, read, k); st == Run(old(st), r.0) && rc == r.1
    {
      ghost var s0 := st;
      if !fdOpen { return ZINVALIDSTATE; }
      if write && state == CONNECTING_STATE {
        rc := FinishConnect(k);
        return;
      }
      ghost var sent := [];
      if toSend != [] && write {
        sent := [DoFlush(k.room)];
        var failed := SendSome(k);
        if failed { return ZCONNECTIONLOSS; }
      }
      if !read { return ZOK; }
      rc := ReadOne(k.recv, s0, sent);
    }

    method SendSome(k: Socket) returns (failed: bool)
      requires Linked() && fdOpen && !st.aborted && state >= 0
      modifies this
      ensures Linked() && !st.aborted && (failed <==> k.sendFails && old(state) == CONNECTED_STATE)
      ensures !failed ==> st == Run(old(st), [DoFlush(k.room)]) && fdOpen && state == old(state)
      ensures failed ==> st == Run(old(st), [DoFlush(k.room)] + [DoFail(ZCONNECTIONLOSS)])
    {
      ghost var s0 := st;
      RunOne(s0, DoFlush(k.room));
      FlushSendQueue(k.room);
      failed := k.sendFails && state == CONNECTED_STATE;
      if failed {
        RunSnoc(s0, [DoFlush(k.room)], DoFail(ZCONNECTIONLOSS));
        HandleError(ZCONNECTIONLOSS);
      }
    }

    method FinishConnect(k: Socket) returns (rc: int)
      requires Linked() && fdOpen && !st.aborted && state == CONNECTING_STATE
      modifies this
      ensures Linked() && !st.aborted
      ensures k.refused || !k.primed ==> rc == ZCONNECTIONLOSS && st == Run(old(st), [DoFail(ZCONNECTIONLOSS)])
      ensures !k.refused && k.primed ==> rc == ZOK && st == Run(old(st), [DoPrime])
    {
      if k.refused || !k.primed {
        RunOne(st, DoFail(ZCONNECTIONLOSS));
        HandleError(ZCONNECTIONLOSS);
        return ZCONNECTIONLOSS;
      }
      RunOne(st, DoPrime);
      state := ASSOCIATING_STATE;
      st := Prime(st);
      return ZOK;
    }

    method ReadOne(recv: Recv, ghost s0: State, ghost sent: seq<Step>) returns (rc: int)
      requires Linked() && fdOpen && !st.aborted && state >= 0 && st == Run(s0, sent)
      requires recv.Whole? ==> state == CONNECTED_STATE
      requires recv.Handshake? ==> state == ASSOCIATING_STATE
      modifies this
      ensures Linked() && !st.aborted
      ensures rc == ReadRc(recv) && st == Run(s0, sent + ReadSteps(recv))
    {
      match recv
      case RecvFails =>
        RunSnoc(s0, sent, DoFail(ZCONNECTIONLOSS));
        HandleError(ZCONNECTIONLOSS);
        return ZCONNECTIONLOSS;
      case Incomplete =>
        assert sent + [] == sent;
        return ZNOTHING;
      case Whole(f) =>
        RunSnoc(s0, sent, DoReceive(f));
        toProcess := toProcess + [f];
        st := Receive(st, f);
        return ZOK;
      case Handshake(ok, front) =>
        rc := FinishHandshake(ok, front, s0, sent);
    }

    method FinishHandshake(ok: bool, front: seq<int>, ghost s0: State, ghost sent: seq<Step>) returns (rc: int)
      requires Linked() && fdOpen && !st.aborted && state == ASSOCIATING_STATE && st == Run(s0, sent)
      modifies this
      ensures Linked() && !st.aborted
      ensures ok ==> rc == ZOK && st == Run(s0, sent + [DoEstablished(front)])
      ensures !ok ==> rc == ZSESSIONEXPIRED && st == Run(s0, sent + [DoExpired])
    {
      ghost var s1 := st;
      if !ok {
        RunSnoc(s0, sent, DoExpired);
        state := EXPIRED_SESSION_STATE;
        st := st.(state := EXPIRED_SESSION_STATE);
        HandleError(ZSESSIONEXPIRED);
        return ZSESSIONEXPIRED;
      }
      RunSnoc(s0, sent, DoEstablished(front));
      state := CONNECTED_STATE;
      toSend := front + toSend;
      st := st.(state := CONNECTED_STATE, toSend := front + st.toSend);
      QueueSessionEvent(CONNECTED_STATE);
      return ZOK;
    }

    /** The frame at the head of the queue is taken and handled; a return code other
        than ZOK ends the loop. */
    method ProcessFrame() returns (rc: int)
      requires Linked() && toProcess != [] && !st.aborted
      modifies this
      ensures Linked() && st == ProcessOne(old(st))
      ensures rc == FrameRc(old(st))
      ensures rc == ZOK ==> !st.aborted && toProcess == old(toProcess)[1..]
      ensures rc != ZOK ==> st.aborted || toProcess == []
    {
      var f := toProcess[0];
      if f.xid == PING_XID || f.xid == SET_WATCHES_XID {
        Take();
        return ZOK;
      } else if f.xid == WATCHER_EVENT_XID {
        Take();
        completions := completions + [Notification(f)];
        st := st.(completions := completions);
        return ZOK;
      } else if f.xid == AUTH_XID {
        Take();
        if f.err != 0 {
          state := AUTH_FAILED_STATE;
          st := st.(state := AUTH_FAILED_STATE);
          HandleError(ZAUTHFAILED);
          return ZAUTHFAILED;
        }
        return ZOK;
      }
      rc := MatchReply(f);
    }

    method Take()
      requires Linked() && toProcess != []
      modifies this`toProcess, this`lastZxid, this`st
      ensures Linked() && st == TakeFrame(old(st))
    {
      st := TakeFrame(st);
      if toProcess[0].zxid > 0 { lastZxid := toProcess[0].zxid; }
      toProcess := toProcess[1..];
    }

    method MatchReply(f: Frame) returns (rc: int)
      requires Linked() && toProcess != [] && toProcess[0] == f && !st.aborted && !Special(f.xid)
      modifies this
      ensures Linked() && st == ProcessReply(old(st))
      ensures rc == FrameRc(old(st))
      ensures rc == ZOK ==> !st.aborted && toProcess == old(toProcess)[1..]
      ensures rc != ZOK ==> st.aborted || toProcess == []
    {
      ghost var s1 := ProcessReply(st);
      if sentRequests == [] {   // assert(cptr) fails
        Take();
        st := s1;
        return ZRUNTIMEINCONSISTENCY;
      }
      var c := sentRequests[0];
      if c.xid != f.xid {
        PutBackAndFail();
        return ZRUNTIMEINCONSISTENCY;
      }
      sentRequests := sentRequests[1..];
      if f.zxid > 0 { lastZxid := f.zxid; }
      toProcess := toProcess[1..];
      if c.sync {
        outstandingSync := outstandingSync - 1;
      } else {
        completions := completions + [Reply(c, f)];
      }
      st := s1;
      return ZOK;
    }

    /** An unexpected reply: the request taken off the queue goes back to its front,
        then the connection is given up. */
    method PutBackAndFail()
      requires Linked() && toProcess != [] && sentRequests != [] && sentRequests[0].xid != toProcess[0].xid
      modifies this
      ensures Linked() && st == ProcessReply(old(st)) && st.aborted == old(st).aborted && toProcess == []
    {
      var c := sentRequests[0];
      sentRequests := sentRequests[1..];
      sentRequests := [c] + sentRequests;
      Take();
      st := st.(mismatched := true);
      HandleError(ZRUNTIMEINCONSISTENCY);
    }

    /** One call by the I/O thread: check the socket, then process every frame that is
        there, until one of them ends the connection. */
    method ZookeeperProcess(write: bool, read: bool, k: Socket) returns (rc: int)
      requires Valid() && Plausible(st, k)
      modifies this
      ensures Linked() && (!st.aborted ==> Valid())
      ensures old(state) < 0 ==> rc == ZINVALIDSTATE && st == old(st)
      ensures old(state) >= 0 ==>
                var r := CheckSteps(old(st), write, read, k);
                var s1 := Run(old(st), r.0);
                st == (if r.1 != ZOK then s1 else Run(s1, Repeat(DoProcess, |s1.toProcess|))) &&
                rc == if r.1 != ZOK then r.1 else LoopRc(s1)
    {
      if state < 0 { return ZINVALIDSTATE; }
      ghost var s0, steps := st, CheckSteps(st, write, read, k).0;
      ApiKeeps(s0, steps);
      rc := CheckEvents(write, read, k);
      if rc == ZOK {
        ApiKeeps(st, Repeat(DoProcess, |toProcess|));
        rc := ProcessFrames();
      }
    }

    method ProcessFrames() returns (rc: int)
      requires Linked() && !st.aborted
      modifies this
      ensures Linked() && st == Run(old(st), Repeat(DoProcess, |old(toProcess)|)) && rc == LoopRc(old(st))
    {
      rc := ZOK;
      ghost var goal := Run(st, Repeat(DoProcess, |toProcess|));
      while rc >= 0 && toProcess != []
        invariant Linked()
        invariant rc <= 0 && (rc == 0 ==> !st.aborted && Run(st, Repeat(DoProcess, |toProcess|)) == goal)
        invariant rc < 0 ==> st == goal
        invariant LoopRc(old(st)) == if rc < 0 then rc else LoopRc(st)
        decreases rc >= 0, |toProcess|
      {
        ProcessRound(st, ProcessOne(st));
        rc := ProcessFrame();
      }
      if rc >= 0 { IdleSteps(st, 0); }
    }
  }
}
