/** The request pipeline of the C client as a transition system: packets waiting to
    be sent, requests waiting for their reply, frames waiting to be processed, and
    completions waiting to be delivered. Each step is one region that the client runs
    under its locks, so every interleaving of its threads is a sequence of steps. */
module ClientPipeline {

  const WATCHER_EVENT_XID := -1
  const PING_XID := -2
  const AUTH_XID := -4
  const SET_WATCHES_XID := -8

  const ZOK := 0
  const ZRUNTIMEINCONSISTENCY := -2
  const ZINVALIDSTATE := -9
  const ZSESSIONEXPIRED := -112
  const ZAUTHFAILED := -115

  const EXPIRED_SESSION_STATE := -112
  const AUTH_FAILED_STATE := -113
  const CONNECTING_STATE := 1
  const ASSOCIATING_STATE := 2
  const CONNECTED_STATE := 3
  const NOTCONNECTED_STATE := 999

  /** Packets outside the request numbering. */
  predicate Special(xid: int) {
    xid == WATCHER_EVENT_XID || xid == PING_XID || xid == AUTH_XID || xid == SET_WATCHES_XID
  }

  /** An outstanding request: its number, whether a caller blocks on it, and the
      caller's token. */
  datatype Completion = Completion(xid: int, sync: bool, token: int)

  /** A received frame: reply header and an identification of the body. */
  datatype Frame = Frame(xid: int, zxid: int, err: int, body: int)

  /** An entry of the completion queue: a reply read from a frame, a faked reply for a
      request lost with its connection, a watch notification, or a session event. */
  datatype Item =
    | Reply(c: Completion, frame: Frame)
    | Faked(c: Completion, rc: int)
    | Notification(frame: Frame)
    | SessionEvent(state: int)

  /** What came in between two times that the queues were emptied: the frames received
      and how many of them were processed, the requests registered, and the error that
      put an end to it. */
  datatype Connection = Connection(received: seq<Frame>, handled: nat, registered: seq<Completion>, rc: int)

  /** The client's fields, then what has happened so far: asynchronous requests
      accepted, items delivered, requests fully sent on this connection and not yet
      answered, session events queued, and what came in since the queues were last
      emptied and before. */
  datatype State = State(
    state: int,
    fdOpen: bool,
    connectIndex: nat,
    addrsCount: nat,
    toSend: seq<int>,
    sentRequests: seq<Completion>,
    toProcess: seq<Frame>,
    completions: seq<Item>,
    outstandingSync: int,
    lastZxid: int,
    accepted: seq<Completion>,
    delivered: seq<Item>,
    unanswered: seq<int>,
    events: seq<int>,
    received: seq<Frame>,
    handled: nat,
    registered: seq<Completion>,
    lost: seq<Connection>,
    aborted: bool,
    mismatched: bool)

  function Init(addrsCount: nat): State {
    State(NOTCONNECTED_STATE, false, 0, addrsCount, [], [], [], [], 0, 0, [], [], [], [], [], 0, [], [], false, false)
  }

  // ------------------------------------------------------------ projections

  function Xids(cs: seq<Completion>): seq<int> {
    if cs == [] then [] else [cs[0].xid] + Xids(cs[1..])
  }

  function Ordinary(xs: seq<int>): seq<int> {
    if xs == [] then []
    else (if Special(xs[0]) then [] else [xs[0]]) + Ordinary(xs[1..])
  }

  function FrameXids(fs: seq<Frame>): seq<int> {
    if fs == [] then [] else [fs[0].xid] + FrameXids(fs[1..])
  }

  function Asynchronous(cs: seq<Completion>): seq<Completion> {
    if cs == [] then []
    else (if cs[0].sync then [] else [cs[0]]) + Asynchronous(cs[1..])
  }

  function SyncCount(cs: seq<Completion>): nat {
    if cs == [] then 0 else (if cs[0].sync then 1 else 0) + SyncCount(cs[1..])
  }

  /** The requests that a stretch of the completion queue completes. */
  function Completed(items: seq<Item>): seq<Completion> {
    if items == [] then []
    else (if items[0].Reply? || items[0].Faked? then [items[0].c] else []) + Completed(items[1..])
  }

  function FakedReplies(cs: seq<Completion>, rc: int): seq<Item> {
    if cs == [] then []
    else (if cs[0].sync then [] else [Faked(cs[0], rc)]) + FakedReplies(cs[1..], rc)
  }

  // ------------------------------------------------------------------ steps

  predicate Unrecoverable(s: State) {
    s.state < 0
  }

  /** A request is registered and its packet queued, in one critical section. */
  function Submit(s: State, c: Completion): State {
    s.(sentRequests := s.sentRequests + [c],
       outstandingSync := s.outstandingSync + (if c.sync then 1 else 0),
       toSend := s.toSend + [c.xid],
       registered := s.registered + [c],
       accepted := if c.sync then s.accepted else s.accepted + [c])
  }

  function QueuePing(s: State): State {
    s.(toSend := s.toSend + [PING_XID])
  }

  function QueueFront(s: State, xid: int): State {
    s.(toSend := [xid] + s.toSend)
  }

  /** The socket takes the next n packets, or all there are. */
  function Flush(s: State, n: nat): State {
    if s.state != CONNECTED_STATE then s
    else
      var k := if n < |s.toSend| then n else |s.toSend|;
      s.(toSend := s.toSend[k..], unanswered := s.unanswered + Ordinary(s.toSend[..k]))
  }

  function Receive(s: State, f: Frame): State {
    if s.state != CONNECTED_STATE then s else s.(toProcess := s.toProcess + [f], received := s.received + [f])
  }

  function QueueSessionEvent(s: State, state: int): State {
    s.(completions := s.completions + [SessionEvent(state)], events := s.events + [state])
  }

  function CleanupBufs(s: State, rc: int): State {
    s.(toSend := [], toProcess := [], sentRequests := [],
       outstandingSync := s.outstandingSync - SyncCount(s.sentRequests),
       completions := s.completions + FakedReplies(s.sentRequests, rc),
       unanswered := [], received := [], handled := 0, registered := [],
       lost := s.lost + [Connection(s.received, s.handled, s.registered, rc)])
  }

  function AnnounceLoss(s: State): State {
    if Unrecoverable(s) then QueueSessionEvent(s, s.state)
    else if s.state == CONNECTED_STATE then QueueSessionEvent(s, CONNECTING_STATE)
    else s
  }

  function HandleError(s: State, rc: int): State {
    var s1 := CleanupBufs(AnnounceLoss(s), rc);
    s1.(fdOpen := false, connectIndex := s1.connectIndex + 1,
        state := if Unrecoverable(s1) then s1.state else 0)
  }

  /** How opening a socket went: failed, in progress, or connected and primed. */
  datatype Connect = Failed(rc: int) | InProgress | Primed

  function Interest(s: State, how: Connect): State {
    if Unrecoverable(s) || s.fdOpen then s
    else if s.connectIndex == s.addrsCount then s.(connectIndex := 0)
    else
      match how
      case Failed(rc) => HandleError(s, rc)
      case InProgress => s.(fdOpen := true, state := CONNECTING_STATE)
      case Primed => s.(fdOpen := true, state := ASSOCIATING_STATE)
  }

  /** The pending connect completes and the handshake goes out. */
  function Prime(s: State): State {
    if s.fdOpen && s.state == CONNECTING_STATE then s.(state := ASSOCIATING_STATE) else s
  }

  /** The server accepts the session; set-watches and auth packets go in front. */
  function Established(s: State, front: seq<int>): State {
    if s.fdOpen && s.state == ASSOCIATING_STATE
    then QueueSessionEvent(s.(state := CONNECTED_STATE, toSend := front + s.toSend), CONNECTED_STATE)
    else s
  }

  function Expired(s: State): State {
    if s.fdOpen && s.state == ASSOCIATING_STATE
    then HandleError(s.(state := EXPIRED_SESSION_STATE), ZSESSIONEXPIRED)
    else s
  }

  /** A failing socket operation or a timeout on an open connection. */
  function Fail(s: State, rc: int): State {
    if s.fdOpen && !Unrecoverable(s) then HandleError(s, rc) else s
  }

  function TakeFrame(s: State): State
    requires s.toProcess != []
  {
    var f := s.toProcess[0];
    s.(toProcess := s.toProcess[1..], handled := s.handled + 1,
       lastZxid := if f.zxid > 0 then f.zxid else s.lastZxid)
  }

  /** The reply is matched with the oldest outstanding request. */
  function ProcessReply(s: State): State
    requires s.toProcess != []
  {
    var f := s.toProcess[0];
    if s.sentRequests == [] then TakeFrame(s).(aborted := true)
    else if s.sentRequests[0].xid != f.xid then
      HandleError(TakeFrame(s).(mismatched := true), ZRUNTIMEINCONSISTENCY)
    else
      var c := s.sentRequests[0];
      var s1 := TakeFrame(s).(sentRequests := s.sentRequests[1..],
                              unanswered := if s.unanswered == [] then [] else s.unanswered[1..]);
      if c.sync then s1.(outstandingSync := s1.outstandingSync - 1)
      else s1.(completions := s1.completions + [Reply(c, f)])
  }

  /** One round of the processing loop. */
  function ProcessOne(s: State): State {
    if s.toProcess == [] then s
    else
      var f := s.toProcess[0];
      if f.xid == PING_XID || f.xid == SET_WATCHES_XID then TakeFrame(s)
      else if f.xid == WATCHER_EVENT_XID then
        TakeFrame(s).(completions := s.completions + [Notification(f)])
      else if f.xid == AUTH_XID then
        if f.err != 0 then HandleError(TakeFrame(s).(state := AUTH_FAILED_STATE), ZAUTHFAILED)
        else TakeFrame(s)
      else ProcessReply(s)
  }

  function DeliverOne(s: State): State {
    if s.completions == [] then s
    else s.(completions := s.completions[1..], delivered := s.delivered + [s.completions[0]])
  }

  datatype Step =
    | DoSubmit(c: Completion)
    | DoPing
    | DoFront(xid: int)
    | DoFlush(n: nat)
    | DoReceive(f: Frame)
    | DoProcess
    | DoDeliver
    | DoFail(rc: int)
    | DoInterest(how: Connect)
    | DoPrime
    | DoEstablished(front: seq<int>)
    | DoExpired

  predicate SpecialAll(xs: seq<int>) {
    forall i | 0 <= i < |xs| :: Special(xs[i])
  }

  /** Requests are numbered outside the special range; only special packets jump
      the queue. */
  predicate Legal(a: Step) {
    match a
    case DoSubmit(c) => !Special(c.xid)
    case DoFront(xid) => Special(xid)
    case DoEstablished(front) => SpecialAll(front)
    case _ => true
  }

  /** After a failed assertion nothing runs any more. */
  function Next(s: State, a: Step): State {
    if s.aborted then s
    else
      match a
      case DoSubmit(c) => Submit(s, c)
      case DoPing => QueuePing(s)
      case DoFront(xid) => QueueFront(s, xid)
      case DoFlush(n) => Flush(s, n)
      case DoReceive(f) => Receive(s, f)
      case DoProcess => ProcessOne(s)
      case DoDeliver => DeliverOne(s)
      case DoFail(rc) => Fail(s, rc)
      case DoInterest(how) => Interest(s, how)
      case DoPrime => Prime(s)
      case DoEstablished(front) => Established(s, front)
      case DoExpired => Expired(s)
  }

  function Run(s: State, steps: seq<Step>): State
    decreases |steps|
  {
    if steps == [] then s else Run(Next(s, steps[0]), steps[1..])
  }

  predicate LegalRun(steps: seq<Step>) {
    forall a | a in steps :: Legal(a)
  }

  /** The server answers, in order, only requests it has received. */
  ghost predicate InOrder(s: State, a: Step) {
    a.DoReceive? && s.state == CONNECTED_STATE && !Special(a.f.xid) ==>
      Ordinary(FrameXids(s.toProcess)) + [a.f.xid] <= s.unanswered
  }

  ghost predicate InOrderRun(s: State, steps: seq<Step>)
    decreases |steps|
  {
    steps == [] || (InOrder(s, steps[0]) && InOrderRun(Next(s, steps[0]), steps[1..]))
  }
}
