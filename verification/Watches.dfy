/** Watch registration and delivery: three tables from server paths to watcher lists. */
module Watches {
  import opened Prelude
  import Chroot
  import ZkPath

  /** Two watchers are the same when function and context are. */
  datatype Watcher = Watcher(fn: nat, context: nat)

  const ZOK := 0
  const ZNONODE := -101
  const CREATED_EVENT := 1
  const DELETED_EVENT := 2
  const CHANGED_EVENT := 3
  const CHILD_EVENT := 4
  const SESSION_EVENT := -1

  datatype Kind = NodeWatch | ExistWatch | ChildWatch

  type Table = map<string, seq<Watcher>>

  datatype Tables = Tables(node: Table, exist: Table, child: Table) {
    function Get(k: Kind): Table {
      match k
      case NodeWatch => node
      case ExistWatch => exist
      case ChildWatch => child
    }

    function With(k: Kind, t: Table): Tables {
      match k
      case NodeWatch => this.(node := t)
      case ExistWatch => this.(exist := t)
      case ChildWatch => this.(child := t)
    }
  }

  /** Which reply to a watching request arms the watch, and in which table. */
  datatype Checker = ExistsChecker | DataChecker | ChildChecker
  function Armed(c: Checker, rc: int): Option<Kind> {
    match c
    case ExistsChecker => if rc == ZOK then Some(NodeWatch) else if rc == ZNONODE then Some(ExistWatch) else None
    case DataChecker => if rc == ZOK then Some(NodeWatch) else None
    case ChildChecker => if rc == ZOK then Some(ChildWatch) else None
  }

  /** The tables that an event uses up. */
  function Selected(eventType: int): set<Kind> {
    if eventType == CREATED_EVENT || eventType == CHANGED_EVENT then {NodeWatch, ExistWatch}
    else if eventType == CHILD_EVENT then {ChildWatch}
    else if eventType == DELETED_EVENT then {NodeWatch, ExistWatch, ChildWatch}
    else {}
  }

  // ----------------------------------------------------------------- lists

  function ToSet(l: seq<Watcher>): set<Watcher> {
    set w | w in l
  }

  predicate NoDup(l: seq<Watcher>) {
    forall i, j | 0 <= i < j < |l| :: l[i] != l[j]
  }

  function Added(l: seq<Watcher>, w: Watcher): (r: seq<Watcher>)
    ensures ToSet(r) == ToSet(l) + {w}
    ensures NoDup(l) ==> NoDup(r)
  {
    if w in l then l else
      assert forall x :: x in [w] + l <==> x == w || x in l;
      [w] + l
  }

  /** Adding one by one what is not there yet. */
  function Copied(from: seq<Watcher>, to: seq<Watcher>): (r: seq<Watcher>)
    ensures ToSet(r) == ToSet(to) + ToSet(from)
    ensures NoDup(to) ==> NoDup(r)
  {
    if from == [] then to else
      assert ToSet(from) == {from[0]} + ToSet(from[1..]) by {
        assert from == [from[0]] + from[1..];
      }
      Copied(from[1..], Added(to, from[0]))
  }

  method SearchWatcher(wl: seq<Watcher>, wo: Watcher) returns (found: bool)
    ensures found <==> wo in wl
  {
    var i := 0;
    while i < |wl|
      invariant 0 <= i <= |wl| && wo !in wl[..i]
    {
      if wl[i] == wo { return true; }
      i := i + 1;
    }
    found := false;
  }

  method AddToList(wl: seq<Watcher>, wo: Watcher) returns (wl': seq<Watcher>, added: bool)
    ensures wl' == Added(wl, wo) && (added <==> wo !in wl)
  {
    var found := SearchWatcher(wl, wo);
    if found { return wl, false; }
    return [wo] + wl, true;
  }

  method CopyWatchers(from: seq<Watcher>, to: seq<Watcher>) returns (to': seq<Watcher>)
    ensures to' == Copied(from, to)
  {
    to' := to;
    var i := 0;
    assert from[0..] == from;
    while i < |from|
      invariant 0 <= i <= |from| && Copied(from[i..], to') == Copied(from, to)
    {
      assert from[i..][0] == from[i] && from[i..][1..] == from[i + 1..];
      var added;
      to', added := AddToList(to', from[i]);
      i := i + 1;
    }
  }

  // ---------------------------------------------------------------- tables

  function Registered(t: Table, path: string): set<Watcher> {
    if path in t then ToSet(t[path]) else {}
  }

  ghost function AllWatchers(t: Table): set<Watcher> {
    set path, w | path in t && w in t[path] :: w
  }

  /** No path without a watcher, and no watcher twice in a list. */
  ghost predicate WellKept(t: Table) {
    forall path | path in t :: t[path] != [] && NoDup(t[path])
  }

  function Inserted(t: Table, path: string, w: Watcher): Table {
    t[path := if path in t then Added(t[path], w) else [w]]
  }

  /** Adds a registration; tells whether it is new. */
  method DoInsertWatcherObject(ht: Table, path: string, wo: Watcher) returns (ht': Table, res: bool)
    ensures ht' == Inserted(ht, path, wo) && (res <==> wo !in Registered(ht, path))
  {
    if path !in ht {
      return ht[path := [wo]], true;
    }
    var wl;
    wl, res := AddToList(ht[path], wo);
    ht' := ht[path := wl];
  }

  /** Moves the watchers of a path from a table to the delivery list. */
  method AddForEvent(ht: Table, path: string, list: seq<Watcher>) returns (ht': Table, list': seq<Watcher>)
    ensures ht' == ht - {path}
    ensures ToSet(list') == ToSet(list) + Registered(ht, path) && (NoDup(list) ==> NoDup(list'))
  {
    ht', list' := ht - {path}, list;
    if path in ht {
      list' := CopyWatchers(ht[path], list);
    }
  }

  /** Copies the watchers of all paths, whatever order the table has them in. */
  method CopyTable(from: Table, to: seq<Watcher>) returns (to': seq<Watcher>)
    ensures ToSet(to') == ToSet(to) + AllWatchers(from) && (NoDup(to) ==> NoDup(to'))
  {
    to' := to;
    var left := from.Keys;
    while left != {}
      invariant left <= from.Keys && (NoDup(to) ==> NoDup(to'))
      invariant ToSet(to') == ToSet(to) + AllWatchers(from - left)
      decreases left
    {
      var path :| path in left;
      OnePathMore(from, left, path);
      to' := CopyWatchers(from[path], to');
      left := left - {path};
    }
    assert from - left == from;
  }

  lemma OnePathMore(from: Table, left: set<string>, path: string)
    requires left <= from.Keys && path in left
    ensures AllWatchers(from - (left - {path})) == AllWatchers(from - left) + ToSet(from[path])
  {
    var more, less := from - (left - {path}), from - left;
    forall w | w in AllWatchers(more) ensures w in AllWatchers(less) + ToSet(from[path]) {
      var p :| p in more && w in more[p];
      assert p != path ==> p in less && w in less[p];
    }
    forall w | w in AllWatchers(less) + ToSet(from[path]) ensures w in AllWatchers(more) {
      assert path in more;
      if w in AllWatchers(less) {
        var p :| p in less && w in less[p];
        assert p in more && w in more[p];
      } else {
        assert w in more[path];
      }
    }
  }

  // ---------------------------------------------------------------- events

  datatype Op =
    | Activate(checker: Checker, rc: int, path: string, watcher: Watcher)
    | Event(eventType: int, path: string)

  /** The tables lose the path that the event is about where the event selects them. */
  function Consumed(ts: Tables, eventType: int, path: string): Tables {
    Tables(if NodeWatch in Selected(eventType) then ts.node - {path} else ts.node,
           if ExistWatch in Selected(eventType) then ts.exist - {path} else ts.exist,
           if ChildWatch in Selected(eventType) then ts.child - {path} else ts.child)
  }

  function Step(ts: Tables, op: Op): Tables {
    match op
    case Activate(c, rc, path, w) =>
      if Armed(c, rc).None? then ts
      else ts.With(Armed(c, rc).value, Inserted(ts.Get(Armed(c, rc).value), path, w))
    case Event(eventType, path) => Consumed(ts, eventType, path)
  }

  /** Whom an event reaches. */
  ghost function Fired(ts: Tables, default: Watcher, eventType: int, path: string): set<Watcher> {
    if eventType == SESSION_EVENT then {default} + AllWatchers(ts.node) + AllWatchers(ts.exist) + AllWatchers(ts.child)
    else set k, w | k in Selected(eventType) && w in Registered(ts.Get(k), path) :: w
  }

  lemma FiredUnion(ts: Tables, default: Watcher, eventType: int, path: string)
    requires eventType != SESSION_EVENT
    ensures Fired(ts, default, eventType, path) ==
            (if NodeWatch in Selected(eventType) then Registered(ts.node, path) else {}) +
            (if ExistWatch in Selected(eventType) then Registered(ts.exist, path) else {}) +
            (if ChildWatch in Selected(eventType) then Registered(ts.child, path) else {})
  {
    var s := Selected(eventType);
    forall w | w in Fired(ts, default, eventType, path)
      ensures (NodeWatch in s && w in Registered(ts.node, path)) || (ExistWatch in s && w in Registered(ts.exist, path))
           || (ChildWatch in s && w in Registered(ts.child, path))
    {
      var k :| k in s && w in Registered(ts.Get(k), path);
      assert k == NodeWatch || k == ExistWatch || k == ChildWatch;
    }
    assert ts.Get(NodeWatch) == ts.node && ts.Get(ExistWatch) == ts.exist && ts.Get(ChildWatch) == ts.child;
  }

  /** One call of a watcher function. */
  datatype Call = Call(watcher: Watcher, eventType: int, state: int, clientPath: string)

  class WatchTables {
    var tables: Tables
    const watcher: Watcher
    const chroot: string

    ghost predicate Valid()
      reads this
    {
      WellKept(tables.node) && WellKept(tables.exist) && WellKept(tables.child)
    }

    constructor (default: Watcher, chroot: string)
      ensures Valid() && tables == Tables(map[], map[], map[]) && watcher == default && this.chroot == chroot
    {
      tables, watcher, this.chroot := Tables(map[], map[], map[]), default, chroot;
    }

    /** A reply to a watching request arrives. */
    method ActivateWatcher(checker: Checker, rc: int, path: string, w: Watcher)
      requires Valid()
      modifies this
      ensures Valid() && tables == Step(old(tables), Activate(checker, rc, path, w))
    {
      var armed := Armed(checker, rc);
      if armed.Some? {
        var t, res := DoInsertWatcherObject(tables.Get(armed.value), path, w);
        tables := tables.With(armed.value, t);
      }
    }

    /** Every watcher that an event concerns is in the list once; a node event uses the
        registrations up, a session event leaves them alone. */
    method CollectWatchers(eventType: int, path: string) returns (list: seq<Watcher>)
      requires Valid()
      modifies this
      ensures Valid() && tables == Step(old(tables), Event(eventType, path))
      ensures NoDup(list) && ToSet(list) == Fired(old(tables), watcher, eventType, path)
    {
      if eventType == SESSION_EVENT {
        list := CollectSessionWatchers();
        return;
      }
      FiredUnion(tables, watcher, eventType, path);
      list := [];
      var node, exist, child := tables.node, tables.exist, tables.child;
      if eventType == CREATED_EVENT || eventType == CHANGED_EVENT {
        node, list := AddForEvent(node, path, list);
        exist, list := AddForEvent(exist, path, list);
      } else if eventType == CHILD_EVENT {
        child, list := AddForEvent(child, path, list);
      } else if eventType == DELETED_EVENT {
        node, list := AddForEvent(node, path, list);
        exist, list := AddForEvent(exist, path, list);
        child, list := AddForEvent(child, path, list);
      }
      tables := Tables(node, exist, child);
    }

    method CollectSessionWatchers() returns (list: seq<Watcher>)
      ensures NoDup(list) && ToSet(list) == Fired(tables, watcher, SESSION_EVENT, "")
    {
      var added;
      list, added := AddToList([], watcher);
      list := CopyTable(tables.node, list);
      list := CopyTable(tables.exist, list);
      list := CopyTable(tables.child, list);
    }

    /** Calls the watchers in list order, with the path as the client knows it. */
    method DeliverWatchers(eventType: int, state: int, path: string, list: seq<Watcher>) returns (calls: seq<Call>)
      ensures |calls| == |list|
      ensures forall i | 0 <= i < |list| ::
                calls[i] == Call(list[i], eventType, state, ClientPath(chroot, eventType, path))
    {
      var clientPath := ClientPath(chroot, eventType, path);
      calls := [];
      var i := 0;
      while i < |list|
        invariant 0 <= i <= |list| && |calls| == i
        invariant forall j | 0 <= j < i :: calls[j] == Call(list[j], eventType, state, clientPath)
      {
        calls := calls + [Call(list[i], eventType, state, clientPath)];
        i := i + 1;
      }
    }
  }

  /** Session events have no path; without a chroot paths are the server's. */
  function ClientPath(chroot: string, eventType: int, path: string): string {
    if eventType == SESSION_EVENT || chroot == "" then path else Chroot.SubString(chroot, path)
  }

  // --------------------------------------------------------------- whole runs

  function Run(ops: seq<Op>): Tables {
    if ops == [] then Tables(map[], map[], map[]) else Step(Run(ops[..|ops| - 1]), ops[|ops| - 1])
  }

  predicate Arms(op: Op, k: Kind, path: string, w: Watcher) {
    op.Activate? && Armed(op.checker, op.rc) == Some(k) && op.path == path && op.watcher == w
  }

  predicate Disarms(op: Op, k: Kind, path: string) {
    op.Event? && k in Selected(op.eventType) && op.path == path
  }

  /** Operation i armed the watch, and no event since has used it up. */
  predicate ArmedSince(ops: seq<Op>, i: nat, k: Kind, path: string, w: Watcher) {
    i < |ops| && Arms(ops[i], k, path, w) && forall j | i < j < |ops| :: !Disarms(ops[j], k, path)
  }

  ghost predicate IsArmed(ops: seq<Op>, k: Kind, path: string, w: Watcher) {
    exists i: nat :: ArmedSince(ops, i, k, path, w)
  }

  /** A watch is registered exactly when it was armed and not used up since. */
  lemma {:induction false} RegisteredIff(ops: seq<Op>, k: Kind, path: string, w: Watcher)
    ensures w in Registered(Run(ops).Get(k), path) <==> IsArmed(ops, k, path, w)
  {
    if ops != [] {
      var n := |ops| - 1;
      var before, op := ops[..n], ops[n];
      RegisteredIff(before, k, path, w);
      ArmedSinceStep(ops, k, path, w);
    }
  }

  lemma ArmedSinceStep(ops: seq<Op>, k: Kind, path: string, w: Watcher)
    requires ops != []
    ensures IsArmed(ops, k, path, w) <==>
            Arms(ops[|ops| - 1], k, path, w) ||
            (IsArmed(ops[..|ops| - 1], k, path, w) && !Disarms(ops[|ops| - 1], k, path))
  {
    var n := |ops| - 1;
    var before := ops[..n];
    if Arms(ops[n], k, path, w) { assert ArmedSince(ops, n, k, path, w); }
    forall i: nat | ArmedSince(ops, i, k, path, w) && i < n ensures ArmedSince(before, i, k, path, w) {
    }
    forall i: nat | ArmedSince(before, i, k, path, w) && !Disarms(ops[n], k, path)
      ensures ArmedSince(ops, i, k, path, w)
    {
      assert before[i] == ops[i];
      assert forall j | i < j < n :: before[j] == ops[j];
    }
  }

  /** After any run a node event reaches a watcher exactly when an earlier reply armed
      it for this path in a table that the event selects, and no event in between
      used that watch up. */
  lemma FiresIff(ops: seq<Op>, default: Watcher, eventType: int, path: string, w: Watcher)
    requires eventType != SESSION_EVENT
    ensures w in Fired(Run(ops), default, eventType, path) <==>
            exists i: nat, k :: k in Selected(eventType) && ArmedSince(ops, i, k, path, w)
  {
    var ts := Run(ops);
    if w in Fired(ts, default, eventType, path) {
      var k :| k in Selected(eventType) && w in Registered(ts.Get(k), path);
      RegisteredIff(ops, k, path, w);
      var i: nat :| ArmedSince(ops, i, k, path, w);
    }
    forall i: nat, k | k in Selected(eventType) && ArmedSince(ops, i, k, path, w)
      ensures w in Fired(ts, default, eventType, path)
    {
      RegisteredIff(ops, k, path, w);
    }
  }

  // ------------------------------------ which requests make which event fire

  /** Since operation i no event of these types came for the path. */
  predicate NoneSince(ops: seq<Op>, i: nat, path: string, types: set<int>) {
    forall j | i < j < |ops| :: !(ops[j].Event? && ops[j].path == path && ops[j].eventType in types)
  }

  /** Operation i is a successful request for the children of the path, and neither a change
      of the children nor the deletion of the node was reported since. */
  predicate ChildRequest(ops: seq<Op>, i: nat, path: string, w: Watcher) {
    && i < |ops| && ops[i] == Activate(ChildChecker, 0, path, w)
    && NoneSince(ops, i, path, {4, 2})
  }

  /** Operation i is a successful request for the data of the path, or a check of its
      existence that found it or found it missing, and no creation, change or deletion was
      reported since. */
  predicate DataRequest(ops: seq<Op>, i: nat, path: string, w: Watcher) {
    && i < |ops|
    && (ops[i] == Activate(DataChecker, 0, path, w) || ops[i] == Activate(ExistsChecker, 0, path, w)
        || ops[i] == Activate(ExistsChecker, -101, path, w))
    && NoneSince(ops, i, path, {1, 3, 2})
  }

  ghost predicate WatchesChildren(ops: seq<Op>, path: string, w: Watcher) {
    exists i: nat :: ChildRequest(ops, i, path, w)
  }

  ghost predicate WatchesData(ops: seq<Op>, path: string, w: Watcher) {
    exists i: nat :: DataRequest(ops, i, path, w)
  }

  lemma WatchesChildrenIff(ops: seq<Op>, path: string, w: Watcher)
    ensures IsArmed(ops, ChildWatch, path, w) <==> WatchesChildren(ops, path, w)
  {
    forall i: nat ensures ArmedSince(ops, i, ChildWatch, path, w) <==> ChildRequest(ops, i, path, w) {
    }
  }

  lemma WatchesDataIff(ops: seq<Op>, path: string, w: Watcher)
    ensures IsArmed(ops, NodeWatch, path, w) || IsArmed(ops, ExistWatch, path, w) <==> WatchesData(ops, path, w)
  {
    forall i: nat
      ensures ArmedSince(ops, i, NodeWatch, path, w) || ArmedSince(ops, i, ExistWatch, path, w) <==>
              DataRequest(ops, i, path, w)
    {
    }
  }

  /** After any run, whom an event of a node reaches: a change of its children those who
      asked for them, its creation or a change of its data those who asked for data or
      existence, its deletion both, and an event of any other type nobody. By number: 1 is
      creation, 2 deletion, 3 a change of data, 4 of children and -1 a session event; code 0
      is success and -101 says that there is no node. */
  lemma EventReachesIff(ops: seq<Op>, default: Watcher, eventType: int, path: string, w: Watcher)
    requires eventType != -1
    ensures w in Fired(Run(ops), default, eventType, path) <==>
            ((eventType == 4 || eventType == 2) && WatchesChildren(ops, path, w)) ||
            ((eventType == 1 || eventType == 3 || eventType == 2) && WatchesData(ops, path, w))
  {
    RegisteredIff(ops, NodeWatch, path, w);
    RegisteredIff(ops, ExistWatch, path, w);
    RegisteredIff(ops, ChildWatch, path, w);
    WatchesChildrenIff(ops, path, w);
    WatchesDataIff(ops, path, w);
    FiredUnion(Run(ops), default, eventType, path);
  }

  /** A session event reaches the default watcher and all others that wait for anything,
      and all of them go on waiting. */
  lemma SessionEventReachesIff(ops: seq<Op>, default: Watcher, path: string, w: Watcher)
    ensures w in Fired(Run(ops), default, -1, path) <==>
            w == default || exists p :: WatchesChildren(ops, p, w) || WatchesData(ops, p, w)
    ensures Run(ops + [Event(-1, path)]) == Run(ops)
  {
    var ts := Run(ops);
    forall p
      ensures WatchesChildren(ops, p, w) <==> w in Registered(ts.child, p)
      ensures WatchesData(ops, p, w) <==> w in Registered(ts.node, p) || w in Registered(ts.exist, p)
    {
      RegisteredIff(ops, NodeWatch, p, w);
      RegisteredIff(ops, ExistWatch, p, w);
      RegisteredIff(ops, ChildWatch, p, w);
      WatchesChildrenIff(ops, p, w);
      WatchesDataIff(ops, p, w);
    }
    InSomeList(ts.node, w);
    InSomeList(ts.exist, w);
    InSomeList(ts.child, w);
    var more := ops + [Event(SESSION_EVENT, path)];
    assert more[..|more| - 1] == ops;
  }

  lemma InSomeList(t: Table, w: Watcher)
    ensures w in AllWatchers(t) <==> exists p :: w in Registered(t, p)
  {
    if w in AllWatchers(t) {
      var p :| p in t && w in t[p];
      assert w in Registered(t, p);
    }
    forall p | w in Registered(t, p) ensures w in AllWatchers(t) {
      assert p in t && w in t[p];
    }
  }

  /** Watches are one-shot: the same event again, after anything but a new registration
      for the path, reaches nobody. */
  lemma OneShot(ops: seq<Op>, n: nat, default: Watcher, eventType: int, path: string)
    requires eventType != SESSION_EVENT && n < |ops| && ops[n] == Event(eventType, path)
    requires forall j | n < j < |ops| :: !(ops[j].Activate? && ops[j].path == path)
    ensures Fired(Run(ops), default, eventType, path) == {}
  {
    forall w ensures w !in Fired(Run(ops), default, eventType, path) {
      FiresIff(ops, default, eventType, path, w);
      forall i: nat, k | k in Selected(eventType) ensures !ArmedSince(ops, i, k, path, w) {
      }
    }
  }

  /** With a chroot, a watch set through a client path is reported under that path. */
  lemma NotifiedWithClientPath(chroot: string, clientPath: string, eventType: int)
    requires Chroot.ValidChroot(chroot) && ZkPath.ValidPath(clientPath) && eventType != SESSION_EVENT
    ensures ClientPath(chroot, eventType, Chroot.PrependString(chroot, clientPath)) == clientPath
    ensures ClientPath("", eventType, clientPath) == clientPath
    ensures ClientPath(chroot, SESSION_EVENT, clientPath) == clientPath
  {
    Chroot.SubUndoesPrepend(chroot, clientPath);
  }
}
