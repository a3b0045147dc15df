/** zktreeutil's own operations against a server: loading a subtree, executing the
    actions of a diff, and forced import of a saved subtree; and that what was
    imported is what loading then gives back. */
module ZkTreeUtil {
  import opened Prelude
  import opened ZkPath
  import opened ZkTree
  import opened ZkAdaptor
  import ZkTreeDiff
  import ZkTreeExact
  import ZkTreeSync

  // -------------------------------------------------------- canonical trees

  /** Siblings in name order, no flags: what loading from a server produces. */
  predicate Canonical(t: Node) {
    !t.ignore && Sorted(t.kids) && forall k | k in t.kids :: Canonical(k)
  }

  /** The children of flagged nodes are not written. */
  function Prune(t: Node): Node {
    Node(t.name, t.value, false, if t.ignore then [] else PruneAll(t.kids))
  }

  function PruneAll(kids: seq<Node>): (r: seq<Node>)
    ensures |r| == |kids|
  {
    if kids == [] then [] else [Prune(kids[0])] + PruneAll(kids[1..])
  }

  function Canon(t: Node): Node {
    Node(t.name, t.value, false, MapOf(CanonAll(t.kids)))
  }

  function CanonAll(kids: seq<Node>): (r: seq<Node>)
    ensures |r| == |kids|
  {
    if kids == [] then [] else [Canon(kids[0])] + CanonAll(kids[1..])
  }

  lemma {:induction false} FindPrune(kids: seq<Node>, x: string)
    ensures var k := Find(kids, x); Find(PruneAll(kids), x) == if k.Some? then Some(Prune(k.value)) else None
  {
    if kids != [] {
      FindPrune(kids[1..], x);
      assert ([Prune(kids[0])] + PruneAll(kids[1..]))[1..] == PruneAll(kids[1..]);
    }
  }

  lemma {:induction false} FindCanon(kids: seq<Node>, x: string)
    ensures var k := Find(kids, x); Find(CanonAll(kids), x) == if k.Some? then Some(Canon(k.value)) else None
  {
    if kids != [] {
      FindCanon(kids[1..], x);
      assert ([Canon(kids[0])] + CanonAll(kids[1..]))[1..] == CanonAll(kids[1..]);
    }
  }

  lemma {:induction false} PruneWF(t: Node)
    requires WF(t)
    ensures WF(Prune(t))
    decreases t, 1
  {
    if !t.ignore { PruneAllWF(t.kids); }
  }

  lemma {:induction false} PruneAllWF(kids: seq<Node>)
    requires WFKids(kids)
    ensures WFKids(PruneAll(kids))
    decreases kids, 0
  {
    if kids != [] {
      DistinctTail(kids);
      PruneWF(kids[0]);
      PruneAllWF(kids[1..]);
      FindPrune(kids[1..], kids[0].name);
      ZkTreeSync.ConsWF(Prune(kids[0]), PruneAll(kids[1..]));
    }
  }

  lemma {:induction false} CanonProps(t: Node)
    requires WF(t)
    ensures WF(Canon(t)) && Canonical(Canon(t))
    decreases t, 1
  {
    var r := CanonAll(t.kids);
    CanonAllProps(t.kids);
    MapOfWF(r);
    MapOfSorted(r);
  }

  lemma {:induction false} CanonAllProps(kids: seq<Node>)
    requires WFKids(kids)
    ensures WFKids(CanonAll(kids)) && forall k | k in CanonAll(kids) :: Canonical(k)
    decreases kids, 0
  {
    if kids != [] {
      DistinctTail(kids);
      CanonProps(kids[0]);
      CanonAllProps(kids[1..]);
      FindCanon(kids[1..], kids[0].name);
      ZkTreeSync.ConsWF(Canon(kids[0]), CanonAll(kids[1..]));
    }
  }

  /** Sorting siblings and clearing flags does not change what the server sees. */
  lemma {:induction false} CanonSame(b: string, t: Node)
    requires WF(t)
    ensures forall q :: At(b, Canon(t), q) == At(b, t, q)
    decreases t
  {
    forall q ensures At(b, Canon(t), q) == At(b, t, q) {
      if Below(b, q) {
        var x := Seg(b, q);
        CanonAllProps(t.kids);
        FindMapOf(CanonAll(t.kids), x);
        FindCanon(t.kids, x);
        var k := Find(t.kids, x);
        if k.Some? { CanonSame(Child(b, x), k.value); }
      }
    }
  }

  lemma {:induction false} SortedEqual(m1: seq<Node>, m2: seq<Node>)
    requires Sorted(m1) && Sorted(m2) && forall x :: Find(m1, x) == Find(m2, x)
    ensures m1 == m2
  {
    if m1 == [] {
      assert m2 != [] ==> Find(m1, m2[0].name) == Find(m2, m2[0].name);
    } else {
      var x := m1[0].name;
      assert Find(m2, x) == Some(m1[0]);
      HeadLeast(m1, m2[0]);
      HeadLeast(m2, m1[0]);
      LessTotal(x, m2[0].name);
      assert m1[0] == m2[0];
      SortedDistinct(m1);
      SortedDistinct(m2);
      DistinctTail(m1);
      DistinctTail(m2);
      forall y ensures Find(m1[1..], y) == Find(m2[1..], y) {
        assert Find(m1, y) == Find(m2, y);
      }
      SortedEqual(m1[1..], m2[1..]);
      assert m1 == [m1[0]] + m1[1..] && m2 == [m2[0]] + m2[1..];
    }
  }

  lemma HeadLeast(m: seq<Node>, n: Node)
    requires Sorted(m) && m != [] && Find(m, n.name).Some?
    ensures n.name == m[0].name || Less(m[0].name, n.name)
  {
    var k := Find(m, n.name).value;
    var i :| 0 <= i < |m| && m[i] == k;
  }

  /** Two canonical trees that look the same to the server are equal, up to the
      name of the top node. */
  lemma {:induction false} CanonicalUnique(b: string, t1: Node, t2: Node)
    requires WF(t1) && WF(t2) && Canonical(t1) && Canonical(t2) && Same(b, t1, t2)
    ensures t1.value == t2.value && t1.kids == t2.kids
    decreases t1
  {
    assert Under(b, Key(b)) && At(b, t1, Key(b)) == At(b, t2, Key(b));
    forall x ensures Find(t1.kids, x) == Find(t2.kids, x) {
      SameNames(b, t1, t2, x);
      var k1, k2 := Find(t1.kids, x), Find(t2.kids, x);
      if k1.Some? {
        SameChild(b, t1, t2, k1.value, k2.value);
        CanonicalUnique(Child(b, x), k1.value, k2.value);
      }
    }
    SortedEqual(t1.kids, t2.kids);
  }

  // ----------------------------------------------------------------- loading

  /** Last component of the path; the root is named by its path. */
  function NodeName(path: string): string {
    if path == "/" then path else path[LastSlash(path) + 1..]
  }

  function ReadAt(s: Server, q: string): Option<string> {
    if q in s then Some(ReadLimit(s[q])) else None
  }

  /** The tree shows every node at and below b, each with the value as it is read. */
  ghost predicate Shows(s: Server, b: string, t: Node) {
    forall q | Under(b, q) :: ReadAt(s, q) == At(b, t, q)
  }

  /** A tree that shows the server has its paths, each with the beginning of its value that
      fits the read buffer. */
  lemma ShownIsRead(s: Server, b: string, t: Node)
    requires Shows(s, b, t)
    ensures forall q | Under(b, q) ::
              var v := At(b, t, q);
              && (v.Some? <==> q in s)
              && (v.Some? ==> v.value <= s[q])
              && (v.Some? ==> |v.value| == if |s[q]| < 131072 then |s[q]| else 131071)
  {
    forall q | Under(b, q) ensures ReadAt(s, q) == At(b, t, q) {
    }
  }

  /** The name of a loaded node: "/" for the root, otherwise what follows the parent. */
  lemma NodeNameIs(b: string, n: string)
    requires ValidName(n)
    ensures NodeName("/") == "/" && NodeName(Child(b, n)) == n
  {
    ChildParts(b, n);
    ChildBelow(b, n);
  }

  /** What loading a path gives. */
  ghost predicate Loaded(s: Server, path: string, t: Node) {
    t.name == NodeName(path) && WF(t) && Canonical(t) && Shows(s, Base(path), t)
  }

  ghost predicate AllLoaded(s: Server, list: seq<string>, kids: seq<Node>) {
    |kids| <= |list| && forall j | 0 <= j < |kids| :: Loaded(s, list[j], kids[j])
  }

  lemma OneMore(s: Server, list: seq<string>, kids: seq<Node>, t: Node)
    requires |kids| < |list| && AllLoaded(s, list, kids) && Loaded(s, list[|kids|], t)
    ensures AllLoaded(s, list, kids + [t])
  {
    hide Loaded;
  }

  lemma ChildLoads(s: Server, path: string, c: string)
    requires ValidPath(path) && path in s && c in Children(s, path)
    ensures ValidPath(c) && c in s && Base(c) == c
    ensures |SubKeys(s, Base(c))| < |SubKeys(s, Base(path))|
  {
    SubKeysShrink(s, s, path, c);
    ChildOf(path, c);
  }

  /** The recursion behind loading and diffing. */
  method LoadSubtree(zk: ZooKeeperAdapter, path: string) returns (r: Result<Node>)
    requires zk.Valid()
    ensures r.Exception? <==> !ValidPath(path) || path !in zk.nodes
    ensures r.Returned? ==> Loaded(zk.nodes, path, r.value)
    decreases |SubKeys(zk.nodes, Base(path))|, 1
  {
    var value := zk.GetNodeData(path);
    if value.Exception? { return Exception; }
    var nodename := NodeName(path);
    var cnodes := zk.GetNodeChildren(path);
    if cnodes.Exception? { return Exception; }
    var kids := LoadChildren(zk, path, cnodes.value);
    if kids.Exception? { return Exception; }
    LoadedAll(zk.nodes, path, cnodes.value, kids.value);
    return Returned(Node(nodename, value.value, false, kids.value));
  }

  /** The loop of LoadSubtree. */
  method LoadChildren(zk: ZooKeeperAdapter, path: string, cnodes: seq<string>) returns (r: Result<seq<Node>>)
    requires zk.Valid() && ValidPath(path) && path in zk.nodes
    requires forall c | c in cnodes :: c in Children(zk.nodes, path)
    ensures r.Returned? && |r.value| == |cnodes| && AllLoaded(zk.nodes, cnodes, r.value)
    decreases |SubKeys(zk.nodes, Base(path))|, 0
  {
    var kids: seq<Node> := [];
    for i := 0 to |cnodes|
      invariant |kids| == i && AllLoaded(zk.nodes, cnodes, kids)
    {
      ChildLoads(zk.nodes, path, cnodes[i]);
      var k := LoadSubtree(zk, cnodes[i]);
      OneMore(zk.nodes, cnodes, kids, k.value);
      kids := kids + [k.value];
    }
    return Returned(kids);
  }

  lemma LessPrefix(a: string, x: string, y: string)
    ensures Less(a + x, a + y) <==> Less(x, y)
  {
    if a == "" {
      assert a + x == x && a + y == y;
    } else {
      assert (a + x)[1..] == a[1..] + x && (a + y)[1..] == a[1..] + y;
      LessPrefix(a[1..], x, y);
    }
  }

  lemma LoadedSorted(path: string, list: seq<string>, kids: seq<Node>)
    requires SortedPaths(list) && |kids| == |list|
    requires forall j | 0 <= j < |list| :: IsChild(list[j], path) && kids[j].name == NodeName(list[j])
    ensures Sorted(kids)
    ensures forall j | 0 <= j < |list| :: ValidName(kids[j].name) && list[j] == Child(Base(path), kids[j].name)
  {
    forall j | 0 <= j < |list| ensures ValidName(kids[j].name) && list[j] == Child(Base(path), kids[j].name) {
      ChildOf(path, list[j]);
    }
    forall i, j | 0 <= i < j < |kids| ensures Less(kids[i].name, kids[j].name) {
      LessPrefix(Base(path) + "/", kids[i].name, kids[j].name);
    }
  }

  lemma LoadedAll(s: Server, path: string, list: seq<string>, kids: seq<Node>)
    requires Closed(s) && ValidPath(path) && path in s
    requires SortedPaths(list) && forall c :: c in list <==> c in Children(s, path)
    requires |kids| == |list| && AllLoaded(s, list, kids)
    ensures WFKids(kids) && Sorted(kids) && forall k | k in kids :: Canonical(k)
    ensures Shows(s, Base(path), Node(NodeName(path), ReadLimit(s[path]), false, kids))
  {
    var b, t := Base(path), Node(NodeName(path), ReadLimit(s[path]), false, kids);
    assert forall j | 0 <= j < |list| :: list[j] in list;
    LoadedSorted(path, list, kids);
    SortedDistinct(kids);
    forall q | Under(b, q) ensures ReadAt(s, q) == At(b, t, q) {
      if Below(b, q) { LoadedBelow(s, path, list, kids, q); }
    }
  }

  /** The load command of the tool. */
  method LoadZkTree(zk: ZooKeeperAdapter, path: string) returns (r: Result<Node>)
    requires zk.Valid()
    ensures r.Exception? <==> !ValidPath(path) || path !in zk.nodes
    ensures r.Returned? ==> r.value.name == NodeName(path) && WF(r.value) && Canonical(r.value)
    ensures r.Returned? ==>
              forall q | Under(Base(path), q) ::
                var v := At(Base(path), r.value, q);
                && (v.Some? <==> q in zk.nodes)
                && (v.Some? ==> v.value <= zk.nodes[q])
                && (v.Some? ==> |v.value| == if |zk.nodes[q]| < 131072 then |zk.nodes[q]| else 131071)
  {
    var present := zk.NodeExists(path);
    if present.Exception? || !present.value { return Exception; }
    r := LoadSubtree(zk, path);
    if r.Returned? { ShownIsRead(zk.nodes, Base(path), r.value); }
  }

  lemma LoadedPresent(s: Server, path: string, list: seq<string>, kids: seq<Node>, q: string)
    requires Closed(s) && ValidPath(path) && Below(Base(path), q) && q in s
    requires forall c :: c in list <==> c in Children(s, path)
    requires |kids| == |list|
    requires forall j | 0 <= j < |list| :: ValidName(kids[j].name) && list[j] == Child(Base(path), kids[j].name)
    ensures Find(kids, Seg(Base(path), q)).Some?
  {
    var b := Base(path);
    var x := Seg(b, q);
    assert |q| >= |b| + 1;
    StepExists(s, b, q);
    ChildIs(b, x);
    assert Child(b, x) in list;
    var j :| 0 <= j < |list| && list[j] == Child(b, x);
    ChildParts(b, x);
    ChildParts(b, kids[j].name);
    assert kids[j] in kids;
  }

  lemma ShownBelow(s: Server, c: string, t: Node, q: string)
    requires Loaded(s, c, t) && |c| > 1 && Under(c, q)
    ensures ReadAt(s, q) == At(c, t, q)
  {
  }

  lemma LoadedBelow(s: Server, path: string, list: seq<string>, kids: seq<Node>, q: string)
    requires Closed(s) && ValidPath(path) && Below(Base(path), q)
    requires forall c :: c in list <==> c in Children(s, path)
    requires |kids| == |list| && AllLoaded(s, list, kids)
    requires forall j | 0 <= j < |list| :: ValidName(kids[j].name) && list[j] == Child(Base(path), kids[j].name)
    ensures ReadAt(s, q) == KidsAt(Base(path), kids, q)
  {
    var b := Base(path);
    var k := Find(kids, Seg(b, q));
    if k.Some? {
      var j :| 0 <= j < |list| && kids[j] == k.value;
      UnderChild(b, k.value.name, q);
      ShownBelow(s, list[j], kids[j], q);
    } else if q in s {
      LoadedPresent(s, path, list, kids, q);
    }
  }

  // --------------------------------------------------------------- executing

  /** The actions that are confirmed; without the interactive flag, all of them. */
  function Chosen(actions: seq<Action>, confirmed: seq<bool>): seq<Action>
    requires |actions| == |confirmed|
  {
    if actions == [] then []
    else (if confirmed[0] then [actions[0]] else []) + Chosen(actions[1..], confirmed[1..])
  }

  lemma {:induction false} AllChosen(actions: seq<Action>, confirmed: seq<bool>)
    requires |actions| == |confirmed| && forall i | 0 <= i < |actions| :: confirmed[i]
    ensures Chosen(actions, confirmed) == actions
  {
    if actions != [] { AllChosen(actions[1..], confirmed[1..]); }
  }

  /** Confirmed actions stay, in order, and the others go. */
  lemma {:induction false} ChosenConcat(a: seq<Action>, x: seq<bool>, b: seq<Action>, y: seq<bool>)
    requires |a| == |x| && |b| == |y|
    ensures Chosen(a + b, x + y) == Chosen(a, x) + Chosen(b, y)
    ensures forall c: Action :: Chosen([c], [true]) == [c] && Chosen([c], [false]) == []
  {
    if a == [] {
      assert a + b == b && x + y == y;
    } else {
      assert (a + b)[1..] == a[1..] + b && (x + y)[1..] == x[1..] + y;
      ChosenConcat(a[1..], x[1..], b, y);
      Assoc(if x[0] then [a[0]] else [], Chosen(a[1..], x[1..]), Chosen(b, y));
    }
    assert forall c: Action :: [c][1..] == [] && [true][1..] == [] && [false][1..] == [];
  }

  lemma ChosenStep(actions: seq<Action>, confirmed: seq<bool>, i: nat, s: Server)
    requires i < |actions| == |confirmed|
    ensures var (rest, later) := (Chosen(actions[i..], confirmed[i..]), Chosen(actions[i + 1..], confirmed[i + 1..]));
            Exec(rest, s) ==
            if !confirmed[i] then Exec(later, s)
            else var r := ExecOne(actions[i], s); if r.Threw? then r else Exec(later, r.s)
  {
    var later := Chosen(actions[i + 1..], confirmed[i + 1..]);
    assert actions[i..][1..] == actions[i + 1..] && confirmed[i..][1..] == confirmed[i + 1..];
    if confirmed[i] {
      assert ([actions[i]] + later)[1..] == later;
    } else {
      assert [] + later == later;
    }
  }

  /** Without the execute flag the actions are only printed. In interactive execution
      each action waits for its confirmation. An exception of the adapter ends the loop. */
  method ExecuteZkActions(zk: ZooKeeperAdapter, actions: seq<Action>, execute: bool, confirmed: seq<bool>)
    returns (threw: bool)
    requires zk.Valid() && |actions| == |confirmed|
    modifies zk
    ensures zk.Valid()
    ensures !execute ==> !threw && zk.nodes == old(zk.nodes)
    ensures execute ==>
              var r := Exec(Chosen(actions, confirmed), old(zk.nodes));
              threw == r.Threw? && zk.nodes == r.s
  {
    ghost var all := Exec(Chosen(actions, confirmed), zk.nodes);
    assert actions[0..] == actions && confirmed[0..] == confirmed;
    for i := 0 to |actions|
      invariant zk.Valid()
      invariant !execute ==> zk.nodes == old(zk.nodes)
      invariant execute ==> Exec(Chosen(actions[i..], confirmed[i..]), zk.nodes) == all
    {
      ChosenStep(actions, confirmed, i, zk.nodes);
      if execute && confirmed[i] {
        threw := ExecuteOne(zk, actions[i]);
        if threw { return; }
      }
    }
    threw := false;
  }

  method ExecuteOne(zk: ZooKeeperAdapter, a: Action) returns (threw: bool)
    requires zk.Valid()
    modifies zk
    ensures zk.Valid()
    ensures var r := ExecOne(a, old(zk.nodes)); threw == r.Threw? && zk.nodes == r.s
  {
    match a
    case Create(p) =>
      ghost var s := zk.nodes;
      CreateMeaning(s, p);
      var r := zk.CreateNode(p, "", false);
      threw := r.Exception?;
    case Delete(p) =>
      DeleteMeaning(zk.nodes, p);
      var r := zk.DeleteNode(p, true);
      threw := r.Exception?;
    case Value(p, v, _) =>
      var r := zk.SetNodeData(p, v);
      threw := r.Exception?;
  }

  /** The adapter's creation without ancestors is the one actions are read by. */
  lemma CreateMeaning(s: Server, p: string)
    requires Closed(s)
    ensures ValidPath(p) && p != "/" && ParentKey(p) in s ==> CreateDeep(s, p, "") == s[p := ""]
  {
    if ValidPath(p) && p != "/" && ParentKey(p) in s { CreateShallow(s, p, ""); }
  }

  lemma DeleteMeaning(s: Server, p: string)
    requires Closed(s)
    ensures ValidPath(p) && p != "/" && p !in s ==> RemoveUnder(s, p) == s
  {
    if ValidPath(p) && p != "/" { RemoveMissing(s, p); }
  }

  function Limited(v: Option<string>): Option<string> {
    if v.None? then None else Some(ReadLimit(v.value))
  }

  /** The server with every value at and below b as it is read. */
  function AsRead(s: Server, b: string): Server {
    map q | q in s :: if Under(b, q) then ReadLimit(s[q]) else s[q]
  }

  /** Two servers under the same actions, one begun from s0 and one from s0 as read: a path
      has the same value in both, or still has what it had. */
  ghost predicate Tracks(s: Server, s1: Server, s0: Server, b: string) {
    s.Keys == s1.Keys &&
    forall q | q in s :: s[q] == s1[q] || (q in s0 && Under(b, q) && s[q] == s0[q] && s1[q] == ReadLimit(s0[q]))
  }

  lemma ExecOneTracks(a: Action, s: Server, s1: Server, s0: Server, b: string)
    requires Tracks(s, s1, s0, b)
    ensures var (r, r1) := (ExecOne(a, s), ExecOne(a, s1)); (r.Done? <==> r1.Done?) && Tracks(r.s, r1.s, s0, b)
  {
  }

  lemma {:induction false} ExecTracks(acts: seq<Action>, s: Server, s1: Server, s0: Server, b: string)
    requires Tracks(s, s1, s0, b)
    ensures var (r, r1) := (Exec(acts, s), Exec(acts, s1)); (r.Done? <==> r1.Done?) && Tracks(r.s, r1.s, s0, b)
  {
    if acts != [] {
      ExecOneTracks(acts[0], s, s1, s0, b);
      if ExecOne(acts[0], s).Done? { ExecTracks(acts[1..], ExecOne(acts[0], s).s, ExecOne(acts[0], s1).s, s0, b); }
    }
  }

  /** No action creates q or sets its value. */
  predicate Spares(acts: seq<Action>, q: string) {
    forall a | a in acts :: a.key == q ==> a.Delete?
  }

  lemma {:induction false} Untouched(acts: seq<Action>, s: Server, q: string)
    requires Spares(acts, q) && q in Exec(acts, s).s
    ensures q in s && Exec(acts, s).s[q] == s[q]
  {
    if acts != [] {
      var r := ExecOne(acts[0], s);
      assert acts[0] in acts;
      if r.Done? { Untouched(acts[1..], r.s, q); }
    }
  }

  /** What the update leaves at a path: the value that was there, whole, if the merge has
      what was read, and the value of the merge otherwise. */
  function AfterUpdate(s0: Server, b: string, loaded: Node, live: Node, q: string): Option<string> {
    var merged := At(b, ZkTreeDiff.Merge(loaded, live), q);
    if merged == At(b, live, q) then Get(s0, q) else merged
  }

  /** The server s1 after the update of server s0, of which live was read. */
  ghost predicate Updated(s0: Server, s1: Server, b: string, loaded: Node, live: Node) {
    && WF(live) && Shows(s0, b, live)
    && forall q :: Get(s1, q) == if Under(b, q) then AfterUpdate(s0, b, loaded, live, q) else Get(s0, q)
  }

  lemma AsReadHolds(s: Server, b: string, live: Node)
    requires Shows(s, b, live)
    ensures Holds(AsRead(s, b), b, live) && Tracks(s, AsRead(s, b), s, b)
  {
    forall q | Under(b, q) ensures Get(AsRead(s, b), q) == At(b, live, q) { assert ReadAt(s, q) == At(b, live, q); }
  }

  /** A path that has the same value in the live tree and in the merge is left alone. */
  lemma DiffSpares(path: string, loaded: Node, live: Node, q: string)
    requires ValidPath(path) && WF(loaded) && WF(live)
    requires At(Base(path), live, q).Some?
    requires At(Base(path), ZkTreeDiff.Merge(loaded, live), q) == At(Base(path), live, q)
    ensures Spares(ZkTreeDiff.Diff(path, loaded, live), q)
  {
    forall a | a in ZkTreeDiff.Diff(path, loaded, live) && a.key == q ensures a.Delete? {
      ZkTreeExact.DiffIsMinimal(path, loaded, live, a);
    }
  }

  /** A diff against what was read does its work on values that were not read whole. */
  lemma DiffAsRead(s: Server, path: string, loaded: Node, live: Node)
    requires ValidPath(path) && WF(loaded) && WF(live) && Shows(s, Base(path), live)
    ensures var r := Exec(ZkTreeDiff.Diff(path, loaded, live), s);
            r.Done? && Updated(s, r.s, Base(path), loaded, live)
  {
    var b, acts := Base(path), ZkTreeDiff.Diff(path, loaded, live);
    var s1 := AsRead(s, b);
    AsReadHolds(s, b, live);
    ZkTreeSync.DiffReachesMerge(s1, path, loaded, live);
    ExecTracks(acts, s, s1, s, b);
    var r, r1 := Exec(acts, s).s, Exec(acts, s1).s;
    forall q ensures Get(r, q) == if Under(b, q) then AfterUpdate(s, b, loaded, live, q) else Get(s, q) {
      if Under(b, q) {
        assert Get(r1, q) == At(b, ZkTreeDiff.Merge(loaded, live), q);
        assert ReadAt(s, q) == At(b, live, q);
        if q in r && At(b, ZkTreeDiff.Merge(loaded, live), q) == At(b, live, q) {
          DiffSpares(path, loaded, live, q);
          Untouched(acts, s, q);
        }
      } else {
        assert Get(r1, q) == Get(s1, q);
      }
    }
  }

  /** After an update the subtree reads as the merge. It is the merge exactly when the merge
      changes or removes every value that was too long to be read whole. */
  lemma UpdateIsMergeIff(s0: Server, s1: Server, b: string, loaded: Node, live: Node)
    requires Updated(s0, s1, b, loaded, live)
    ensures var m := ZkTreeDiff.Merge(loaded, live);
            && (forall q | Under(b, q) :: ReadAt(s1, q) == Limited(At(b, m, q)))
            && (Holds(s1, b, m) <==>
                forall q | Under(b, q) && q in s0 && ReadLimit(s0[q]) != s0[q] :: At(b, m, q) != At(b, live, q))
  {
    var m := ZkTreeDiff.Merge(loaded, live);
    forall q | Under(b, q)
      ensures ReadAt(s1, q) == Limited(At(b, m, q))
      ensures Get(s1, q) == At(b, m, q) <==>
              (q in s0 && ReadLimit(s0[q]) != s0[q] ==> At(b, m, q) != At(b, live, q))
    {
      assert Get(s1, q) == AfterUpdate(s0, b, loaded, live, q);
      assert ReadAt(s0, q) == At(b, live, q);
    }
  }

  /** The update command of the tool: load, diff, execute. */
  method Update(zk: ZooKeeperAdapter, path: string, loaded: Node) returns (threw: bool, ghost live: Node)
    requires zk.Valid() && WF(loaded)
    modifies zk
    ensures zk.Valid()
    ensures threw <==> !ValidPath(path) || path !in old(zk.nodes)
    ensures threw ==> zk.nodes == old(zk.nodes)
    ensures !threw ==> Updated(old(zk.nodes), zk.nodes, Base(path), loaded, live)
  {
    live := loaded;
    ghost var s := zk.nodes;
    var r := LoadSubtree(zk, path);
    if r.Exception? { return true, live; }
    live := r.value;
    var actions := ZkTreeDiff.DiffZkTree(path, loaded, r.value);
    DiffAsRead(s, path, loaded, live);
    var all := seq(|actions|, _ => true);
    AllChosen(actions, all);
    threw := ExecuteZkActions(zk, actions, true, all);
  }

  // ----------------------------------------------------------------- writing

  predicate NulFree(t: Node) {
    '\0' !in t.value && forall k | k in t.kids :: NulFree(k)
  }

  predicate Readable(t: Node) {
    ReadLimit(t.value) == t.value && forall k | k in t.kids :: Readable(k)
  }

  function WriteActs(t: Node, p: string): seq<Action>
    decreases t, 1
  {
    WriteTop(t, p) + (if t.ignore then [] else WriteKids(t.kids, p))
  }

  function WriteTop(t: Node, p: string): seq<Action> {
    [Create(p)] + (if t.value != "" then [Value(p, CStr(t.value), "")] else [])
  }

  function WriteKids(kids: seq<Node>, p: string): seq<Action>
    decreases kids, 0
  {
    if kids == [] then []
    else WriteActs(kids[0], Child(Base(p), kids[0].name)) + WriteKids(kids[1..], p)
  }

  method WriteOne(zk: ZooKeeperAdapter, t: Node, path: string) returns (threw: bool)
    requires zk.Valid()
    modifies zk
    ensures zk.Valid()
    ensures var r := Exec(WriteTop(t, path), old(zk.nodes)); threw == r.Threw? && zk.nodes == r.s
  {
    ghost var set1 := if t.value != "" then [Value(path, CStr(t.value), "")] else [];
    ExecConcat([Create(path)], set1, zk.nodes);
    ZkTreeSync.ExecSingle(Create(path), zk.nodes);
    CreateMeaning(zk.nodes, path);
    var r := zk.CreateNode(path, "", false);
    if r.Exception? { return true; }
    if t.value != "" {
      ZkTreeSync.ExecSingle(Value(path, CStr(t.value), ""), zk.nodes);
      var r1 := zk.SetNodeData(path, CStr(t.value));
      return r1.Exception?;
    }
    return false;
  }

  /** The recursive writer: create, set the value unless empty, then the children
      unless the node is flagged. */
  method WriteNode(zk: ZooKeeperAdapter, t: Node, path: string) returns (threw: bool)
    requires zk.Valid()
    modifies zk
    ensures zk.Valid()
    ensures var r := Exec(WriteActs(t, path), old(zk.nodes)); threw == r.Threw? && zk.nodes == r.s
    decreases t, 1
  {
    ExecConcat(WriteTop(t, path), if t.ignore then [] else WriteKids(t.kids, path), zk.nodes);
    threw := WriteOne(zk, t, path);
    if threw { return; }
    if !t.ignore {
      threw := WriteChildren(zk, t, path);
    }
  }

  /** The loop of WriteNode. */
  method WriteChildren(zk: ZooKeeperAdapter, t: Node, path: string) returns (threw: bool)
    requires zk.Valid()
    modifies zk
    ensures zk.Valid()
    ensures var r := Exec(WriteKids(t.kids, path), old(zk.nodes)); threw == r.Threw? && zk.nodes == r.s
    decreases t, 0
  {
    ghost var all := Exec(WriteKids(t.kids, path), zk.nodes);
    assert t.kids[0..] == t.kids;
    for i := 0 to |t.kids|
      invariant zk.Valid()
      invariant Exec(WriteKids(t.kids[i..], path), zk.nodes) == all
    {
      var k := t.kids[i];
      ZkTreeDiff.From(t.kids, i);
      var cpath := Child(if path != "/" then path else "", k.name);
      ExecConcat(WriteActs(k, cpath), WriteKids(t.kids[i + 1..], path), zk.nodes);
      threw := WriteNode(zk, k, cpath);
      if threw { return; }
    }
    assert t.kids[|t.kids|..] == [];
    threw := false;
  }

  /** What forced import leaves of the server before it writes: at the root everything
      but the node reserved for ZooKeeper's use stays only at the top. */
  function Cleared(s: Server, path: string): Server {
    if path != "/" then RemoveUnder(s, path)
    else map q | q in s && (q == "/" || Under("/zookeeper", q)) :: s[q]
  }

  /** Without force the tree is written over what is there; with force, the node at the
      path goes first with its subtree, or the children of the root do. */
  method WriteZkTree(zk: ZooKeeperAdapter, t: Node, path: string, force: bool) returns (threw: bool)
    requires zk.Valid()
    modifies zk
    ensures zk.Valid()
    ensures !ValidPath(path) ==> threw && zk.nodes == old(zk.nodes)
    ensures ValidPath(path) ==>
              var s := if force then Cleared(old(zk.nodes), path) else old(zk.nodes);
              var r := Exec(WriteActs(t, path), s);
              threw == r.Threw? && zk.nodes == r.s
  {
    if force {
      if path != "/" {
        DeleteMeaning(zk.nodes, path);
        var present := zk.NodeExists(path);
        if present.Exception? { return true; }
        if present.value {
          var r := zk.DeleteNode(path, true);
          if r.Exception? { return true; }
        }
      } else {
        DeleteRooted(zk);
      }
    }
    if !ValidPath(path) { InvalidWrite(zk.nodes, t, path); }
    threw := WriteNode(zk, t, path);
  }

  ghost predicate Gone(list: seq<string>, n: nat, q: string)
    requires n <= |list|
  {
    exists j | 0 <= j < n :: list[j] != "/zookeeper" && Under(list[j], q)
  }

  ghost function Left(s: Server, list: seq<string>, n: nat): Server
    requires n <= |list|
  {
    map q | q in s && !Gone(list, n, q) :: s[q]
  }

  /** The loop over the children of the root. */
  method DeleteRooted(zk: ZooKeeperAdapter)
    requires zk.Valid()
    modifies zk
    ensures zk.Valid() && zk.nodes == Cleared(old(zk.nodes), "/")
  {
    ghost var s := zk.nodes;
    assert ValidPath("/");
    var cnodes := zk.GetNodeChildren("/");
    if cnodes.Exception? { return; }
    assert Left(s, cnodes.value, 0) == s;
    for i := 0 to |cnodes.value|
      invariant zk.Valid() && zk.nodes == Left(s, cnodes.value, i)
    {
      var c := cnodes.value[i];
      assert c in Children(s, "/");
      LeftStep(s, cnodes.value, i);
      if c != "/zookeeper" {
        RemoveMissing(zk.nodes, c);
        var r := zk.DeleteNode(c, true);
      }
    }
    RootedGone(s, cnodes.value);
  }

  lemma LeftStep(s: Server, list: seq<string>, n: nat)
    requires n < |list|
    ensures Left(s, list, n + 1) ==
            if list[n] == "/zookeeper" then Left(s, list, n) else RemoveUnder(Left(s, list, n), list[n])
  {
  }

  lemma RootedGone(s: Server, list: seq<string>)
    requires Closed(s) && forall c :: c in list <==> c in Children(s, "/")
    ensures Left(s, list, |list|) == Cleared(s, "/")
  {
    forall q | q in s ensures Gone(list, |list|, q) <==> q != "/" && !Under("/zookeeper", q) {
      assert Attached(s, q);
      if q != "/" { RootChildGone(s, list, q); } else { RootStays(s, list); }
    }
  }

  lemma RootStays(s: Server, list: seq<string>)
    requires forall c :: c in list <==> c in Children(s, "/")
    ensures !Gone(list, |list|, "/")
  {
    forall j | 0 <= j < |list| ensures !Under(list[j], "/") {
      assert list[j] in list;
      KeyOfBase(list[j]);
      ValidNotSingle(list[j]);
    }
  }

  lemma RootChildGone(s: Server, list: seq<string>, q: string)
    requires Closed(s) && q in s && q != "/" && ValidPath(q)
    requires forall c :: c in list <==> c in Children(s, "/")
    ensures Gone(list, |list|, q) <==> !Under("/zookeeper", q)
  {
    var c := RootChildOf(s, q);
    assert c in list;
    forall j | 0 <= j < |list| && Under(list[j], q) ensures list[j] == c {
      assert list[j] in list;
      RootChildSeg(list[j], q);
    }
    var j :| 0 <= j < |list| && list[j] == c;
  }

  lemma RootChildOf(s: Server, q: string) returns (c: string)
    requires Closed(s) && q in s && q != "/" && ValidPath(q)
    ensures Below("", q) && c == Child("", Seg("", q)) && c in Children(s, "/") && Under(c, q)
    ensures Under("/zookeeper", q) <==> c == "/zookeeper"
  {
    BelowRoot(q);
    StepExists(s, "", q);
    c := Child("", Seg("", q));
    ChildIs("", Seg("", q));
    Reserved(q, Seg("", q));
  }

  lemma BelowRoot(q: string)
    requires q != "/" && ValidPath(q)
    ensures Below("", q)
  {
    BaseStartsWithSlash(q);
  }

  lemma Reserved(q: string, x: string)
    requires Below("", q) && x == Seg("", q) && ValidName(x)
    ensures Under(Child("", x), q)
    ensures Under("/zookeeper", q) <==> Child("", x) == "/zookeeper"
  {
    UnderChild("", x, q);
    UnderChild("", "zookeeper", q);
    assert Child("", "zookeeper") == "/zookeeper";
    SameChildName(x, "zookeeper");
  }

  lemma SameChildName(x: string, y: string)
    ensures Child("", x) == Child("", y) <==> x == y
  {
    assert Child("", x)[1..] == x && Child("", y)[1..] == y;
  }

  lemma RootChildSeg(c: string, q: string)
    requires IsChild(c, "/") && Under(c, q)
    ensures Below("", q) && c == Child("", Seg("", q))
  {
    ChildOf("/", c);
    UnderChild("", c[LastSlash(c) + 1..], q);
  }

  lemma InvalidWrite(s: Server, t: Node, p: string)
    requires !ValidPath(p)
    ensures Exec(WriteActs(t, p), s) == Threw(s)
  {
    assert WriteActs(t, p)[0] == Create(p);
  }

  /** Writing is copying the pruned tree. */
  lemma {:induction false} WriteIsCopy(t: Node, p: string)
    requires WF(t) && NulFree(t) && p != ""
    ensures WriteActs(t, p) == ZkTreeDiff.TopActs(Prune(t), p) + ZkTreeDiff.AddKids(Prune(t).kids, Base(p))
    decreases t, 1
  {
    CStrNulFree(t.value);
    if !t.ignore { WriteKidsIsCopy(t.kids, p); }
  }

  lemma {:induction false} WriteKidsIsCopy(kids: seq<Node>, p: string)
    requires p != "" && WFKids(kids) && forall k | k in kids :: NulFree(k)
    ensures WriteKids(kids, p) == ZkTreeDiff.AddKids(PruneAll(kids), Base(p))
    decreases kids, 0
  {
    if kids != [] {
      var c := Child(Base(p), kids[0].name);
      assert |c| >= 2;
      DistinctTail(kids);
      WriteIsCopy(kids[0], c);
      WriteKidsIsCopy(kids[1..], p);
      assert PruneAll(kids)[1..] == PruneAll(kids[1..]);
    }
  }

  /** Where the path exists or its parent does, writing raises no exception and lays the
      pruned tree over the server. */
  lemma WriteEffect(s: Server, path: string, t: Node)
    requires ValidPath(path) && (path in s || (path != "/" && ParentKey(path) in s))
    requires WF(t) && NulFree(t)
    ensures var r := Exec(WriteActs(t, path), s);
            r.Done? && ZkTreeSync.AddsTree(s, Base(path), Prune(t), r.s)
  {
    var m, b := Prune(t), Base(path);
    WriteIsCopy(t, path);
    PruneWF(t);
    ZkTreeSync.LayTop(m, path, s);
    var s1 := Exec(ZkTreeDiff.TopActs(m, path), s).s;
    ZkTreeSync.AddKidsEffect(m.kids, b, s1);
    ExecConcat(ZkTreeDiff.TopActs(m, path), ZkTreeDiff.AddKids(m.kids, b), s);
    ZkTreeSync.TreeLaid(m, b, s, s1, Exec(WriteActs(t, path), s).s);
  }

  /** Forced import at the root. */
  lemma RootWritten(s: Server, t: Node)
    requires Closed(s) && WF(t) && NulFree(t)
    ensures var r := Exec(WriteActs(t, "/"), Cleared(s, "/"));
            r.Done? && Get(r.s, "/") == Some(if t.value != "" then t.value else s["/"]) &&
            forall q | q != "/" ::
              Get(r.s, q) == if Under("/zookeeper", q) then ZkTreeSync.Laid(At("", Prune(t), q), Get(s, q))
                             else At("", Prune(t), q)
  {
    var s0 := Cleared(s, "/");
    WriteEffect(s0, "/", t);
    var s1 := Exec(WriteActs(t, "/"), s0).s;
    assert Get(s1, "/") == ZkTreeSync.Laid(At("", Prune(t), "/"), Get(s0, "/"));
    forall q | q != "/"
      ensures Get(s1, q) == if Under("/zookeeper", q) then ZkTreeSync.Laid(At("", Prune(t), q), Get(s, q))
                            else At("", Prune(t), q)
    {
      assert Get(s1, q) == ZkTreeSync.Laid(At("", Prune(t), q), Get(s0, q));
    }
  }

  lemma {:induction false} AtReadable(b: string, t: Node, q: string)
    requires Readable(t)
    ensures var v := At(b, t, q); v.Some? ==> ReadLimit(v.value) == v.value
    decreases t
  {
    if Below(b, q) {
      var k := Find(t.kids, Seg(b, q));
      if k.Some? { AtReadable(Child(b, Seg(b, q)), k.value, q); }
    }
  }

  lemma {:induction false} PruneReadable(t: Node)
    requires Readable(t)
    ensures Readable(Prune(t))
    decreases t, 1
  {
    if !t.ignore { PruneAllReadable(t.kids); }
  }

  lemma {:induction false} PruneAllReadable(kids: seq<Node>)
    requires forall k | k in kids :: Readable(k)
    ensures forall k | k in PruneAll(kids) :: Readable(k)
    decreases kids, 0
  {
    if kids != [] {
      PruneReadable(kids[0]);
      PruneAllReadable(kids[1..]);
    }
  }

  /** Forced import below an existing parent, then loading: the writer raises no
      exception and touches nothing else, and the loaded tree is the imported one with
      the children of flagged nodes pruned, flags cleared and siblings sorted. */
  lemma WriteThenLoad(s: Server, path: string, t: Node, u: Node)
    requires Closed(s) && ValidPath(path) && path != "/" && ParentKey(path) in s
    requires WF(t) && NulFree(t) && Readable(t)
    ensures var r := Exec(WriteActs(t, path), Cleared(s, path));
            && r.Done? && (forall q | !Under(path, q) :: Get(r.s, q) == Get(s, q))
            && (Loaded(r.s, path, u) ==> u == Canon(Prune(t)).(name := NodeName(path)))
  {
    var s0, m := Cleared(s, path), Prune(t);
    PruneWF(t);
    PruneReadable(t);
    KeyOfBase(path);
    WriteEffect(s0, path, t);
    var s1 := Exec(WriteActs(t, path), s0).s;
    forall q ensures Get(s1, q) == if Under(path, q) then At(path, m, q) else Get(s, q) {
      assert Get(s1, q) == ZkTreeSync.Laid(At(path, m, q), Get(s0, q));
    }
    if Loaded(s1, path, u) {
      CanonProps(m);
      CanonSame(path, m);
      forall q | Under(path, q) ensures At(path, u, q) == At(path, Canon(m), q) {
        AtReadable(path, m, q);
        assert ReadAt(s1, q) == At(path, u, q);
      }
      CanonicalUnique(path, u, Canon(m));
    }
  }
}
