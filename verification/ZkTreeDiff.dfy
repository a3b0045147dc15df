/** zktreeutil's diff of a saved tree against a live one: the breadth-first
    algorithm, the tree that executing its actions leaves behind, and when there is
    nothing to do. */
module ZkTreeDiff {
  import opened Prelude
  import opened ZkPath
  import opened ZkTree

  // ---------------------------------------------------- what the diff is for

  /** The intended result: below a node present in both trees, a child in both takes
      the saved value and is merged, unless flagged ignore, in which case the live
      subtree stays; a saved-only child is copied whole unless flagged ignore; a
      live-only child goes. The flag of the top node is not looked at. */
  function Merge(loaded: Node, live: Node): Node
    decreases loaded, 1
  {
    Node(live.name, loaded.value, false, MergeKids(loaded.kids, live.kids))
  }

  function MergeKids(loaded: seq<Node>, live: seq<Node>): seq<Node>
    decreases loaded, 0
  {
    if loaded == [] then []
    else
      var k, v, rest := loaded[0], Find(live, loaded[0].name), MergeKids(loaded[1..], live);
      if v.Some? then [if k.ignore then v.value else Merge(k, v.value)] + rest
      else if k.ignore then rest
      else [k] + rest
  }

  // ----------------------------------------------------------- the algorithm

  /** A pair of nodes still to be compared below, with the base of their path. */
  datatype Work = Work(base: string, loaded: Node, live: Node)

  /** The actions for the children of one pair, the pairs to compare later, and the
      live children not matched. */
  datatype KidDiff = KidDiff(acts: seq<Action>, pend: seq<Work>, rest: seq<Node>)

  function TopActs(k: Node, p: string): seq<Action> {
    [Create(p)] + (if k.value != "" then [Value(p, k.value, "")] else [])
  }

  function AddTree(k: Node, p: string): seq<Action>
    decreases k, 1
  {
    TopActs(k, p) + AddKids(k.kids, p)
  }

  function AddKids(kids: seq<Node>, p: string): seq<Action>
    decreases kids, 0
  {
    if kids == [] then []
    else AddTree(kids[0], Child(p, kids[0].name)) + AddKids(kids[1..], p)
  }

  /** The loop over the saved children, threading the map of live children. */
  function DiffKids(b: string, ks: seq<Node>, live: seq<Node>): KidDiff {
    if ks == [] then KidDiff([], [], live)
    else
      var k, p, v := ks[0], Child(b, ks[0].name), Find(live, ks[0].name);
      if v.Some? then
        var r := DiffKids(b, ks[1..], Erase(live, k.name));
        if k.ignore then r
        else KidDiff((if k.value != v.value.value then [Value(p, k.value, v.value.value)] else []) + r.acts,
                     [Work(p, k, v.value)] + r.pend, r.rest)
      else
        var r := DiffKids(b, ks[1..], live);
        if k.ignore then r else KidDiff(AddTree(k, p) + r.acts, r.pend, r.rest)
  }

  function DeleteAll(b: string, rest: seq<Node>): seq<Action> {
    if rest == [] then []
    else [Delete(Child(b, rest[0].name))] + DeleteAll(b, rest[1..])
  }

  function DiffNode(w: Work): KidDiff {
    DiffKids(w.base, MapOf(w.loaded.kids), MapOf(w.live.kids))
  }

  function NodeActs(w: Work): seq<Action> {
    DiffNode(w).acts + DeleteAll(w.base, DiffNode(w).rest)
  }

  function Weight(work: seq<Work>): nat {
    if work == [] then 0 else Size(work[0].loaded) + Weight(work[1..])
  }

  /** The growing worklist, first in first out. */
  function DiffWork(work: seq<Work>): seq<Action>
    decreases Weight(work)
  {
    if work == [] then []
    else
      WeightShrinks(work);
      NodeActs(work[0]) + DiffWork(work[1..] + DiffNode(work[0]).pend)
  }

  function Diff(path: string, loaded: Node, live: Node): seq<Action> {
    (if loaded.value != live.value then [Value(path, loaded.value, live.value)] else [])
    + DiffWork([Work(Base(path), loaded, live)])
  }

  lemma {:induction false} WeightConcat(a: seq<Work>, b: seq<Work>)
    ensures Weight(a + b) == Weight(a) + Weight(b)
  {
    if a == [] {
      assert a + b == b;
    } else {
      assert (a + b)[1..] == a[1..] + b;
      WeightConcat(a[1..], b);
    }
  }

  lemma {:induction false} PendWeight(b: string, ks: seq<Node>, live: seq<Node>)
    ensures Weight(DiffKids(b, ks, live).pend) <= SizeAll(ks)
  {
    if ks != [] {
      var k, v := ks[0], Find(live, ks[0].name);
      PendWeight(b, ks[1..], if v.Some? then Erase(live, k.name) else live);
      if v.Some? && !k.ignore {
        var r := DiffKids(b, ks[1..], Erase(live, k.name));
        assert ([Work(Child(b, k.name), k, v.value)] + r.pend)[1..] == r.pend;
      }
    }
  }

  lemma {:induction false} SizePut(m: seq<Node>, k: Node)
    ensures SizeAll(Put(m, k)) <= SizeAll(m) + Size(k)
  {
    if m == [] || Less(k.name, m[0].name) {
      assert ([k] + m)[1..] == m;
    } else if m[0].name == k.name {
      assert ([k] + m[1..])[1..] == m[1..];
    } else {
      SizePut(m[1..], k);
      assert ([m[0]] + Put(m[1..], k))[1..] == Put(m[1..], k);
    }
  }

  lemma {:induction false} SizeSnoc(kids: seq<Node>, k: Node)
    ensures SizeAll(kids + [k]) == SizeAll(kids) + Size(k)
  {
    if kids != [] {
      assert (kids + [k])[1..] == kids[1..] + [k];
      SizeSnoc(kids[1..], k);
    } else {
      assert kids + [k] == [k] && [k][1..] == [];
    }
  }

  lemma {:induction false} SizeMapOf(kids: seq<Node>)
    ensures SizeAll(MapOf(kids)) <= SizeAll(kids)
  {
    if kids != [] {
      var init, k := kids[..|kids| - 1], kids[|kids| - 1];
      assert kids == init + [k];
      SizeMapOf(init);
      SizePut(MapOf(init), k);
      SizeSnoc(init, k);
    }
  }

  lemma WeightShrinks(work: seq<Work>)
    requires work != []
    ensures Weight(work[1..] + DiffNode(work[0]).pend) < Weight(work)
  {
    var w := work[0];
    WeightConcat(work[1..], DiffNode(w).pend);
    PendWeight(w.base, MapOf(w.loaded.kids), MapOf(w.live.kids));
    SizeMapOf(w.loaded.kids);
  }

  lemma From<T>(s: seq<T>, i: nat)
    requires i < |s|
    ensures s[i..] != [] && s[i..][0] == s[i] && s[i..][1..] == s[i + 1..]
  {
  }

  /** The two vectors of the source, read as one worklist. */
  function Zip(ppaths: seq<string>, commonNodes: seq<(Node, Node)>): (work: seq<Work>)
    requires |ppaths| == |commonNodes|
    ensures |work| == |ppaths|
  {
    seq(|ppaths|, i requires 0 <= i < |ppaths| => Work(ppaths[i], commonNodes[i].0, commonNodes[i].1))
  }

  /** The C++ loop: two growing vectors indexed by j, two maps rebuilt for each pair. */
  method DiffZkTree(path: string, loaded: Node, live: Node) returns (actions: seq<Action>)
    ensures actions == Diff(path, loaded, live)
  {
    actions := [];
    if loaded.value != live.value {
      actions := actions + [Value(path, loaded.value, live.value)];
    }
    var ppaths, commonNodes := [if path != "/" then path else ""], [(loaded, live)];
    ghost var total := Diff(path, loaded, live);
    assert Zip(ppaths, commonNodes)[0..] == [Work(Base(path), loaded, live)];
    var j := 0;
    while j < |commonNodes|
      invariant j <= |commonNodes| == |ppaths|
      invariant actions + DiffWork(Zip(ppaths, commonNodes)[j..]) == total
      decreases Weight(Zip(ppaths, commonNodes)[j..])
    {
      ghost var work0, acts0 := Zip(ppaths, commonNodes), actions;
      actions, ppaths, commonNodes := CompareNodes(j, actions, ppaths, commonNodes);
      StepWork(total, acts0, work0, Zip(ppaths, commonNodes), j, actions);
      j := j + 1;
    }
    assert Zip(ppaths, commonNodes)[j..] == [];
  }

  lemma StepWork(total: seq<Action>, acts0: seq<Action>, work0: seq<Work>, work: seq<Work>,
                 j: nat, actions: seq<Action>)
    requires j < |work0| && work == work0 + DiffNode(work0[j]).pend
    requires acts0 + DiffWork(work0[j..]) == total
    requires actions == acts0 + NodeActs(work0[j])
    ensures actions + DiffWork(work[j + 1..]) == total
    ensures Weight(work[j + 1..]) < Weight(work0[j..])
  {
    var w, pend := work0[j..], DiffNode(work0[j]).pend;
    From(work0, j);
    assert work[j + 1..] == w[1..] + pend;
    WeightShrinks(w);
    assert DiffWork(w) == NodeActs(w[0]) + DiffWork(work[j + 1..]);
    Assoc(acts0, NodeActs(w[0]), DiffWork(work[j + 1..]));
  }

  /** One round of the loop. */
  method CompareNodes(j: nat, actions: seq<Action>, ppaths: seq<string>, commonNodes: seq<(Node, Node)>)
      returns (acts: seq<Action>, pps: seq<string>, nodes: seq<(Node, Node)>)
    requires j < |ppaths| == |commonNodes|
    ensures |pps| == |nodes| >= |ppaths|
    ensures acts == actions + NodeActs(Zip(ppaths, commonNodes)[j])
    ensures Zip(pps, nodes) == Zip(ppaths, commonNodes) + DiffNode(Zip(ppaths, commonNodes)[j]).pend
  {
    var liveChildren;
    acts, pps, nodes, liveChildren := CompareChildren(j, actions, ppaths, commonNodes);
    Assoc(actions, DiffNode(Zip(ppaths, commonNodes)[j]).acts, DeleteAll(pps[j], liveChildren));
    acts := DeleteRemaining(pps[j], liveChildren, acts);
  }

  /** The comparisons of one round, up to the deletions: the live map loses an entry for
      every key found in both, and what is left in it is returned. */
  method CompareChildren(j: nat, actions: seq<Action>, ppaths: seq<string>, commonNodes: seq<(Node, Node)>)
      returns (acts: seq<Action>, pps: seq<string>, nodes: seq<(Node, Node)>, liveChildren: seq<Node>)
    requires j < |ppaths| == |commonNodes|
    ensures |pps| == |nodes| >= |ppaths| && pps[j] == ppaths[j]
    ensures var d := DiffNode(Zip(ppaths, commonNodes)[j]);
            acts == actions + d.acts && liveChildren == d.rest
            && Zip(pps, nodes) == Zip(ppaths, commonNodes) + d.pend
  {
    acts, pps, nodes := actions, ppaths, commonNodes;
    var loadedChildren := ToMap(commonNodes[j].0.kids);
    liveChildren := ToMap(commonNodes[j].1.kids);
    ghost var d := DiffNode(Zip(ppaths, commonNodes)[j]);
    ghost var allActs, allWork := actions + d.acts, Zip(ppaths, commonNodes) + d.pend;
    assert loadedChildren[0..] == loadedChildren;
    for i := 0 to |loadedChildren|
      invariant |nodes| == |pps| >= |ppaths| && pps[j] == ppaths[j]
      invariant var r := DiffKids(ppaths[j], loadedChildren[i..], liveChildren);
                acts + r.acts == allActs && Zip(pps, nodes) + r.pend == allWork && r.rest == d.rest
    {
      From(loadedChildren, i);
      acts, pps, nodes, liveChildren :=
        CompareChild(ppaths[j], loadedChildren[i], loadedChildren[i + 1..], liveChildren, acts, pps, nodes);
    }
    assert loadedChildren[|loadedChildren|..] == [];
  }

  /** The body of the loop over the saved children. */
  method CompareChild(pp: string, k: Node, ghost others: seq<Node>, live: seq<Node>,
                      actions: seq<Action>, ppaths: seq<string>, commonNodes: seq<(Node, Node)>)
      returns (acts: seq<Action>, pps: seq<string>, nodes: seq<(Node, Node)>, liveChildren: seq<Node>)
    requires |ppaths| == |commonNodes|
    ensures |pps| == |nodes| && ppaths <= pps
    ensures var r0, r := DiffKids(pp, [k] + others, live), DiffKids(pp, others, liveChildren);
            acts + r.acts == actions + r0.acts && r.rest == r0.rest
            && Zip(pps, nodes) + r.pend == Zip(ppaths, commonNodes) + r0.pend
  {
    acts, pps, nodes, liveChildren := actions, ppaths, commonNodes, live;
    var p := Child(pp, k.name);
    var jt := Find(liveChildren, k.name);
    assert ([k] + others)[1..] == others;
    if jt.Some? {
      ghost var r := DiffKids(pp, others, Erase(live, k.name));
      if !k.ignore {
        if k.value != jt.value.value {
          Assoc(actions, [Value(p, k.value, jt.value.value)], r.acts);
          acts := acts + [Value(p, k.value, jt.value.value)];
        } else {
          assert [] + r.acts == r.acts;
        }
        pps, nodes := pps + [p], nodes + [(k, jt.value)];
        assert Zip(pps, nodes) == Zip(ppaths, commonNodes) + [Work(p, k, jt.value)];
        Assoc(Zip(ppaths, commonNodes), [Work(p, k, jt.value)], r.pend);
      }
      liveChildren := Erase(liveChildren, k.name);
    } else if !k.ignore {
      Assoc(actions, AddTree(k, p), DiffKids(pp, others, live).acts);
      acts := AddTreeZkAction(k, p, acts);
    }
  }

  method DeleteRemaining(pp: string, liveChildren: seq<Node>, actions: seq<Action>) returns (acts: seq<Action>)
    ensures acts == actions + DeleteAll(pp, liveChildren)
  {
    acts := actions;
    ghost var all := actions + DeleteAll(pp, liveChildren);
    assert liveChildren[0..] == liveChildren;
    for i := 0 to |liveChildren|
      invariant acts + DeleteAll(pp, liveChildren[i..]) == all
    {
      From(liveChildren, i);
      Assoc(acts, [Delete(Child(pp, liveChildren[i].name))], DeleteAll(pp, liveChildren[i + 1..]));
      acts := acts + [Delete(Child(pp, liveChildren[i].name))];
    }
    assert liveChildren[|liveChildren|..] == [];
  }

  method ToMap(kids: seq<Node>) returns (m: seq<Node>)
    ensures m == MapOf(kids)
  {
    m := [];
    for i := 0 to |kids|
      invariant m == MapOf(kids[..i])
    {
      assert kids[..i + 1][..i] == kids[..i];
      m := Put(m, kids[i]);
    }
    assert kids[..|kids|] == kids;
  }

  /** Appends to the passed vector, recursively. */
  method AddTreeZkAction(k: Node, path: string, actions: seq<Action>) returns (r: seq<Action>)
    ensures r == actions + AddTree(k, path)
    decreases k
  {
    r := actions + [Create(path)];
    if k.value != "" {
      r := r + [Value(path, k.value, "")];
    }
    ghost var all := r + AddKids(k.kids, path);
    assert all == actions + AddTree(k, path);
    assert k.kids[0..] == k.kids;
    for i := 0 to |k.kids|
      invariant r + AddKids(k.kids[i..], path) == all
    {
      From(k.kids, i);
      Assoc(r, AddTree(k.kids[i], Child(path, k.kids[i].name)), AddKids(k.kids[i + 1..], path));
      r := AddTreeZkAction(k.kids[i], Child(path, k.kids[i].name), r);
    }
    assert k.kids[|k.kids|..] == [];
  }
}
