/** The creations of a diff: no path twice, and every path after its parent. */
module ZkTreeOrder {
  import opened Prelude
  import opened ZkPath
  import opened ZkTree
  import opened ZkTreeDiff
  import opened ZkTreeSync
  import opened ZkTreeExact

  /** How often a path is created. */
  function Creations(acts: seq<Action>, q: string): nat {
    if acts == [] then 0 else (if acts[0] == Create(q) then 1 else 0) + Creations(acts[1..], q)
  }

  lemma {:induction false} CreationsConcat(a: seq<Action>, b: seq<Action>, q: string)
    ensures Creations(a + b, q) == Creations(a, q) + Creations(b, q)
  {
    if a == [] {
      assert a + b == b;
    } else {
      assert (a + b)[1..] == a[1..] + b;
      CreationsConcat(a[1..], b, q);
    }
  }

  lemma {:induction false} CreationsIn(acts: seq<Action>, q: string)
    ensures Creations(acts, q) > 0 <==> Create(q) in acts
  {
    if acts != [] {
      assert acts == [acts[0]] + acts[1..];
      CreationsIn(acts[1..], q);
    }
  }

  lemma CreatedTwice(acts: seq<Action>, q: string, i: nat, j: nat)
    requires i < j < |acts| && acts[i] == acts[j] == Create(q)
    ensures Creations(acts, q) >= 2
  {
    assert acts == acts[..j] + acts[j..] && acts[..j][i] == Create(q) && acts[j..][0] == Create(q);
    CreationsConcat(acts[..j], acts[j..], q);
    CreationsIn(acts[..j], q);
    CreationsIn(acts[j..], q);
  }

  // ------------------------------------------------------------ no path twice

  lemma {:induction false} TreeOnce(k: Node, p: string, q: string)
    requires WF(k) && ValidBase(p) && p != ""
    ensures Creations(AddTree(k, p), q) <= 1
    ensures Creations(AddTree(k, p), q) > 0 ==> Under(p, q)
    decreases k, 1
  {
    var acts := AddTree(k, p);
    CreationsConcat(TopActs(k, p), AddKids(k.kids, p), q);
    TopOnce(k, p, q);
    KidsOnce(k.kids, p, q);
    CreationsIn(acts, q);
    if Create(q) in acts { AddTreeNeeded(k, p, Create(q)); }
  }

  lemma TopOnce(k: Node, p: string, q: string)
    requires ValidBase(p) && p != ""
    ensures Creations(TopActs(k, p), q) == if q == p then 1 else 0
    ensures Key(p) == p
  {
    var rest := if k.value != "" then [Value(p, k.value, "")] else [];
    CreationsConcat([Create(p)], rest, q);
    assert [Create(p)][1..] == [];
    if rest != [] { assert rest[1..] == []; }
  }

  lemma {:induction false} KidsOnce(kids: seq<Node>, p: string, q: string)
    requires WFKids(kids) && ValidBase(p)
    ensures Creations(AddKids(kids, p), q) <= 1
    ensures Creations(AddKids(kids, p), q) > 0 ==> Below(p, q) && Find(kids, Seg(p, q)).Some?
    decreases kids, 0
  {
    if kids != [] {
      var k := kids[0];
      ChildValid(p, k.name);
      CreationsConcat(AddTree(k, Child(p, k.name)), AddKids(kids[1..], p), q);
      TreeOnce(k, Child(p, k.name), q);
      DistinctTail(kids);
      KidsOnce(kids[1..], p, q);
      UnderChild(p, k.name, q);
    }
  }

  lemma KidActsOnce(b: string, k: Node, live: seq<Node>, q: string)
    requires WF(k) && ValidBase(b) && ValidName(k.name)
    ensures Creations(KidActs(b, k, live), q) <= 1
    ensures Creations(KidActs(b, k, live), q) > 0 ==>
              Below(b, q) && Seg(b, q) == k.name && Find(live, k.name).None?
  {
    var p, v := Child(b, k.name), Find(live, k.name);
    ChildValid(b, k.name);
    UnderChild(b, k.name, q);
    if !k.ignore && v.None? {
      TreeOnce(k, p, q);
    } else {
      CreationsIn(KidActs(b, k, live), q);
    }
  }

  lemma {:induction false} DiffKidsOnce(b: string, ks: seq<Node>, live: seq<Node>, q: string)
    requires WFKids(ks) && ValidBase(b) && Distinct(live)
    ensures var n := Creations(DiffKids(b, ks, live).acts, q);
            n <= 1 && (n > 0 ==> Below(b, q) && Find(ks, Seg(b, q)).Some? && Find(live, Seg(b, q)).None?)
  {
    if ks != [] {
      var k := ks[0];
      var live1 := if Find(live, k.name).Some? then Erase(live, k.name) else live;
      EraseSpec(live, k.name);
      DistinctTail(ks);
      DiffKidsActs(b, ks, live);
      CreationsConcat(KidActs(b, k, live), DiffKids(b, ks[1..], live1).acts, q);
      KidActsOnce(b, k, live, q);
      DiffKidsOnce(b, ks[1..], live1, q);
    }
  }

  lemma {:induction false} DeleteAllNone(b: string, rest: seq<Node>, q: string)
    ensures Creations(DeleteAll(b, rest), q) == 0
  {
    if rest != [] {
      DeleteAllNone(b, rest[1..], q);
      assert DeleteAll(b, rest)[1..] == DeleteAll(b, rest[1..]);
    }
  }

  lemma RoundOnce(w: Work, q: string)
    requires WellFormed(w)
    ensures Creations(NodeActs(w), q) <= 1
    ensures Creations(NodeActs(w), q) > 0 ==> Below(w.base, q) && Find(w.live.kids, Seg(w.base, q)).None?
  {
    MapOfWF(w.loaded.kids);
    MapOfWF(w.live.kids);
    CreationsConcat(DiffNode(w).acts, DeleteAll(w.base, DiffNode(w).rest), q);
    DeleteAllNone(w.base, DiffNode(w).rest, q);
    DiffKidsOnce(w.base, MapOf(w.loaded.kids), MapOf(w.live.kids), q);
    if Below(w.base, q) { FindMapOf(w.live.kids, Seg(w.base, q)); }
  }

  lemma QueuedWellFormed(w: Work, n: Work)
    requires WellFormed(w) && n in DiffNode(w).pend
    ensures WellFormed(n)
  {
    NodeQueued(w);
    FindMember(w.loaded.kids, n.loaded);
    ChildValid(w.base, n.loaded.name);
  }

  /** What one round creates is below no pair that waits or that it queues. */
  lemma CreatedIsLeft(work: seq<Work>, q: string)
    requires work != [] && WellFormed(work[0]) && Apart(work) && Creations(NodeActs(work[0]), q) > 0
    ensures !Covered(work[1..] + DiffNode(work[0]).pend, q)
  {
    var w, pend := work[0], DiffNode(work[0]).pend;
    var next := work[1..] + pend;
    RoundOnce(w, q);
    NodeQueued(w);
    forall i | 0 <= i < |next| ensures !Under(next[i].base, q) {
      if i < |work| - 1 {
        assert next[i] == work[i + 1];
      } else if Under(next[i].base, q) {
        var n := i - (|work| - 1);
        assert next[i] == pend[n] && pend[n] in pend;
        QueuedUnder(w, pend, n, q);
      }
    }
  }

  lemma CoveredBefore(work: seq<Work>, q: string)
    requires work != [] && WellFormed(work[0]) && Covered(work[1..] + DiffNode(work[0]).pend, q)
    ensures Covered(work, q)
  {
    var w, pend := work[0], DiffNode(work[0]).pend;
    var next := work[1..] + pend;
    var i :| 0 <= i < |next| && Under(next[i].base, q);
    if i < |work| - 1 {
      assert Under(work[i + 1].base, q);
    } else {
      QueuedInOne(w, next[i], q);
      assert Under(work[0].base, q);
    }
  }

  lemma QueuedInOne(w: Work, n: Work, q: string)
    requires WellFormed(w) && n in DiffNode(w).pend && Under(n.base, q)
    ensures Under(w.base, q)
  {
    var pend := DiffNode(w).pend;
    NodeQueued(w);
    var i :| 0 <= i < |pend| && pend[i] == n;
    QueuedUnder(w, pend, i, q);
  }

  lemma NextWork(work: seq<Work>)
    requires work != [] && Apart(work) && forall w | w in work :: WellFormed(w)
    ensures var next := work[1..] + DiffNode(work[0]).pend;
            Apart(next) && forall w | w in next :: WellFormed(w)
  {
    var w, pend := work[0], DiffNode(work[0]).pend;
    NodeQueued(w);
    QueuedApart(w, pend);
    forall i, q | 0 <= i < |pend| && Under(pend[i].base, q) ensures Under(w.base, q) { QueuedUnder(w, pend, i, q); }
    ReplaceApart(work, pend);
    forall n | n in work[1..] + pend ensures WellFormed(n) {
      if n in pend { QueuedWellFormed(w, n); }
    }
  }

  lemma {:induction false} WorkOnce(work: seq<Work>, q: string)
    requires Apart(work) && forall w | w in work :: WellFormed(w)
    ensures Creations(DiffWork(work), q) <= 1
    ensures Creations(DiffWork(work), q) > 0 ==> Covered(work, q)
    decreases Weight(work)
  {
    if work != [] {
      var w, next := work[0], work[1..] + DiffNode(work[0]).pend;
      WeightShrinks(work);
      NextWork(work);
      WorkOnce(next, q);
      CreationsConcat(NodeActs(w), DiffWork(next), q);
      RoundOnce(w, q);
      if Creations(NodeActs(w), q) > 0 {
        CreatedIsLeft(work, q);
        assert Under(work[0].base, q);
      }
      if Covered(next, q) { CoveredBefore(work, q); }
    }
  }

  lemma DiffOnce(path: string, loaded: Node, live: Node, q: string)
    requires ValidPath(path) && WF(loaded) && WF(live)
    ensures Creations(Diff(path, loaded, live), q) <= 1
    ensures Creations(Diff(path, loaded, live), q) > 0 ==> Under(Base(path), q)
  {
    var top := Work(Base(path), loaded, live);
    var first := Diff(path, loaded, live)[..|Diff(path, loaded, live)| - |DiffWork([top])|];
    assert Diff(path, loaded, live) == first + DiffWork([top]);
    CreationsConcat(first, DiffWork([top]), q);
    CreationsIn(first, q);
    WorkOnce([top], q);
  }

  /** No path is created twice. */
  lemma CreatesOnce(path: string, loaded: Node, live: Node, i: nat, j: nat)
    requires ValidPath(path) && WF(loaded) && WF(live)
    requires i < j < |Diff(path, loaded, live)| && Diff(path, loaded, live)[i].Create?
    ensures Diff(path, loaded, live)[j] != Diff(path, loaded, live)[i]
  {
    var acts := Diff(path, loaded, live);
    DiffOnce(path, loaded, live, acts[i].key);
    if acts[j] == acts[i] { CreatedTwice(acts, acts[i].key, i, j); }
  }

  // ------------------------------------------------------------ parents first

  /** A path that exists after some actions existed before or was created by one. */
  lemma {:induction false} KeyOrigin(acts: seq<Action>, s: Server, q: string)
    requires q in Exec(acts, s).s
    ensures q in s || Create(q) in acts
  {
    if acts != [] {
      assert acts == [acts[0]] + acts[1..];
      var r := ExecOne(acts[0], s);
      if !r.Threw? { KeyOrigin(acts[1..], r.s, q); }
      assert q in r.s ==> q in s || acts[0] == Create(q);
    }
  }

  /** Without an exception, whatever is created new has its parent there. */
  lemma NewHasParent(acts: seq<Action>, s: Server, i: nat, q: string)
    requires Exec(acts, s).Done? && i < |acts| && acts[i] == Create(q)
    requires q !in s && Create(q) !in acts[..i]
    ensures ValidBase(q) && q != "" && (ParentKey(q) in s || Create(ParentKey(q)) in acts[..i])
  {
    var before, after := acts[..i], acts[i..];
    assert acts == before + after && after[0] == Create(q);
    ExecConcat(before, after, s);
    var s1 := Exec(before, s).s;
    if q in s1 { KeyOrigin(before, s, q); }
    assert CreateNode(s1, q).Done?;
    KeyOrigin(before, s, ParentKey(q));
  }

  lemma ParentUnder(b: string, q: string)
    requires ValidBase(q) && q != "" && Below(b, q)
    ensures Under(b, ParentKey(q))
  {
    var i := LastSlash(q);
    assert q[|b|] == '/' by { assert q[..|b| + 1] == b + "/"; }
    if i == |b| {
      assert q[..i] == b;
    } else {
      assert q[..i][..|b| + 1] == b + "/";
    }
  }

  /** The parent of a path that is created is in the live tree or was created before. */
  lemma CreateFollowsParent(path: string, loaded: Node, live: Node, i: nat)
    requires ValidPath(path) && WF(loaded) && WF(live)
    requires i < |Diff(path, loaded, live)| && Diff(path, loaded, live)[i].Create?
    ensures var acts := Diff(path, loaded, live);
            var q := acts[i].key;
            && ValidBase(q) && q != ""
            && (At(Base(path), live, ParentKey(q)).Some? || exists j :: 0 <= j < i && acts[j] == Create(ParentKey(q)))
  {
    var acts, b := Diff(path, loaded, live), Base(path);
    var q, s := acts[i].key, Plant(b, live);
    PlantHolds(b, live);
    DiffReachesMerge(s, path, loaded, live);
    DiffIsMinimal(path, loaded, live, acts[i]);
    CreationsIn(acts, q);
    DiffOnce(path, loaded, live, q);
    assert Get(s, q) == At(b, live, q);
    if Create(q) in acts[..i] {
      var j :| 0 <= j < i && acts[j] == Create(q);
      CreatesOnce(path, loaded, live, j, i);
    }
    NewHasParent(acts, s, i, q);
    assert q != Key(b);
    ParentUnder(b, q);
    assert Get(s, ParentKey(q)) == At(b, live, ParentKey(q));
  }
}
