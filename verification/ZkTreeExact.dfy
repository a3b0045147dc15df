/** The diff does nothing superfluous: it is empty exactly when the live tree already
    is the merge, a second diff after the first is empty, and every action changes
    its path from the live to the merged state. */
module ZkTreeExact {
  import opened Prelude
  import opened ZkPath
  import opened ZkTree
  import opened ZkTreeDiff
  import opened ZkTreeSync

  /** Some server holds any given tree at any given base. */
  function Plant(b: string, t: Node): Server {
    Exec(AddKids(t.kids, b), map[Key(b) := t.value]).s
  }

  lemma PlantHolds(b: string, t: Node)
    requires WF(t) && ValidBase(b)
    ensures Holds(Plant(b, t), b, t)
  {
    var s := map[Key(b) := t.value];
    AddKidsEffect(t.kids, b, s);
    forall q | Under(b, q) ensures Get(Plant(b, t), q) == At(b, t, q) {
      assert Get(Plant(b, t), q) == Laid(KidsAt(b, t.kids, q), Get(s, q));
    }
  }

  // -------------------------------------------------------- nothing to be done

  lemma {:induction false} NoKidActs(b: string, ks: seq<Node>, live: seq<Node>)
    requires Distinct(ks) && Distinct(live)
    requires forall k | k in ks :: KidActs(b, k, live) == []
    ensures DiffKids(b, ks, live).acts == []
  {
    if ks != [] {
      var live1 := if Find(live, ks[0].name).Some? then Erase(live, ks[0].name) else live;
      EraseSpec(live, ks[0].name);
      DistinctTail(ks);
      DiffKidsActs(b, ks, live);
      forall k | k in ks[1..] ensures KidActs(b, k, live1) == [] {
        assert k.name != ks[0].name;
        assert KidActs(b, k, live) == [];
      }
      NoKidActs(b, ks[1..], live1);
    }
  }

  ghost predicate Agreed(w: Work) {
    WellFormed(w) && Same(w.base, w.live, Merge(w.loaded, w.live))
  }

  lemma AgreedKid(w: Work, k: Node)
    requires Agreed(w) && k in w.loaded.kids
    ensures KidActs(w.base, k, w.live.kids) == []
    ensures var v := Find(w.live.kids, k.name);
            !k.ignore ==> v.Some? && Agreed(Work(Child(w.base, k.name), k, v.value))
  {
    var b, c, v := w.base, Child(w.base, k.name), Find(w.live.kids, k.name);
    if !k.ignore {
      FindMember(w.loaded.kids, k);
      FindMergeKids(w.loaded.kids, w.live.kids, k.name);
      MergeWF(w.loaded, w.live);
      SameNames(b, w.live, Merge(w.loaded, w.live), k.name);
      SameChild(b, w.live, Merge(w.loaded, w.live), v.value, Merge(k, v.value));
      ChildValid(b, k.name);
      assert Under(c, c);
    }
  }

  lemma AgreedRound(w: Work)
    requires Agreed(w)
    ensures NodeActs(w) == [] && forall n | n in DiffNode(w).pend :: Agreed(n)
  {
    var b, ks, live := w.base, MapOf(w.loaded.kids), MapOf(w.live.kids);
    MapOfWF(w.loaded.kids);
    MapOfWF(w.live.kids);
    MapOfSorted(w.loaded.kids);
    forall k | k in ks ensures KidActs(b, k, live) == [] {
      AgreedKid(w, k);
      FindMapOf(w.live.kids, k.name);
    }
    NoKidActs(b, ks, live);
    DiffKidsRest(b, ks, live);
    var rest := DiffNode(w).rest;
    if rest != [] {
      var x := rest[0].name;
      FindMember(rest, rest[0]);
      FindMapOf(w.loaded.kids, x);
      FindMapOf(w.live.kids, x);
      FindMergeKids(w.loaded.kids, w.live.kids, x);
      MergeWF(w.loaded, w.live);
      SameNames(b, w.live, Merge(w.loaded, w.live), x);
      assert false;
    }
    NodeQueued(w);
    forall n | n in DiffNode(w).pend ensures Agreed(n) { AgreedKid(w, n.loaded); }
  }

  lemma {:induction false} AgreedWork(work: seq<Work>)
    requires forall w | w in work :: Agreed(w)
    ensures DiffWork(work) == []
    decreases Weight(work)
  {
    if work != [] {
      AgreedRound(work[0]);
      WeightShrinks(work);
      AgreedWork(work[1..] + DiffNode(work[0]).pend);
    }
  }

  /** The diff is empty exactly when the live tree already is the merged one. */
  lemma DiffEmptyIff(path: string, loaded: Node, live: Node)
    requires ValidPath(path) && WF(loaded) && WF(live)
    ensures Diff(path, loaded, live) == [] <==> Same(Base(path), live, Merge(loaded, live))
  {
    var b := Base(path);
    if Same(b, live, Merge(loaded, live)) {
      assert Under(b, path) && At(b, live, path) == At(b, Merge(loaded, live), path);
      AgreedWork([Work(b, loaded, live)]);
    }
    if Diff(path, loaded, live) == [] {
      var s := Plant(b, live);
      PlantHolds(b, live);
      DiffReachesMerge(s, path, loaded, live);
      assert Exec([], s) == Done(s);
      forall q | Under(b, q) ensures At(b, live, q) == At(b, Merge(loaded, live), q) {
        assert Get(s, q) == At(b, live, q);
      }
    }
  }

  // ------------------------------------------------------------- idempotence

  lemma {:induction false} MergeCopy(b: string, loaded: Node, x: Node)
    requires WF(loaded) && WF(x) && ValidBase(b) && Same(b, x, loaded)
    ensures Same(b, x, Merge(loaded, x))
    decreases loaded
  {
    assert Under(b, Key(b));
    assert At(b, x, Key(b)) == At(b, loaded, Key(b));
    forall q | Below(b, q) ensures At(b, x, q) == At(b, Merge(loaded, x), q) {
      var n := Seg(b, q);
      var k, y := Find(loaded.kids, n), Find(x.kids, n);
      MergeAt(b, loaded, x, q);
      SameNames(b, x, loaded, n);
      if k.Some? {
        ChildValid(b, n);
        UnderChild(b, n, q);
        SameChild(b, x, loaded, y.value, k.value);
        MergeCopy(Child(b, n), k.value, y.value);
      }
    }
  }

  /** Merging again into what looks like a merge changes nothing. */
  lemma {:induction false} MergeStable(b: string, loaded: Node, live: Node, x: Node)
    requires WF(loaded) && WF(live) && WF(x) && ValidBase(b)
    requires Same(b, x, Merge(loaded, live))
    ensures Same(b, x, Merge(loaded, x))
    decreases loaded
  {
    assert Under(b, Key(b));
    assert At(b, x, Key(b)) == At(b, Merge(loaded, live), Key(b));
    MergeWF(loaded, live);
    forall q | Below(b, q) ensures At(b, x, q) == At(b, Merge(loaded, x), q) {
      var n := Seg(b, q);
      var k, v, y := Find(loaded.kids, n), Find(live.kids, n), Find(x.kids, n);
      MergeAt(b, loaded, x, q);
      FindMergeKids(loaded.kids, live.kids, n);
      SameNames(b, x, Merge(loaded, live), n);
      if k.Some? && !k.value.ignore {
        ChildValid(b, n);
        UnderChild(b, n, q);
        SameChild(b, x, Merge(loaded, live), y.value, Find(MergeKids(loaded.kids, live.kids), n).value);
        if v.Some? {
          MergeStable(Child(b, n), k.value, v.value, y.value);
        } else {
          MergeCopy(Child(b, n), k.value, y.value);
        }
      }
    }
  }

  /** After executing a diff, diffing the same saved tree against what the server
      then holds finds nothing to do. */
  lemma DiffIsIdempotent(s: Server, path: string, loaded: Node, live: Node, live1: Node)
    requires ValidPath(path) && WF(loaded) && WF(live) && WF(live1)
    requires Holds(s, Base(path), live)
    requires Holds(Exec(Diff(path, loaded, live), s).s, Base(path), live1)
    ensures Diff(path, loaded, live1) == []
  {
    var b := Base(path);
    DiffReachesMerge(s, path, loaded, live);
    forall q | Under(b, q) ensures At(b, live1, q) == At(b, Merge(loaded, live), q) {
      assert Get(Exec(Diff(path, loaded, live), s).s, q) == At(b, live1, q);
    }
    MergeStable(b, loaded, live, live1);
    DiffEmptyIff(path, loaded, live1);
  }

  // ------------------------------------------------- every action is needed

  /** The action takes its path from its live to its merged state. */
  predicate Needed(a: Action, before: Option<string>, after: Option<string>) {
    match a
    case Create(_) => before.None? && after.Some?
    case Delete(_) => before.Some? && after.None?
    case Value(_, v, o) => after == Some(v) && before != after && o == if before.Some? then before.value else ""
  }

  lemma {:induction false} AddTreeNeeded(k: Node, p: string, a: Action)
    requires WF(k) && ValidBase(p) && p != "" && a in AddTree(k, p)
    ensures Under(p, a.key) && Needed(a, None, At(p, k, a.key))
    decreases k, 1
  {
    assert Under(p, p);
    if a in AddKids(k.kids, p) {
      AddKidsNeeded(k.kids, p, a);
    }
  }

  lemma {:induction false} AddKidsNeeded(kids: seq<Node>, p: string, a: Action)
    requires WFKids(kids) && ValidBase(p) && a in AddKids(kids, p)
    ensures Below(p, a.key) && Needed(a, None, KidsAt(p, kids, a.key))
    decreases kids, 0
  {
    var c := Child(p, kids[0].name);
    KidsAtStep(p, kids, a.key);
    if a in AddTree(kids[0], c) {
      ChildValid(p, kids[0].name);
      AddTreeNeeded(kids[0], c, a);
      UnderChild(p, kids[0].name, a.key);
    } else {
      DistinctTail(kids);
      AddKidsNeeded(kids[1..], p, a);
    }
  }

  lemma {:induction false} DiffKidsOrigin(b: string, ks: seq<Node>, live: seq<Node>, a: Action) returns (k: Node)
    requires Distinct(ks) && Distinct(live) && a in DiffKids(b, ks, live).acts
    ensures k in ks && a in KidActs(b, k, live)
  {
    var live1 := if Find(live, ks[0].name).Some? then Erase(live, ks[0].name) else live;
    EraseSpec(live, ks[0].name);
    DistinctTail(ks);
    DiffKidsActs(b, ks, live);
    if a in KidActs(b, ks[0], live) {
      k := ks[0];
    } else {
      k := DiffKidsOrigin(b, ks[1..], live1, a);
      assert k.name != ks[0].name;
      assert Find(live1, k.name) == Find(live, k.name);
    }
  }

  lemma {:induction false} DeleteAllOrigin(b: string, rest: seq<Node>, a: Action) returns (n: Node)
    requires a in DeleteAll(b, rest)
    ensures n in rest && a == Delete(Child(b, n.name))
  {
    if a == Delete(Child(b, rest[0].name)) { n := rest[0]; }
    else { n := DeleteAllOrigin(b, rest[1..], a); }
  }

  lemma KidActsNeeded(w: Work, k: Node, a: Action)
    requires WellFormed(w) && k in w.loaded.kids && a in KidActs(w.base, k, w.live.kids)
    ensures Under(w.base, a.key)
    ensures Needed(a, At(w.base, w.live, a.key), At(w.base, Merge(w.loaded, w.live), a.key))
  {
    var b, c, v := w.base, Child(w.base, k.name), Find(w.live.kids, k.name);
    FindMember(w.loaded.kids, k);
    ChildValid(b, k.name);
    ChildBelow(b, k.name);
    if v.None? {
      AddTreeNeeded(k, c, a);
    } else {
      assert a == Value(c, k.value, v.value.value);
      assert Under(c, c);
    }
    UnderChild(b, k.name, a.key);
    MergeAt(b, w.loaded, w.live, a.key);
  }

  lemma RoundNeeded(w: Work, a: Action)
    requires WellFormed(w) && a in NodeActs(w)
    ensures Under(w.base, a.key)
    ensures Needed(a, At(w.base, w.live, a.key), At(w.base, Merge(w.loaded, w.live), a.key))
  {
    var b, ks, live := w.base, MapOf(w.loaded.kids), MapOf(w.live.kids);
    MapOfWF(w.loaded.kids);
    MapOfWF(w.live.kids);
    MapOfSorted(w.loaded.kids);
    if a in DiffNode(w).acts {
      var k := DiffKidsOrigin(b, ks, live, a);
      FindMapOf(w.live.kids, k.name);
      KidActsNeeded(w, k, a);
    } else {
      var n := DeleteAllOrigin(b, DiffNode(w).rest, a);
      DiffKidsRest(b, ks, live);
      FindMember(DiffNode(w).rest, n);
      FindMapOf(w.loaded.kids, n.name);
      FindMapOf(w.live.kids, n.name);
      ChildValid(b, n.name);
      ChildBelow(b, n.name);
      MergeAt(b, w.loaded, w.live, a.key);
    }
  }

  /** A pair of the worklist sits inside the top pair. */
  ghost predicate Inside(top: Work, w: Work) {
    && WellFormed(w)
    && forall q | Under(w.base, q) ::
         && Under(top.base, q) && At(top.base, top.live, q) == At(w.base, w.live, q)
         && At(top.base, Merge(top.loaded, top.live), q) == At(w.base, Merge(w.loaded, w.live), q)
  }

  lemma QueuedInside(top: Work, w: Work, n: Work)
    requires Inside(top, w) && n in DiffNode(w).pend
    ensures Inside(top, n)
  {
    NodeQueued(w);
    var x := n.loaded.name;
    FindMember(w.loaded.kids, n.loaded);
    ChildValid(w.base, x);
    forall q | Under(n.base, q)
      ensures Under(top.base, q) && At(top.base, top.live, q) == At(n.base, n.live, q)
      ensures At(top.base, Merge(top.loaded, top.live), q) == At(n.base, Merge(n.loaded, n.live), q)
    {
      UnderChild(w.base, x, q);
      MergeAt(w.base, w.loaded, w.live, q);
      assert Under(w.base, q);
    }
  }

  lemma {:induction false} WorkNeeded(top: Work, work: seq<Work>, a: Action)
    requires forall w | w in work :: Inside(top, w)
    requires a in DiffWork(work)
    ensures Needed(a, At(top.base, top.live, a.key), At(top.base, Merge(top.loaded, top.live), a.key))
    decreases Weight(work)
  {
    var w, next := work[0], work[1..] + DiffNode(work[0]).pend;
    assert Inside(top, w);
    if a in NodeActs(w) {
      RoundNeeded(w, a);
    } else {
      forall n | n in next ensures Inside(top, n) {
        if n in DiffNode(w).pend { QueuedInside(top, w, n); }
      }
      WeightShrinks(work);
      WorkNeeded(top, next, a);
    }
  }

  /** Every action of a diff creates a path the live tree lacks and the merge has,
      deletes one the live tree has and the merge lacks, or sets one to its merged
      value where the live value differs. So no path is both created and deleted. */
  lemma DiffIsMinimal(path: string, loaded: Node, live: Node, a: Action)
    requires ValidPath(path) && WF(loaded) && WF(live) && a in Diff(path, loaded, live)
    ensures Needed(a, At(Base(path), live, a.key), At(Base(path), Merge(loaded, live), a.key))
  {
    var top := Work(Base(path), loaded, live);
    if a in DiffWork([top]) {
      assert Inside(top, top);
      WorkNeeded(top, [top], a);
    } else {
      assert a == Value(path, loaded.value, live.value);
    }
  }
}
