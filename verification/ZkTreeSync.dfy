/** Executing a diff turns the live subtree into the merge of the saved and the live
    tree; the diff is empty exactly when they already agree. */
module ZkTreeSync {
  import opened Prelude
  import opened ZkPath
  import opened ZkTree
  import opened ZkTreeDiff

  function Over<T>(a: Option<T>, b: Option<T>): Option<T> {
    if a.Some? then a else b
  }

  // ------------------------------------------------------ copying a whole tree

  lemma ExecSingle(a: Action, s: Server)
    ensures Exec([a], s) == ExecOne(a, s)
  {
    assert [a][1..] == [];
  }

  /** What a written value leaves: an empty value is not set, so a node that was there
      keeps its own. */
  function Laid(v: Option<string>, was: Option<string>): Option<string> {
    if v.None? || (v.value == "" && was.Some?) then was else v
  }

  lemma LayTop(k: Node, p: string, s: Server)
    requires ValidPath(p) && (p in s || (p != "/" && ParentKey(p) in s))
    ensures Exec(TopActs(k, p), s) == Done(s[p := Laid(Some(k.value), Get(s, p)).value])
  {
    var s1 := if p in s then s else s[p := ""];
    ExecSingle(Create(p), s);
    if k.value != "" {
      ExecConcat([Create(p)], [Value(p, k.value, "")], s);
      ExecSingle(Value(p, k.value, ""), s1);
      assert s1[p := k.value] == s[p := k.value];
    } else {
      assert TopActs(k, p) == [Create(p)];
      assert p in s ==> s == s[p := s[p]];
    }
  }

  lemma KidsAtStep(p: string, kids: seq<Node>, q: string)
    requires WFKids(kids) && kids != []
    ensures var c := At(Child(p, kids[0].name), kids[0], q);
            KidsAt(p, kids, q) == Over(c, KidsAt(p, kids[1..], q))
            && (Under(Child(p, kids[0].name), q) ==> KidsAt(p, kids[1..], q) == None)
  {
    DistinctTail(kids);
    UnderChild(p, kids[0].name, q);
  }

  ghost predicate AddsTree(s: Server, p: string, k: Node, s1: Server) {
    forall q :: Get(s1, q) == Laid(At(p, k, q), Get(s, q))
  }

  ghost predicate AddsKids(s: Server, p: string, kids: seq<Node>, s1: Server) {
    forall q :: Get(s1, q) == Laid(KidsAt(p, kids, q), Get(s, q))
  }

  lemma TreeLaid(k: Node, p: string, s: Server, s1: Server, s2: Server)
    requires s1 == s[Key(p) := Laid(Some(k.value), Get(s, Key(p))).value] && AddsKids(s1, p, k.kids, s2)
    ensures AddsTree(s, p, k, s2)
  {
    forall q ensures Get(s2, q) == Laid(At(p, k, q), Get(s, q)) {
      assert Get(s2, q) == Laid(KidsAt(p, k.kids, q), Get(s1, q));
    }
  }

  /** Copying a tree lays it over whatever is there. */
  lemma {:induction false} AddTreeEffect(k: Node, p: string, s: Server)
    requires WF(k) && ValidBase(p) && p != "" && (p in s || ParentKey(p) in s)
    ensures Exec(AddTree(k, p), s).Done? && AddsTree(s, p, k, Exec(AddTree(k, p), s).s)
    decreases k, 1
  {
    ValidNotSingle(p);
    LayTop(k, p, s);
    var s1 := Exec(TopActs(k, p), s).s;
    AddKidsEffect(k.kids, p, s1);
    ExecConcat(TopActs(k, p), AddKids(k.kids, p), s);
    TreeLaid(k, p, s, s1, Exec(AddTree(k, p), s).s);
  }

  lemma {:induction false} AddKidsEffect(kids: seq<Node>, p: string, s: Server)
    requires WFKids(kids) && ValidBase(p) && Key(p) in s
    ensures Exec(AddKids(kids, p), s).Done? && AddsKids(s, p, kids, Exec(AddKids(kids, p), s).s)
    decreases kids, 0
  {
    if kids != [] {
      var k, rest := kids[0], kids[1..];
      var c := Child(p, k.name);
      ChildValid(p, k.name);
      ChildParts(p, k.name);
      DistinctTail(kids);
      AddTreeEffect(k, c, s);
      var s1 := Exec(AddTree(k, c), s).s;
      assert Get(s1, Key(p)) == Laid(At(c, k, Key(p)), Get(s, Key(p)));
      AddKidsEffect(rest, p, s1);
      ExecConcat(AddTree(k, c), AddKids(rest, p), s);
      KidsLaid(kids, p, s, s1, Exec(AddKids(kids, p), s).s);
    }
  }

  lemma KidsLaid(kids: seq<Node>, p: string, s: Server, s1: Server, s2: Server)
    requires WFKids(kids) && kids != []
    requires AddsTree(s, Child(p, kids[0].name), kids[0], s1) && AddsKids(s1, p, kids[1..], s2)
    ensures AddsKids(s, p, kids, s2)
  {
    var c := Child(p, kids[0].name);
    forall q ensures Get(s2, q) == Laid(KidsAt(p, kids, q), Get(s, q)) {
      KidsAtStep(p, kids, q);
      assert Get(s2, q) == Laid(KidsAt(p, kids[1..], q), Get(s1, q));
      assert Get(s1, q) == Laid(At(c, kids[0], q), Get(s, q));
    }
  }

  // ------------------------------------------------- the actions of one round

  /** What one round leaves at a path below a saved child: the live child gets its
      new value only, the rest of its subtree waits for a later round. */
  function KidGoal(b: string, k: Node, live: seq<Node>, q: string): Option<string> {
    var p, v := Child(b, k.name), Find(live, k.name);
    if v.None? then (if k.ignore then None else At(p, k, q))
    else if !k.ignore && q == p then Some(k.value)
    else At(p, v.value, q)
  }

  function KidsGoal(b: string, ks: seq<Node>, live: seq<Node>, q: string, was: Option<string>): Option<string> {
    if !Below(b, q) then was
    else
      var k := Find(ks, Seg(b, q));
      if k.None? then was else KidGoal(b, k.value, live, q)
  }

  /** The server below b agrees with the live children wherever a name of ks leads. */
  ghost predicate Agrees(s: Server, b: string, ks: seq<Node>, live: seq<Node>) {
    forall q | Below(b, q) && Find(ks, Seg(b, q)).Some? :: Get(s, q) == KidsAt(b, live, q)
  }

  ghost predicate KidsDone(s: Server, b: string, ks: seq<Node>, live: seq<Node>, s1: Server) {
    forall q :: Get(s1, q) == KidsGoal(b, ks, live, q, Get(s, q))
  }

  /** The actions for a single saved child. */
  function KidActs(b: string, k: Node, live: seq<Node>): seq<Action> {
    var p, v := Child(b, k.name), Find(live, k.name);
    if k.ignore then []
    else if v.None? then AddTree(k, p)
    else if k.value != v.value.value then [Value(p, k.value, v.value.value)]
    else []
  }

  lemma DiffKidsActs(b: string, ks: seq<Node>, live: seq<Node>)
    requires ks != []
    ensures DiffKids(b, ks, live).acts ==
            KidActs(b, ks[0], live)
            + DiffKids(b, ks[1..], if Find(live, ks[0].name).Some? then Erase(live, ks[0].name) else live).acts
  {
    var r := DiffKids(b, ks[1..], if Find(live, ks[0].name).Some? then Erase(live, ks[0].name) else live);
    assert [] + r.acts == r.acts;
  }

  ghost predicate FirstDone(s: Server, b: string, k: Node, live: seq<Node>, s1: Server) {
    forall q :: Get(s1, q) == if Under(Child(b, k.name), q) then KidGoal(b, k, live, q) else Get(s, q)
  }

  ghost predicate FirstAgrees(s: Server, b: string, k: Node, live: seq<Node>) {
    var v := Find(live, k.name);
    forall q | Under(Child(b, k.name), q) ::
      Get(s, q) == if v.None? then None else At(Child(b, k.name), v.value, q)
  }

  lemma KidCopied(b: string, k: Node, live: seq<Node>, s: Server)
    requires WF(k) && ValidName(k.name) && ValidBase(b) && Key(b) in s
    requires Find(live, k.name).None? && !k.ignore && FirstAgrees(s, b, k, live)
    ensures Exec(KidActs(b, k, live), s).Done? && FirstDone(s, b, k, live, Exec(KidActs(b, k, live), s).s)
  {
    var p := Child(b, k.name);
    ChildValid(b, k.name);
    ChildParts(b, k.name);
    AddTreeEffect(k, p, s);
    var s1 := Exec(AddTree(k, p), s).s;
    forall q ensures Get(s1, q) == if Under(p, q) then KidGoal(b, k, live, q) else Get(s, q) {
      assert Get(s1, q) == Laid(At(p, k, q), Get(s, q));
    }
  }

  lemma KidValue(b: string, k: Node, live: seq<Node>, s: Server)
    requires ValidName(k.name) && ValidBase(b)
    requires Find(live, k.name).Some? && !k.ignore && FirstAgrees(s, b, k, live)
    ensures Exec(KidActs(b, k, live), s).Done? && FirstDone(s, b, k, live, Exec(KidActs(b, k, live), s).s)
  {
    var p, v := Child(b, k.name), Find(live, k.name).value;
    ChildValid(b, k.name);
    assert Under(p, p) && Get(s, p) == Some(v.value);
    if k.value != v.value { ExecSingle(Value(p, k.value, v.value), s); }
  }

  lemma KidEffect(b: string, k: Node, live: seq<Node>, s: Server)
    requires WF(k) && ValidName(k.name) && ValidBase(b) && Key(b) in s
    requires FirstAgrees(s, b, k, live)
    ensures Exec(KidActs(b, k, live), s).Done? && FirstDone(s, b, k, live, Exec(KidActs(b, k, live), s).s)
  {
    if k.ignore {
    } else if Find(live, k.name).None? {
      KidCopied(b, k, live, s);
    } else {
      KidValue(b, k, live, s);
    }
  }

  lemma {:induction false} DiffKidsEffect(b: string, ks: seq<Node>, live: seq<Node>, s: Server)
    requires WFKids(ks) && WFKids(live) && ValidBase(b) && Key(b) in s
    requires Agrees(s, b, ks, live)
    ensures Exec(DiffKids(b, ks, live).acts, s).Done?
    ensures KidsDone(s, b, ks, live, Exec(DiffKids(b, ks, live).acts, s).s)
  {
    var s2 := Exec(DiffKids(b, ks, live).acts, s);
    if ks != [] {
      var k, rest := ks[0], ks[1..];
      var live1 := if Find(live, k.name).Some? then Erase(live, k.name) else live;
      AgreesFirst(s, b, ks, live);
      KidEffect(b, k, live, s);
      var s1 := Exec(KidActs(b, k, live), s).s;
      EraseSpec(live, k.name);
      DistinctTail(ks);
      RestAgrees(s, b, ks, live, live1, s1);
      DiffKidsEffect(b, rest, live1, s1);
      DiffKidsActs(b, ks, live);
      ExecConcat(KidActs(b, k, live), DiffKids(b, rest, live1).acts, s);
      KidsDoneStep(s, b, ks, live, live1, s1, s2.s);
    }
  }

  lemma AgreesFirst(s: Server, b: string, ks: seq<Node>, live: seq<Node>)
    requires WFKids(ks) && ks != [] && Agrees(s, b, ks, live)
    ensures FirstAgrees(s, b, ks[0], live)
  {
    forall q | Under(Child(b, ks[0].name), q) ensures Get(s, q) == KidsAt(b, live, q) {
      UnderChild(b, ks[0].name, q);
    }
    forall q | Under(Child(b, ks[0].name), q) ensures Below(b, q) && Seg(b, q) == ks[0].name {
      UnderChild(b, ks[0].name, q);
    }
  }

  lemma RestAgrees(s: Server, b: string, ks: seq<Node>, live: seq<Node>, live1: seq<Node>, s1: Server)
    requires WFKids(ks) && ks != [] && Agrees(s, b, ks, live) && Key(b) in s
    requires Find(ks[1..], ks[0].name) == None
    requires forall y | y != ks[0].name :: Find(live1, y) == Find(live, y)
    requires FirstDone(s, b, ks[0], live, s1)
    ensures Agrees(s1, b, ks[1..], live1) && Key(b) in s1
  {
    UnderChild(b, ks[0].name, Key(b));
    assert Get(s1, Key(b)) == Get(s, Key(b));
    forall q | Below(b, q) && Find(ks[1..], Seg(b, q)).Some?
      ensures Get(s1, q) == KidsAt(b, live1, q)
    {
      UnderChild(b, ks[0].name, q);
      assert Get(s1, q) == Get(s, q);
    }
  }

  lemma KidsGoalStep(b: string, ks: seq<Node>, live: seq<Node>, live1: seq<Node>, q: string, was: Option<string>)
    requires ks != [] && SlashFree(ks[0].name) && ks[0].name != ""
    requires Find(ks[1..], ks[0].name) == None
    requires Below(b, q) && Seg(b, q) != ks[0].name ==> Find(live1, Seg(b, q)) == Find(live, Seg(b, q))
    ensures KidsGoal(b, ks, live, q, was) ==
            KidsGoal(b, ks[1..], live1, q, if Under(Child(b, ks[0].name), q) then KidGoal(b, ks[0], live, q) else was)
  {
    UnderChild(b, ks[0].name, q);
  }

  lemma KidsDoneStep(s: Server, b: string, ks: seq<Node>, live: seq<Node>, live1: seq<Node>, s1: Server, s2: Server)
    requires WFKids(ks) && ks != []
    requires Find(ks[1..], ks[0].name) == None
    requires forall y | y != ks[0].name :: Find(live1, y) == Find(live, y)
    requires FirstDone(s, b, ks[0], live, s1)
    requires KidsDone(s1, b, ks[1..], live1, s2)
    ensures KidsDone(s, b, ks, live, s2)
  {
    assert ValidName(ks[0].name);
    forall q ensures Get(s2, q) == KidsGoal(b, ks, live, q, Get(s, q)) {
      KidsGoalStep(b, ks, live, live1, q, Get(s, q));
    }
  }

  lemma {:induction false} DiffKidsRest(b: string, ks: seq<Node>, live: seq<Node>)
    requires Distinct(ks) && WFKids(live)
    ensures WFKids(DiffKids(b, ks, live).rest)
    ensures forall x :: Find(DiffKids(b, ks, live).rest, x) == if Find(ks, x).Some? then None else Find(live, x)
  {
    if ks != [] {
      var live1 := if Find(live, ks[0].name).Some? then Erase(live, ks[0].name) else live;
      EraseSpec(live, ks[0].name);
      DistinctTail(ks);
      DiffKidsRest(b, ks[1..], live1);
      assert DiffKids(b, ks, live).rest == DiffKids(b, ks[1..], live1).rest;
    }
  }

  ghost predicate Deleted(s: Server, b: string, rest: seq<Node>, s1: Server) {
    forall q :: Get(s1, q) == if Below(b, q) && Find(rest, Seg(b, q)).Some? then None else Get(s, q)
  }

  lemma DeleteOne(b: string, x: string, s: Server)
    requires ValidBase(b) && ValidName(x)
    ensures Exec([Delete(Child(b, x))], s) == Done(RemoveUnder(s, Child(b, x)))
    ensures forall q :: Get(RemoveUnder(s, Child(b, x)), q) ==
                        if Below(b, q) && Seg(b, q) == x then None else Get(s, q)
  {
    ChildValid(b, x);
    ChildBelow(b, x);
    ExecSingle(Delete(Child(b, x)), s);
    forall q
      ensures Get(RemoveUnder(s, Child(b, x)), q) == if Below(b, q) && Seg(b, q) == x then None else Get(s, q)
    {
      UnderChild(b, x, q);
    }
  }

  lemma {:induction false} DeleteAllEffect(b: string, rest: seq<Node>, s: Server)
    requires WFKids(rest) && ValidBase(b)
    ensures Exec(DeleteAll(b, rest), s).Done? && Deleted(s, b, rest, Exec(DeleteAll(b, rest), s).s)
  {
    if rest != [] {
      var c := Child(b, rest[0].name);
      var s1 := RemoveUnder(s, c);
      DeleteOne(b, rest[0].name, s);
      DistinctTail(rest);
      DeleteAllEffect(b, rest[1..], s1);
      ExecConcat([Delete(c)], DeleteAll(b, rest[1..]), s);
      var s2 := Exec(DeleteAll(b, rest), s).s;
      forall q
        ensures Get(s2, q) == if Below(b, q) && Find(rest, Seg(b, q)).Some? then None else Get(s, q)
      {
        assert Get(s1, q) == if Below(b, q) && Seg(b, q) == rest[0].name then None else Get(s, q);
        assert Get(s2, q) == if Below(b, q) && Find(rest[1..], Seg(b, q)).Some? then None else Get(s1, q);
      }
    }
  }

  /** What one whole round leaves at path q. */
  function NodeGoal(w: Work, q: string, was: Option<string>): Option<string> {
    if !Below(w.base, q) then was
    else
      var k := Find(w.loaded.kids, Seg(w.base, q));
      if k.None? then None else KidGoal(w.base, k.value, w.live.kids, q)
  }

  ghost predicate WellFormed(w: Work) {
    WF(w.loaded) && WF(w.live) && ValidBase(w.base)
  }

  ghost predicate LiveBelow(s: Server, w: Work) {
    forall q | Below(w.base, q) :: Get(s, q) == At(w.base, w.live, q)
  }

  ghost predicate RoundDone(s: Server, w: Work, s1: Server) {
    forall q :: Get(s1, q) == NodeGoal(w, q, Get(s, q))
  }

  lemma RoundEffect(w: Work, s: Server)
    requires WellFormed(w) && Key(w.base) in s && LiveBelow(s, w)
    ensures Exec(NodeActs(w), s).Done? && RoundDone(s, w, Exec(NodeActs(w), s).s)
  {
    var b, ks, live := w.base, MapOf(w.loaded.kids), MapOf(w.live.kids);
    MapOfWF(w.loaded.kids);
    MapOfWF(w.live.kids);
    forall q | Below(b, q) && Find(ks, Seg(b, q)).Some? ensures Get(s, q) == KidsAt(b, live, q) {
      FindMapOf(w.live.kids, Seg(b, q));
    }
    DiffKidsEffect(b, ks, live, s);
    var d := DiffKids(b, ks, live);
    var s1 := Exec(d.acts, s).s;
    DiffKidsRest(b, ks, live);
    DeleteAllEffect(b, d.rest, s1);
    ExecConcat(d.acts, DeleteAll(b, d.rest), s);
    var s2 := Exec(DeleteAll(b, d.rest), s1).s;
    forall q ensures Get(s2, q) == NodeGoal(w, q, Get(s, q)) {
      RoundEffectAt(w, s, s1, s2, q);
    }
  }

  lemma RoundEffectAt(w: Work, s: Server, s1: Server, s2: Server, q: string)
    requires WellFormed(w) && LiveBelow(s, w)
    requires KidsDone(s, w.base, MapOf(w.loaded.kids), MapOf(w.live.kids), s1)
    requires Deleted(s1, w.base, DiffNode(w).rest, s2)
    requires forall x :: Find(DiffNode(w).rest, x) ==
                         if Find(MapOf(w.loaded.kids), x).Some? then None else Find(MapOf(w.live.kids), x)
    ensures Get(s2, q) == NodeGoal(w, q, Get(s, q))
  {
    var b, ks, live := w.base, MapOf(w.loaded.kids), MapOf(w.live.kids);
    assert Get(s1, q) == KidsGoal(b, ks, live, q, Get(s, q));
    assert Get(s2, q) == if Below(b, q) && Find(DiffNode(w).rest, Seg(b, q)).Some? then None else Get(s1, q);
    if Below(b, q) {
      var x := Seg(b, q);
      FindMapOf(w.loaded.kids, x);
      FindMapOf(w.live.kids, x);
      assert Get(s, q) == At(b, w.live, q);
    }
  }

  // ------------------------------------------------------------- the merge

  lemma {:induction false} FindMergeKids(loaded: seq<Node>, live: seq<Node>, x: string)
    requires Distinct(loaded)
    ensures Find(MergeKids(loaded, live), x) ==
            var k, v := Find(loaded, x), Find(live, x);
            if k.None? then None
            else if v.Some? then Some(if k.value.ignore then v.value else Merge(k.value, v.value))
            else if k.value.ignore then None
            else k
  {
    if loaded != [] {
      DistinctTail(loaded);
      FindMergeKids(loaded[1..], live, x);
      var m, rest := MergeKids(loaded, live), MergeKids(loaded[1..], live);
      if |m| == |rest| + 1 {
        assert m[1..] == rest;
      }
    }
  }

  lemma MergeAt(b: string, loaded: Node, live: Node, q: string)
    requires WF(loaded) && Below(b, q)
    ensures At(b, Merge(loaded, live), q) ==
            var k, v, c := Find(loaded.kids, Seg(b, q)), Find(live.kids, Seg(b, q)), Child(b, Seg(b, q));
            if k.None? then None
            else if v.Some? then At(c, if k.value.ignore then v.value else Merge(k.value, v.value), q)
            else if k.value.ignore then None
            else At(c, k.value, q)
  {
    FindMergeKids(loaded.kids, live.kids, Seg(b, q));
  }

  lemma {:induction false} MergeWF(loaded: Node, live: Node)
    requires WF(loaded) && WF(live)
    ensures WF(Merge(loaded, live))
    decreases loaded, 1
  {
    MergeKidsWF(loaded.kids, live.kids);
  }

  lemma ConsWF(n: Node, rest: seq<Node>)
    requires WFKids(rest) && Find(rest, n.name) == None && ValidName(n.name) && WF(n)
    ensures WFKids([n] + rest)
  {
    var m := [n] + rest;
    forall i, j | 0 <= i < j < |m| ensures m[i].name != m[j].name {
      assert m[j] == rest[j - 1] && rest[j - 1] in rest;
      if i > 0 { assert m[i] == rest[i - 1]; }
    }
  }

  lemma {:induction false} MergeKidsWF(loaded: seq<Node>, live: seq<Node>)
    requires WFKids(loaded) && WFKids(live)
    ensures WFKids(MergeKids(loaded, live))
    decreases loaded, 0
  {
    if loaded != [] {
      var k, v, rest := loaded[0], Find(live, loaded[0].name), MergeKids(loaded[1..], live);
      DistinctTail(loaded);
      MergeKidsWF(loaded[1..], live);
      FindMergeKids(loaded[1..], live, k.name);
      if v.Some? {
        MergeWF(k, v.value);
        ConsWF(if k.ignore then v.value else Merge(k, v.value), rest);
      } else if !k.ignore {
        ConsWF(k, rest);
      }
    }
  }

  // ----------------------------------------------------- the worklist invariant

  /** The matched, unflagged children of a round are what is queued, once each. */
  ghost predicate Queued(b: string, ks: seq<Node>, live: seq<Node>, pend: seq<Work>) {
    && (forall w | w in pend ::
          && w.loaded in ks && !w.loaded.ignore && w.base == Child(b, w.loaded.name)
          && Find(live, w.loaded.name) == Some(w.live))
    && (forall i, j | 0 <= i < j < |pend| :: pend[i].loaded.name != pend[j].loaded.name)
    && (forall k | k in ks && !k.ignore && Find(live, k.name).Some? ::
          Work(Child(b, k.name), k, Find(live, k.name).value) in pend)
  }

  lemma {:induction false} DiffKidsQueued(b: string, ks: seq<Node>, live: seq<Node>)
    requires Distinct(ks) && Distinct(live)
    ensures Queued(b, ks, live, DiffKids(b, ks, live).pend)
  {
    if ks != [] {
      var k, rest := ks[0], ks[1..];
      var live1 := if Find(live, k.name).Some? then Erase(live, k.name) else live;
      EraseSpec(live, k.name);
      DistinctTail(ks);
      DiffKidsQueued(b, rest, live1);
    }
  }

  /** A pair waits: the server has its saved value already, and its live subtree
      still; the target below it is the merge. */
  ghost predicate Waiting(s: Server, t: string -> Option<string>, w: Work) {
    && WellFormed(w)
    && Get(s, Key(w.base)) == Some(w.loaded.value)
    && LiveBelow(s, w)
    && (forall q | Under(w.base, q) :: t(q) == At(w.base, Merge(w.loaded, w.live), q))
  }

  ghost predicate Apart(work: seq<Work>) {
    forall i, j, q | 0 <= i < j < |work| && Under(work[i].base, q) :: !Under(work[j].base, q)
  }

  ghost predicate Covered(work: seq<Work>, q: string) {
    exists i | 0 <= i < |work| :: Under(work[i].base, q)
  }

  ghost predicate Progress(s: Server, t: string -> Option<string>, work: seq<Work>) {
    && (forall w | w in work :: Waiting(s, t, w))
    && Apart(work)
    && (forall q | !Covered(work, q) :: Get(s, q) == t(q))
  }

  /** A round does not disturb the other waiting pairs. */
  lemma OthersWait(s: Server, t: string -> Option<string>, work: seq<Work>, s1: Server, j: nat)
    requires 0 < j < |work| && Waiting(s, t, work[j]) && Apart(work) && RoundDone(s, work[0], s1)
    ensures Waiting(s1, t, work[j])
  {
    forall q | Under(work[j].base, q) ensures Get(s1, q) == Get(s, q) {
      assert !Under(work[0].base, q);
      assert Get(s1, q) == NodeGoal(work[0], q, Get(s, q));
    }
    assert Under(work[j].base, Key(work[j].base));
  }

  /** A queued pair starts to wait. */
  lemma QueuedWaits(s: Server, t: string -> Option<string>, w: Work, s1: Server, n: Work)
    requires Waiting(s, t, w) && RoundDone(s, w, s1)
    requires n.loaded in w.loaded.kids && !n.loaded.ignore && n.base == Child(w.base, n.loaded.name)
    requires Find(w.live.kids, n.loaded.name) == Some(n.live)
    ensures Waiting(s1, t, n)
  {
    var x := n.loaded.name;
    FindMember(w.loaded.kids, n.loaded);
    ChildValid(w.base, x);
    forall q | Under(n.base, q)
      ensures Get(s1, q) == (if q == n.base then Some(n.loaded.value) else At(n.base, n.live, q))
      ensures t(q) == At(n.base, Merge(n.loaded, n.live), q)
    {
      UnderChild(w.base, x, q);
      MergeAt(w.base, w.loaded, w.live, q);
      assert Get(s1, q) == NodeGoal(w, q, Get(s, q));
      assert Under(w.base, q);
    }
    assert Under(n.base, n.base);
  }

  lemma MatchedIsCovered(w: Work, pend: seq<Work>, q: string, k: Node, v: Node)
    requires WellFormed(w) && Queued(w.base, w.loaded.kids, w.live.kids, pend)
    requires k in w.loaded.kids && !k.ignore && Find(w.live.kids, k.name) == Some(v)
    requires Below(w.base, q) && Seg(w.base, q) == k.name
    ensures Covered(pend, q)
  {
    UnderChild(w.base, k.name, q);
    var n := Work(Child(w.base, k.name), k, v);
    assert n in pend;
    var i :| 0 <= i < |pend| && pend[i] == n;
    assert Under(pend[i].base, q);
  }

  /** What is neither below a waiting nor below a queued pair is final. */
  lemma RoundSettles(s: Server, t: string -> Option<string>, w: Work, s1: Server, pend: seq<Work>, q: string)
    requires Waiting(s, t, w) && RoundDone(s, w, s1) && Queued(w.base, w.loaded.kids, w.live.kids, pend)
    requires Under(w.base, q) && !Covered(pend, q)
    ensures Get(s1, q) == t(q)
  {
    assert Get(s1, q) == NodeGoal(w, q, Get(s, q));
    if Below(w.base, q) {
      var x := Seg(w.base, q);
      var k, v := Find(w.loaded.kids, x), Find(w.live.kids, x);
      MergeAt(w.base, w.loaded, w.live, q);
      if k.Some? && v.Some? && !k.value.ignore {
        MatchedIsCovered(w, pend, q, k.value, v.value);
        assert false;
      }
    }
  }

  lemma QueuedUnder(w: Work, pend: seq<Work>, i: nat, q: string)
    requires WellFormed(w) && Queued(w.base, w.loaded.kids, w.live.kids, pend)
    requires i < |pend| && Under(pend[i].base, q)
    ensures Below(w.base, q) && Seg(w.base, q) == pend[i].loaded.name
  {
    assert pend[i] in pend;
    UnderChild(w.base, pend[i].loaded.name, q);
  }

  lemma QueuedApart(w: Work, pend: seq<Work>)
    requires WellFormed(w) && Queued(w.base, w.loaded.kids, w.live.kids, pend)
    ensures Apart(pend)
  {
    forall i, j, q | 0 <= i < j < |pend| && Under(pend[i].base, q) ensures !Under(pend[j].base, q) {
      QueuedUnder(w, pend, i, q);
      if Under(pend[j].base, q) { QueuedUnder(w, pend, j, q); }
    }
  }

  lemma ReplaceApart(work: seq<Work>, pend: seq<Work>)
    requires work != [] && Apart(work) && Apart(pend)
    requires forall i, q | 0 <= i < |pend| && Under(pend[i].base, q) :: Under(work[0].base, q)
    ensures Apart(work[1..] + pend)
  {
    var r, m := work[1..] + pend, |work| - 1;
    forall i, j, q | 0 <= i < j < |r| && Under(r[i].base, q) ensures !Under(r[j].base, q) {
      if j < m {
        assert !Under(work[j + 1].base, q);
      } else if i < m {
        assert !Under(work[0].base, q);
      } else {
        assert !Under(pend[j - m].base, q);
      }
    }
  }

  lemma RoundProgress(s: Server, t: string -> Option<string>, work: seq<Work>, s1: Server)
    requires work != [] && Progress(s, t, work) && RoundDone(s, work[0], s1)
    ensures Progress(s1, t, work[1..] + DiffNode(work[0]).pend)
  {
    var w, pend := work[0], DiffNode(work[0]).pend;
    var r := work[1..] + pend;
    assert Waiting(s, t, w);
    NodeQueued(w);
    forall n | n in r ensures Waiting(s1, t, n) {
      if n in pend {
        QueuedWaits(s, t, w, s1, n);
      } else {
        var j :| 0 < j < |work| && work[j] == n;
        OthersWait(s, t, work, s1, j);
      }
    }
    QueuedApart(w, pend);
    ReplaceApart(work, pend);
    forall q | !Covered(r, q) ensures Get(s1, q) == t(q) {
      Uncovered(work, pend, q);
      if Under(w.base, q) {
        RoundSettles(s, t, w, s1, pend, q);
      } else {
        assert Get(s1, q) == NodeGoal(w, q, Get(s, q));
      }
    }
  }

  lemma NodeQueued(w: Work)
    requires WellFormed(w)
    ensures Queued(w.base, w.loaded.kids, w.live.kids, DiffNode(w).pend)
  {
    var ks, live := MapOf(w.loaded.kids), MapOf(w.live.kids);
    MapOfWF(w.loaded.kids);
    MapOfWF(w.live.kids);
    MapOfSorted(w.loaded.kids);
    DiffKidsQueued(w.base, ks, live);
    forall k | k in w.loaded.kids ensures k in ks && Find(live, k.name) == Find(w.live.kids, k.name) {
      FindMember(w.loaded.kids, k);
      FindMapOf(w.loaded.kids, k.name);
      FindMapOf(w.live.kids, k.name);
    }
  }

  lemma Uncovered(work: seq<Work>, pend: seq<Work>, q: string)
    requires work != [] && !Covered(work[1..] + pend, q)
    ensures !Covered(pend, q)
    ensures !Under(work[0].base, q) ==> !Covered(work, q)
  {
    var r := work[1..] + pend;
    forall i | 0 <= i < |pend| ensures !Under(pend[i].base, q) {
      assert r[|work| - 1 + i] == pend[i];
    }
    forall i | 0 < i < |work| ensures !Under(work[i].base, q) {
      assert r[i - 1] == work[i];
    }
  }

  /** Running the worklist to its end reaches the target everywhere. */
  lemma {:induction false} WorkReachesTarget(s: Server, t: string -> Option<string>, work: seq<Work>)
    requires Progress(s, t, work)
    ensures Exec(DiffWork(work), s).Done?
    ensures forall q :: Get(Exec(DiffWork(work), s).s, q) == t(q)
    decreases Weight(work)
  {
    if work == [] {
      forall q ensures !Covered(work, q) { }
    } else {
      var w := work[0];
      assert Waiting(s, t, w);
      RoundEffect(w, s);
      var s1 := Exec(NodeActs(w), s).s;
      RoundProgress(s, t, work, s1);
      WeightShrinks(work);
      WorkReachesTarget(s1, t, work[1..] + DiffNode(w).pend);
      ExecConcat(NodeActs(w), DiffWork(work[1..] + DiffNode(w).pend), s);
    }
  }

  // ------------------------------------------------------------ main results

  function Target(s: Server, b: string, m: Node, q: string): Option<string> {
    if Under(b, q) then At(b, m, q) else Get(s, q)
  }

  /** Executing the diff of a saved and a live tree, on any server that holds the
      live tree at that path, raises no exception, leaves exactly the merged tree
      there, and changes nothing elsewhere. */
  lemma DiffReachesMerge(s: Server, path: string, loaded: Node, live: Node)
    requires ValidPath(path) && WF(loaded) && WF(live) && Holds(s, Base(path), live)
    ensures var r := Exec(Diff(path, loaded, live), s);
            r.Done? && Holds(r.s, Base(path), Merge(loaded, live))
            && forall q | !Under(Base(path), q) :: Get(r.s, q) == Get(s, q)
  {
    var b := Base(path);
    var root := if loaded.value != live.value then [Value(path, loaded.value, live.value)] else [];
    var work := [Work(b, loaded, live)];
    assert Key(b) == path && Under(b, path);
    assert Get(s, path) == At(b, live, path) == Some(live.value);
    var s1 := s[path := loaded.value];
    assert Exec(root, s) == Done(s1) by {
      if loaded.value != live.value {
        ExecSingle(Value(path, loaded.value, live.value), s);
      } else {
        assert s1 == s;
      }
    }
    var t := q => Target(s, b, Merge(loaded, live), q);
    StartProgress(s, path, loaded, live, s1, t);
    WorkReachesTarget(s1, t, work);
    ExecConcat(root, DiffWork(work), s);
    var s2 := Exec(DiffWork(work), s1).s;
    forall q ensures Get(s2, q) == Target(s, b, Merge(loaded, live), q) {
      assert Get(s2, q) == t(q);
    }
  }

  lemma StartProgress(s: Server, path: string, loaded: Node, live: Node, s1: Server, t: string -> Option<string>)
    requires ValidPath(path) && WF(loaded) && WF(live) && Holds(s, Base(path), live)
    requires s1 == s[path := loaded.value]
    requires forall q :: t(q) == Target(s, Base(path), Merge(loaded, live), q)
    ensures Progress(s1, t, [Work(Base(path), loaded, live)])
  {
    var w := Work(Base(path), loaded, live);
    assert WellFormed(w);
    assert LiveBelow(s1, w);
    assert Waiting(s1, t, w);
    forall q | !Covered([w], q) ensures Get(s1, q) == t(q) {
      assert [w][0] == w;
      assert !Under(w.base, q);
    }
  }
}
