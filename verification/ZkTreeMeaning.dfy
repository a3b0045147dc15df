/** What the merge of a diff and the pruning of a written tree mean, path by path, in terms
    of where the saved tree carries flags. */
module ZkTreeMeaning {
  import opened Prelude
  import opened ZkPath
  import opened ZkTree
  import opened ZkTreeDiff
  import opened ZkTreeSync
  import opened ZkTreeUtil

  /** The flag that tree t, hung at base b, has at path q; none without a node. */
  function FlagAt(b: string, t: Node, q: string): bool
    decreases t
  {
    if q == Key(b) then t.ignore
    else if !Below(b, q) then false
    else
      var k := Find(t.kids, Seg(b, q));
      k.Some? && FlagAt(Child(b, Seg(b, q)), k.value, q)
  }

  // ------------------------------------------------------------------- merge

  /** The node of name n below u carries a flag, u is live, and q lies at or below it. */
  predicate Shields(b: string, loaded: Node, live: Node, u: string, n: string, q: string) {
    && n != "" && SlashFree(n) && Below(b, Child(u, n)) && Under(Child(u, n), q)
    && FlagAt(b, loaded, Child(u, n)) && At(b, live, Key(u)).Some?
  }

  ghost predicate Shielded(b: string, loaded: Node, live: Node, q: string) {
    exists u, n :: Shields(b, loaded, live, u, n, q)
  }

  /** A node on the way to q is on the way through the same child. */
  lemma SameSeg(b: string, p: string, q: string)
    requires Below(b, p) && Under(p, q) && p != ""
    ensures Below(b, q) && (Seg(b, p) == Seg(b, q) || p[|p| - 1] == '/')
  {
    var s, r := p[|b| + 1..], q[|b| + 1..];
    assert b + "/" <= p && p <= q;
    var x := Upto(s);
    assert s <= r;
    if q != p {
      assert q[|p|] == '/' && r[|s|] == q[|p|];
    }
    UptoUnique(r, x);
  }

  lemma FlagBelow(b: string, t: Node, x: string, p: string)
    requires WF(t) && x != "" && SlashFree(x) && Under(Child(b, x), p)
    ensures FlagAt(b, t, p) == (Find(t.kids, x).Some? && FlagAt(Child(b, x), Find(t.kids, x).value, p))
  {
    UnderChild(b, x, p);
  }

  lemma AtBelow(b: string, t: Node, x: string, p: string)
    requires WF(t) && x != "" && SlashFree(x) && Under(Child(b, x), p)
    ensures At(b, t, p) == if Find(t.kids, x).Some? then At(Child(b, x), Find(t.kids, x).value, p) else None
  {
    UnderChild(b, x, p);
  }

  /** A shield that is not the child on the way itself lies below it, its parent too. */
  lemma ShieldInside(b: string, c: string, u: string, n: string, q: string)
    requires n != "" && SlashFree(n) && Below(b, Child(u, n)) && Under(Child(u, n), q)
    requires Below(b, q) && Seg(b, q) != "" && c == Child(b, Seg(b, q))
    ensures Child(u, n) == c || (Below(c, Child(u, n)) && Under(c, Key(u)))
  {
    var p := Child(u, n);
    assert p[|p| - 1] == n[|n| - 1];
    SameSeg(b, p, q);
    UnderChild(b, Seg(b, q), p);
    if p != c {
      ChildBelow(b, Seg(b, q));
      assert Below(c, p);
      if u != c { BelowParent(c, u, n); }
    }
  }

  /** The rule of the merge where the child on the way to q is in both trees and not
      flagged: what shields q shields it below that child. */
  lemma ShieldsBelow(b: string, loaded: Node, live: Node, q: string)
    requires WF(loaded) && WF(live) && Below(b, q) && Seg(b, q) != ""
    requires var (k, v) := (Find(loaded.kids, Seg(b, q)), Find(live.kids, Seg(b, q)));
             k.Some? && v.Some? && !k.value.ignore
    ensures var (k, v) := (Find(loaded.kids, Seg(b, q)), Find(live.kids, Seg(b, q)));
            Shielded(b, loaded, live, q) <==> Shielded(Child(b, Seg(b, q)), k.value, v.value, q)
  {
    var x := Seg(b, q);
    var c, k, v := Child(b, x), Find(loaded.kids, x).value, Find(live.kids, x).value;
    ChildBelow(b, x);
    forall u, n | Shields(b, loaded, live, u, n, q) ensures Shields(c, k, v, u, n, q) {
      ShieldInside(b, c, u, n, q);
      FlagBelow(b, loaded, x, Child(u, n));
      AtBelow(b, live, x, Key(u));
    }
    forall u, n | Shields(c, k, v, u, n, q) ensures Shields(b, loaded, live, u, n, q) {
      ShieldParent(c, u, n);
      UnderChild(b, x, Child(u, n));
      FlagBelow(b, loaded, x, Child(u, n));
      AtBelow(b, live, x, Key(u));
    }
  }

  lemma ShieldParent(c: string, u: string, n: string)
    requires SlashFree(n) && Below(c, Child(u, n)) && c != "" && c != "/"
    ensures Under(c, Key(u))
  {
    if u != c { BelowParent(c, u, n); }
  }

  /** A child that is not live has nothing live below it. */
  lemma NothingShields(b: string, loaded: Node, live: Node, q: string)
    requires WF(loaded) && WF(live) && Below(b, q) && Seg(b, q) != ""
    requires var (k, v) := (Find(loaded.kids, Seg(b, q)), Find(live.kids, Seg(b, q)));
             k.None? || (v.None? && !k.value.ignore)
    ensures !Shielded(b, loaded, live, q)
  {
    var x := Seg(b, q);
    var c := Child(b, x);
    ChildBelow(b, x);
    forall u, n ensures !Shields(b, loaded, live, u, n, q) {
      if Shields(b, loaded, live, u, n, q) {
        ShieldInside(b, c, u, n, q);
        FlagBelow(b, loaded, x, Child(u, n));
        if Child(u, n) != c { AtBelow(b, live, x, Key(u)); }
      }
    }
  }

  /** What the merged tree has at a path: what the live tree has, if a saved node on the way
      there, below the top and with a live parent, is flagged; what the saved tree has
      otherwise. */
  lemma {:induction false} MergeMeaning(b: string, loaded: Node, live: Node, q: string)
    requires WF(loaded) && WF(live) && Under(b, q) && b != "/"
    ensures At(b, Merge(loaded, live), q) ==
            if Shielded(b, loaded, live, q) then At(b, live, q) else At(b, loaded, q)
    decreases loaded
  {
    if q == Key(b) {
      TopNotShielded(b, loaded, live);
    } else {
      var x := Seg(b, q);
      var k, v := Find(loaded.kids, x), Find(live.kids, x);
      MergeAt(b, loaded, live, q);
      if k.Some? && k.value.ignore {
        FlaggedChild(b, loaded, live, q);
      } else if k.Some? && v.Some? {
        ChildBelow(b, x);
        UnderChild(b, x, q);
        ShieldsBelow(b, loaded, live, q);
        MergeMeaning(Child(b, x), k.value, v.value, q);
      } else if x != "" {
        NothingShields(b, loaded, live, q);
      } else {
        NamelessShield(b, loaded, live, q);
      }
    }
  }

  lemma TopNotShielded(b: string, loaded: Node, live: Node)
    requires b != "/"
    ensures !Shielded(b, loaded, live, Key(b))
  {
    forall u, n ensures !Shields(b, loaded, live, u, n, Key(b)) {
      if Below(b, Child(u, n)) && Under(Child(u, n), Key(b)) {
        assert |Child(u, n)| <= |Key(b)|;
        assert b + "/" <= Child(u, n);
        assert n != "" ==> |Child(u, n)| >= 2;
      }
    }
  }

  lemma FlaggedChild(b: string, loaded: Node, live: Node, q: string)
    requires WF(loaded) && Below(b, q) && b != "/"
    requires var k := Find(loaded.kids, Seg(b, q)); k.Some? && k.value.ignore
    ensures Shielded(b, loaded, live, q)
  {
    var x := Seg(b, q);
    ChildBelow(b, x);
    UnderChild(b, x, q);
    FlagBelow(b, loaded, x, Child(b, x));
    assert Shields(b, loaded, live, b, x, q);
  }

  /** No tree has a node on a path with an empty component. */
  lemma NamelessShield(b: string, loaded: Node, live: Node, q: string)
    requires WF(loaded) && Below(b, q) && Seg(b, q) == ""
    ensures !Shielded(b, loaded, live, q)
  {
    forall u, n ensures !Shields(b, loaded, live, u, n, q) {
      var p := Child(u, n);
      if Shields(b, loaded, live, u, n, q) {
        assert p[|p| - 1] == n[|n| - 1];
        SameSeg(b, p, q);
      }
    }
  }

  // ----------------------------------------------------------------- pruning

  /** The node at base u carries a flag, and q lies below it. */
  predicate Hides(b: string, t: Node, u: string, q: string) {
    u != "/" && Under(b, Key(u)) && FlagAt(b, t, Key(u)) && Below(u, q)
  }

  ghost predicate Hidden(b: string, t: Node, q: string) {
    exists u :: Hides(b, t, u, q)
  }

  lemma HidesBelow(b: string, t: Node, q: string)
    requires WF(t) && Below(b, q) && b != "/" && !t.ignore && Find(t.kids, Seg(b, q)).Some?
    ensures Hidden(b, t, q) <==> Hidden(Child(b, Seg(b, q)), Find(t.kids, Seg(b, q)).value, q)
  {
    var x := Seg(b, q);
    var c, k := Child(b, x), Find(t.kids, x).value;
    ChildBelow(b, x);
    forall u | Hides(b, t, u, q) ensures Hides(c, k, u, q) {
      HiderBelow(b, u, x, q);
      FlagBelow(b, t, x, Key(u));
    }
    forall u | Hides(c, k, u, q) ensures Hides(b, t, u, q) {
      UnderChild(b, x, Key(u));
      FlagBelow(b, t, x, Key(u));
    }
  }

  lemma HiderBelow(b: string, u: string, x: string, q: string)
    requires b != "/" && u != "/" && Under(b, Key(u)) && Below(u, q) && Below(b, q) && u != b
    requires x == Seg(b, q) && x != ""
    ensures Under(Child(b, x), Key(u))
  {
    assert u != "";
    assert b + "/" <= u && u + "/" <= q;
    var s, r := u[|b| + 1..], q[|b| + 1..];
    assert s <= r && r[|s|] == q[|u|] == '/';
    assert forall i | 0 <= i < |x| :: r[i] != '/';
    assert x <= s;
    UptoUnique(s, x);
    UnderChild(b, x, u);
  }

  /** What is written at a path: nothing below a flagged node, and everywhere else what the
      tree has. */
  lemma {:induction false} PruneMeaning(b: string, t: Node, q: string)
    requires WF(t) && Under(b, q) && b != "/"
    ensures At(b, Prune(t), q) == if Hidden(b, t, q) then None else At(b, t, q)
    decreases t
  {
    if q == Key(b) {
      TopNotHidden(b, t);
    } else if t.ignore {
      assert Hides(b, t, b, q);
    } else {
      var x := Seg(b, q);
      var k := Find(t.kids, x);
      FindPrune(t.kids, x);
      if k.Some? {
        ChildBelow(b, x);
        UnderChild(b, x, q);
        HidesBelow(b, t, q);
        PruneMeaning(Child(b, x), k.value, q);
      }
    }
  }

  lemma TopNotHidden(b: string, t: Node)
    requires b != "/"
    ensures !Hidden(b, t, Key(b))
  {
    forall u ensures !Hides(b, t, u, Key(b)) {
    }
  }
}
