/** zktreeutil's adapter to the server: creation with missing ancestors, recursive
    deletion, loading and writing of subtrees, and execution of actions. The object
    stands for the connection; its field is the server's data tree. */
module ZkAdaptor {
  import opened PathScan
  import opened Prelude
  import opened ZkPath
  import opened ZkTree

  datatype Rc = ZOK | ZNONODE | ZNODEEXISTS | ZNOTEMPTY | ZBADARGUMENTS

  /** Normal return, or a ZooKeeperException. */
  datatype Result<+T> = Returned(value: T) | Exception

  /** The root exists, all paths are valid, and every other node has its parent. */
  ghost predicate Closed(s: Server) {
    "/" in s && forall q {:trigger Attached(s, q)} | q in s :: Attached(s, q)
  }

  predicate Attached(s: Server, q: string) {
    ValidPath(q) && (q != "/" ==> ParentKey(q) in s)
  }

  /** Proper non-root ancestors of p opened by the slashes before position n. */
  function Ancestors(p: string, n: nat): set<string>
    requires n <= |p|
  {
    set k | 1 <= k < n && p[k] == '/' :: p[..k]
  }

  /** Missing paths get the empty value; present ones keep theirs. */
  function AddMissing(s: Server, qs: set<string>): Server {
    s + map q | q in qs && q !in s :: ""
  }

  /** Creation with ancestors; without, this is the case where the parent exists. */
  function CreateDeep(s: Server, p: string, v: string): Server
    requires ValidPath(p)
  {
    AddMissing(s, Ancestors(p, |p|))[p := v]
  }

  function SubKeys(s: Server, b: string): set<string> {
    set q | q in s && Under(b, q)
  }

  predicate IsChild(q: string, p: string) {
    q != "/" && ValidPath(q) && ParentKey(q) == p
  }

  function Children(s: Server, p: string): set<string> {
    set q | q in s && IsChild(q, p)
  }

  lemma CutAt(q: string, i: int)
    requires 0 <= i < |q| && q[i] == '/'
    ensures q == Child(q[..i], q[i + 1..])
  {
    var u, n := q[..i], q[i + 1..];
    assert |Child(u, n)| == |q|;
    forall k | 0 <= k < |q| ensures q[k] == Child(u, n)[k] {
      if k < i { assert u[k] == q[k]; }
      else if k > i { assert n[k - i - 1] == q[k]; }
    }
  }

  lemma SplitLast(q: string)
    requires ValidBase(q) && q != ""
    ensures var i := LastSlash(q);
            i >= 0 && q == Child(q[..i], q[i + 1..]) && ValidBase(q[..i]) && ValidName(q[i + 1..])
  {
    CutAt(q, LastSlash(q));
  }

  lemma KeyOfBase(b: string)
    requires ValidBase(b)
    ensures ValidPath(Key(b)) && Base(Key(b)) == b && b != "/"
  {
    if b != "" { ValidNotSingle(b); }
  }

  lemma ChildOf(p: string, q: string)
    requires IsChild(q, p)
    ensures ValidPath(p) && ValidName(q[LastSlash(q) + 1..]) && q == Child(Base(p), q[LastSlash(q) + 1..])
    ensures Below(Base(p), q)
  {
    var b, n := q[..LastSlash(q)], q[LastSlash(q) + 1..];
    SplitLast(q);
    KeyOfBase(b);
    assert p == Key(b) && Base(p) == b;
    ChildBelow(b, n);
  }

  lemma ChildIs(b: string, n: string)
    requires ValidBase(b) && ValidName(n)
    ensures IsChild(Child(b, n), Key(b))
  {
    ChildValid(b, n);
    ChildParts(b, n);
    ChildBelow(b, n);
  }

  lemma UnderExtend(c: string, u: string, n: string)
    requires c != "" && u != "" && Under(c, u)
    ensures Under(c, Child(u, n))
  {
    if u != c {
      assert c + "/" <= u <= Child(u, n);
    } else {
      assert u + "/" <= Child(u, n);
    }
  }

  /** Below b, the next component of any existing path leads to an existing child. */
  lemma {:induction false} StepExists(s: Server, b: string, q: string)
    requires Closed(s) && ValidBase(b) && q in s && Below(b, q) && q != "/"
    ensures ValidName(Seg(b, q)) && Child(b, Seg(b, q)) in s
    decreases |q|, 0
  {
    var i := LastSlash(q);
    var u, n := q[..i], q[i + 1..];
    assert Attached(s, q);
    SplitLast(q);
    if u == b {
      ChildBelow(b, n);
    } else {
      BelowParent(b, u, n);
      assert ParentKey(q) in s && Key(u) == u;
      ParentStep(s, b, u, n);
    }
  }

  lemma {:induction false} ParentStep(s: Server, b: string, u: string, n: string)
    requires Closed(s) && ValidBase(b) && ValidBase(u) && ValidName(n) && u in s
    requires b + "/" <= u
    ensures var q := Child(u, n);
            Below(b, q) && ValidName(Seg(b, q)) && Child(b, Seg(b, q)) in s
    decreases |u|, 1
  {
    KeyOfBase(u);
    assert |u| > |b|;
    assert Below(b, u);
    StepExists(s, b, u);
    var c := Child(b, Seg(b, u));
    UnderChild(b, Seg(b, u), u);
    UnderExtend(c, u, n);
    UnderChild(b, Seg(b, u), Child(u, n));
  }

  // ----------------------------------------------------- creating ancestors

  lemma PrefixIsPath(p: string, k: int)
    requires ValidPath(p) && 1 <= k < |p| && p[k] == '/'
    ensures ValidPath(p[..k]) && p[..k] != "/" && p != "/"
  {
    ValidBaseCut(p, k);
    KeyOfBase(p[..k]);
  }

  lemma AncestorsOfPrefix(p: string, k: int)
    requires 1 <= k < |p| && p[k] == '/'
    ensures Ancestors(p[..k], k) == Ancestors(p, k)
    ensures Ancestors(p, k + 1) == Ancestors(p, k) + {p[..k]}
  {
    assert forall j | 1 <= j < k :: p[..k][..j] == p[..j] && p[..k][j] == p[j];
  }

  lemma ParentIsAncestor(p: string)
    requires ValidBase(p) && p != ""
    ensures ParentKey(p) == "/" || ParentKey(p) in Ancestors(p, |p|)
  {
    var i := LastSlash(p);
    if i > 0 { assert p[..i] in Ancestors(p, |p|); }
  }

  lemma {:induction false} AncestorsExist(s: Server, p: string)
    requires Closed(s) && ValidBase(p) && p != "" && ParentKey(p) in s
    ensures Ancestors(p, |p|) <= s.Keys
    decreases |p|
  {
    var i := LastSlash(p);
    SplitLast(p);
    var u := p[..i];
    if i > 0 {
      KeyOfBase(u);
      assert Attached(s, u);
      AncestorsExist(s, u);
      AncestorsOfPrefix(p, i);
      assert Ancestors(p, i + 1) <= s.Keys;
    }
    assert Ancestors(p, |p|) <= s.Keys;
  }

  lemma AncestorStep(s0: Server, p: string, k: int, s: Server)
    requires ValidPath(p) && 1 <= k < |p| && p[k] == '/' && s == AddMissing(s0, Ancestors(p, k))
    requires "/" in s0
    ensures var q := p[..k];
            ValidPath(q) && q != "/" && ParentKey(q) in s &&
            AddMissing(s0, Ancestors(p, k + 1)) == if q in s then s else CreateDeep(s, q, "")
  {
    var q := p[..k];
    PrefixIsPath(p, k);
    AncestorsOfPrefix(p, k);
    ParentIsAncestor(q);
    AddOne(s0, Ancestors(p, k), q);
    AddNone(s, Ancestors(q, |q|));
  }

  lemma AddOne(s: Server, qs: set<string>, q: string)
    ensures var t := AddMissing(s, qs); AddMissing(s, qs + {q}) == if q in t then t else t[q := ""]
  {
  }

  lemma AddNone(s: Server, qs: set<string>)
    requires qs <= s.Keys
    ensures AddMissing(s, qs) == s
  {
  }

  lemma AncestorsUpTo(p: string, m: nat, n: nat)
    requires m <= n <= |p| && forall k | m <= k < n :: p[k] != '/'
    ensures Ancestors(p, m) == Ancestors(p, n)
  {
  }

  /** What creation with ancestors leaves at a path: the value at the path itself, what was
      there at any path that was there, the empty value on the way to the path, and nothing
      new anywhere else. */
  lemma CreateDeepAt(s: Server, p: string, v: string, q: string)
    requires ValidPath(p) && p != "/"
    ensures Get(CreateDeep(s, p, v), q) ==
            if q == p then Some(v)
            else if q in s then Some(s[q])
            else if q != "" && q + "/" <= p then Some("")
            else None
  {
    if q != "" && q + "/" <= p {
      assert p[|q|] == '/' && p[..|q|] == q;
      assert q in Ancestors(p, |p|);
    }
    if q in Ancestors(p, |p|) {
      var k :| 1 <= k < |p| && p[k] == '/' && q == p[..k];
      assert p[..k + 1] == q + "/";
    }
  }

  lemma CreateLeafClosed(s: Server, p: string, v: string)
    requires Closed(s) && ValidPath(p) && p != "/" && ParentKey(p) in s
    ensures Closed(s[p := v])
  {
    var s1 := s[p := v];
    forall q | q in s1 ensures Attached(s1, q) {
      assert q != p ==> Attached(s, q);
    }
  }

  lemma CreateShallow(s: Server, p: string, v: string)
    requires Closed(s) && ValidPath(p) && p != "/" && ParentKey(p) in s
    ensures CreateDeep(s, p, v) == s[p := v]
  {
    AncestorsExist(s, p);
    AddNone(s, Ancestors(p, |p|));
  }

  lemma CreateLast(s0: Server, p: string, v: string, s: Server)
    requires Closed(s) && ValidPath(p) && p !in s0 && "/" in s0 && s == AddMissing(s0, Ancestors(p, |p|))
    ensures p != "/" && p !in s && ParentKey(p) in s && CreateDeep(s, p, v) == CreateDeep(s0, p, v)
  {
    ParentIsAncestor(p);
    CreateShallow(s, p, v);
  }

  // -------------------------------------------------------------- removing

  ghost predicate UnderSome(list: seq<string>, n: nat, q: string)
    requires n <= |list|
  {
    exists j | 0 <= j < n :: Under(list[j], q)
  }

  ghost function Without(s: Server, list: seq<string>, n: nat): Server
    requires n <= |list|
  {
    map q | q in s && !UnderSome(list, n, q) :: s[q]
  }

  lemma WithoutStep(s: Server, list: seq<string>, n: nat)
    requires n < |list|
    ensures Without(s, list, n + 1) == RemoveUnder(Without(s, list, n), list[n])
  {
  }

  lemma ParentOutside(p: string, q: string)
    requires ValidBase(p) && p != "" && ValidBase(q) && q != "" && !Under(p, q)
    ensures !Under(p, ParentKey(q))
  {
    SplitLast(q);
    var u := q[..LastSlash(q)];
    KeyOfBase(u);
    if u != "" {
      if Under(p, u) { UnderExtend(p, u, q[LastSlash(q) + 1..]); }
    } else {
      KeyOfBase(p);
      ValidNotSingle(p);
    }
  }

  lemma RemoveUnderClosed(s: Server, p: string)
    requires Closed(s) && ValidPath(p) && p != "/"
    ensures Closed(RemoveUnder(s, p))
  {
    var s1 := RemoveUnder(s, p);
    KeyOfBase(p);
    BaseStartsWithSlash(p);
    assert Base(p) == p;
    forall q | q in s1 ensures Attached(s1, q) {
      assert Attached(s, q);
      if q != "/" { ParentOutside(p, q); }
    }
  }

  lemma SubKeysShrink(s: Server, s1: Server, p: string, c: string)
    requires s1.Keys <= s.Keys && ValidPath(p) && p in s && IsChild(c, p)
    ensures |SubKeys(s1, c)| < |SubKeys(s, Base(p))|
  {
    ChildOf(p, c);
    var n := c[LastSlash(c) + 1..];
    KeyOfBase(c);
    forall q | q in SubKeys(s1, c) ensures q in SubKeys(s, Base(p)) && q != p {
      UnderChild(Base(p), n, q);
    }
    assert p in SubKeys(s, Base(p));
    assert SubKeys(s1, c) < SubKeys(s, Base(p));
    SmallerSet(SubKeys(s1, c), SubKeys(s, Base(p)));
  }

  lemma SubKeysLess(s: Server, s1: Server, p: string)
    requires s1.Keys <= s.Keys
    ensures |SubKeys(s1, Base(p))| <= |SubKeys(s, Base(p))|
  {
    var a, b := SubKeys(s1, Base(p)), SubKeys(s, Base(p));
    assert a <= b;
    if a != b { SmallerSet(a, b); }
  }

  lemma SmallerSet<T>(a: set<T>, b: set<T>)
    requires a < b
    ensures |a| < |b|
  {
    assert b == a + (b - a);
    assert b - a != {};
  }

  lemma ChildrenKept(s: Server, p: string, list: seq<string>)
    requires Closed(s) && ValidPath(p) && p in s && p != "/"
    requires forall c | c in list :: IsChild(c, p)
    ensures p in Without(s, list, |list|)
  {
    forall j | 0 <= j < |list| ensures !Under(list[j], p) {
      ChildOf(p, list[j]);
      UnderChild(Base(p), list[j][LastSlash(list[j]) + 1..], p);
    }
  }

  lemma UnderViaChild(s: Server, p: string, list: seq<string>, q: string)
    requires Closed(s) && ValidPath(p) && p != "/" && q in s && Below(p, q)
    requires forall c :: c in list <==> c in Children(s, p)
    ensures UnderSome(list, |list|, q)
  {
    KeyOfBase(p);
    BaseStartsWithSlash(p);
    StepExists(s, p, q);
    var c := Child(p, Seg(p, q));
    UnderChild(p, Seg(p, q), q);
    ChildIs(p, Seg(p, q));
    assert c in list;
    var j :| 0 <= j < |list| && list[j] == c;
    assert Under(list[j], q);
  }

  lemma UnderSomeUnder(s: Server, p: string, list: seq<string>, q: string)
    requires ValidPath(p) && p != "/" && UnderSome(list, |list|, q)
    requires forall c | c in list :: IsChild(c, p)
    ensures Below(p, q)
  {
    var j :| 0 <= j < |list| && Under(list[j], q);
    ChildOf(p, list[j]);
    UnderChild(p, list[j][LastSlash(list[j]) + 1..], q);
  }

  /** Removing every child's subtree and then the node removes the node's subtree. */
  lemma RemoveByChildren(s: Server, p: string, list: seq<string>)
    requires Closed(s) && ValidPath(p) && p in s && p != "/"
    requires forall c :: c in list <==> c in Children(s, p)
    ensures Without(s, list, |list|) - {p} == RemoveUnder(s, p)
  {
    KeyOfBase(p);
    forall q | q in s ensures Under(p, q) <==> q == p || UnderSome(list, |list|, q) {
      if Below(p, q) { UnderViaChild(s, p, list, q); }
      if UnderSome(list, |list|, q) { UnderSomeUnder(s, p, list, q); }
    }
  }

  lemma NoChildrenLeft(s: Server, p: string, list: seq<string>)
    requires forall c :: c in list <==> c in Children(s, p)
    ensures Children(Without(s, list, |list|), p) == {}
  {
    forall c | c in Children(s, p) ensures UnderSome(list, |list|, c) {
      var j :| 0 <= j < |list| && list[j] == c;
      KeyOfBase(c);
      assert Under(list[j], c);
    }
  }

  lemma NotEmpty(s: Server, p: string, c: string)
    requires c in s && IsChild(c, p)
    ensures Children(s, p) != {}
  {
    assert c in Children(s, p);
  }

  lemma RemoveLeaf(s: Server, p: string)
    requires Closed(s) && ValidPath(p) && p != "/" && Children(s, p) == {}
    ensures s - {p} == RemoveUnder(s, p)
  {
    KeyOfBase(p);
    BaseStartsWithSlash(p);
    forall q | q in s ensures !Below(p, q) {
      if Below(p, q) {
        StepExists(s, p, q);
        ChildIs(p, Seg(p, q));
        NotEmpty(s, p, Child(p, Seg(p, q)));
      }
    }
  }

  // --------------------------------------------------------- sorted children

  predicate SortedPaths(l: seq<string>) {
    forall i, j | 0 <= i < j < |l| :: Less(l[i], l[j])
  }

  function Insert(l: seq<string>, x: string): seq<string> {
    if l == [] || Less(x, l[0]) then [x] + l else [l[0]] + Insert(l[1..], x)
  }

  lemma {:induction false} InsertSorted(l: seq<string>, x: string)
    requires SortedPaths(l) && x !in l
    ensures SortedPaths(Insert(l, x)) && forall y :: y in Insert(l, x) <==> y == x || y in l
  {
    if l == [] {
    } else if Less(x, l[0]) {
      forall j | 0 <= j < |l| ensures Less(x, l[j]) {
        if j > 0 { LessTrans(x, l[0], l[j]); }
      }
    } else {
      var r := Insert(l[1..], x);
      InsertSorted(l[1..], x);
      LessTotal(x, l[0]);
      forall j | 0 <= j < |r| ensures Less(l[0], r[j]) {
        assert r[j] in r;
        if r[j] != x {
          var i :| 0 <= i < |l[1..]| && l[1..][i] == r[j];
          assert l[i + 1] == r[j];
        }
      }
    }
  }

  method Sort(names: set<string>) returns (l: seq<string>)
    ensures SortedPaths(l) && forall y :: y in l <==> y in names
  {
    l := [];
    var rest := names;
    while rest != {}
      invariant SortedPaths(l) && rest <= names && forall y :: y in l <==> y in names - rest
      decreases |rest|
    {
      var x :| x in rest;
      InsertSorted(l, x);
      l, rest := Insert(l, x), rest - {x};
    }
  }

  lemma RemoveMissing(s: Server, p: string)
    requires Closed(s) && ValidPath(p) && p != "/"
    ensures p !in s ==> RemoveUnder(s, p) == s
  {
    KeyOfBase(p);
    forall q | q in s && Under(p, q) ensures p in s {
      if Below(p, q) { AncestorPresent(s, p, q); }
    }
  }

  lemma {:induction false} AncestorPresent(s: Server, p: string, q: string)
    requires Closed(s) && ValidBase(p) && p != "" && q in s && p + "/" <= q
    ensures p in s
    decreases |q|
  {
    assert Attached(s, q);
    assert |q| > |p|;
    KeyOfBase(p);
    ValidNotSingle(p);
    var i := LastSlash(q);
    var u, n := q[..i], q[i + 1..];
    SplitLast(q);
    assert Below(p, q);
    if u == p {
      assert ParentKey(q) == p;
    } else {
      BelowParent(p, u, n);
      assert ParentKey(q) == u;
      AncestorPresent(s, p, u);
    }
  }

  lemma SetClosed(s: Server, p: string, v: string)
    requires Closed(s) && p in s
    ensures Closed(s[p := v])
  {
    var s1 := s[p := v];
    forall q | q in s1 ensures Attached(s1, q) {
      assert Attached(s, q);
    }
  }

  const MAX_DATA_LENGTH := 128 * 1024

  function ReadLimit(v: string): string {
    if |v| <= MAX_DATA_LENGTH - 1 then v else v[..MAX_DATA_LENGTH - 1]
  }

  function SetData(s: Server, p: string, v: string): Outcome {
    ZkTree.SetNodeData(s, p, v)
  }

  // ------------------------------------------------------------ the adapter

  class ZooKeeperAdapter {
    var nodes: Server

    ghost predicate Valid()
      reads this
    {
      Closed(nodes)
    }

    constructor (s: Server)
      requires Closed(s)
      ensures Valid() && nodes == s
    {
      nodes := s;
    }

    method ZooCreate(path: string, value: string) returns (rc: Rc)
      requires Valid()
      modifies this
      ensures Valid()
      ensures !ValidPath(path) ==> rc == ZBADARGUMENTS
      ensures ValidPath(path) ==>
                rc == if path in old(nodes) then ZNODEEXISTS
                      else if ParentKey(path) !in old(nodes) then ZNONODE else ZOK
      ensures nodes == if rc == ZOK then old(nodes)[path := value] else old(nodes)
    {
      var ok := IsValidPath(path, false);
      if !ok { return ZBADARGUMENTS; }
      if path in nodes { return ZNODEEXISTS; }
      if ParentKey(path) !in nodes { return ZNONODE; }
      CreateLeafClosed(nodes, path, value);
      nodes := nodes[path := value];
      return ZOK;
    }

    /** Persistent nodes only. With createAncestors, missing ancestors are created
        empty, root first, by recursion on each prefix of the path. */
    method CreateNode(path: string, value: string, createAncestors: bool) returns (r: Result<bool>)
      requires Valid()
      modifies this
      ensures Valid()
      ensures r.Exception? <==> !ValidPath(path) ||
                                (path !in old(nodes) && !createAncestors && ParentKey(path) !in old(nodes))
      ensures r.Returned? ==> (r.value <==> path !in old(nodes))
      ensures nodes == if r == Returned(true) then CreateDeep(old(nodes), path, value) else old(nodes)
      decreases |path|, if createAncestors then 2 else 0
    {
      ghost var s0 := nodes;
      var rc := ZooCreate(path, value);
      if rc != ZOK {
        if rc == ZNODEEXISTS { return Returned(false); }
        if rc == ZNONODE && createAncestors {
          r := CreateFromRoot(path, value);
          return;
        }
        return Exception;
      }
      CreateShallow(s0, path, value);
      return Returned(true);
    }

    /** The part of CreateNode that runs when an ancestor is missing. */
    method CreateFromRoot(path: string, value: string) returns (r: Result<bool>)
      requires Valid() && ValidPath(path) && path !in nodes
      modifies this
      ensures Valid() && r == Returned(true) && nodes == CreateDeep(old(nodes), path, value)
      decreases |path|, 1, 1
    {
      ghost var s0 := nodes;
      var pos := 1;
      AddNone(s0, Ancestors(path, 1));
      while true
        invariant 1 <= pos <= |path| && Valid() && nodes == AddMissing(s0, Ancestors(path, pos))
        decreases |path| - pos
      {
        var next := FindSlash(path, pos);
        AncestorsUpTo(path, pos, next);
        if next < |path| {
          var threw := CreateAncestor(path, next, s0);
          if threw { return Exception; }
          pos := next + 1;
        } else {
          r := CreateLeaf(path, value, s0);
          return;
        }
      }
    }

    /** All ancestors are there: the path itself follows. */
    method CreateLeaf(path: string, value: string, ghost s0: Server) returns (r: Result<bool>)
      requires Valid() && ValidPath(path) && path !in s0 && Closed(s0)
      requires nodes == AddMissing(s0, Ancestors(path, |path|))
      modifies this
      ensures Valid() && r == Returned(true) && nodes == CreateDeep(s0, path, value)
      decreases |path|, 1, 0
    {
      CreateLast(s0, path, value, nodes);
      r := CreateNode(path, value, false);
    }

    method CreateAncestor(path: string, next: nat, ghost s0: Server) returns (threw: bool)
      requires Valid() && ValidPath(path) && 1 <= next < |path| && path[next] == '/' && "/" in s0
      requires nodes == AddMissing(s0, Ancestors(path, next))
      modifies this
      ensures Valid() && !threw && nodes == AddMissing(s0, Ancestors(path, next + 1))
      decreases |path|, 1, 0
    {
      AncestorStep(s0, path, next, nodes);
      var r := CreateNode(path[..next], "", true);
      threw := r.Exception?;
    }

    method ZooDelete(path: string) returns (rc: Rc)
      requires Valid()
      modifies this
      ensures Valid()
      ensures rc == if !ValidPath(path) then ZBADARGUMENTS
                    else if path !in old(nodes) then ZNONODE
                    else if path == "/" then ZBADARGUMENTS
                    else if Children(old(nodes), path) != {} then ZNOTEMPTY
                    else ZOK
      ensures nodes == if rc == ZOK then RemoveUnder(old(nodes), path) else old(nodes)
    {
      var ok := IsValidPath(path, false);
      if !ok { return ZBADARGUMENTS; }
      if path !in nodes { return ZNONODE; }
      if path == "/" { return ZBADARGUMENTS; }
      if Children(nodes, path) != {} { return ZNOTEMPTY; }
      RemoveLeaf(nodes, path);
      RemoveUnderClosed(nodes, path);
      nodes := nodes - {path};
      return ZOK;
    }

    /** Absolute paths of the children, in order. */
    method GetNodeChildren(path: string) returns (r: Result<seq<string>>)
      requires Valid()
      ensures r.Exception? <==> !ValidPath(path) || path !in nodes
      ensures r.Returned? ==> SortedPaths(r.value) && forall c :: c in r.value <==> c in Children(nodes, path)
    {
      var ok := IsValidPath(path, false);
      if !ok || path !in nodes { return Exception; }
      var l := Sort(Children(nodes, path));
      return Returned(l);
    }

    /** Deletion; if asked to recurse, children first, each with its whole subtree,
        when the server reports that the node is not empty. */
    method DeleteNode(path: string, recursive: bool) returns (r: Result<bool>)
      requires Valid()
      modifies this
      ensures Valid()
      ensures r.Exception? <==> !ValidPath(path) || path == "/" ||
                                (!recursive && path in old(nodes) && Children(old(nodes), path) != {})
      ensures r.Returned? ==> (r.value <==> path in old(nodes))
      ensures nodes == if r == Returned(true) then RemoveUnder(old(nodes), path) else old(nodes)
      decreases |SubKeys(nodes, Base(path))|, if recursive then 1 else 0
    {
      ghost var s0 := nodes;
      assert path == "/" ==> path in s0;
      var rc := ZooDelete(path);
      if rc != ZOK {
        if rc == ZNONODE { return Returned(false); }
        if rc == ZNOTEMPTY && recursive {
          var list := GetNodeChildren(path);
          if list.Exception? { return Exception; }
          DeleteChildren(path, list.value);
          RemoveByChildren(s0, path, list.value);
          NoChildrenLeft(s0, path, list.value);
          ChildrenKept(s0, path, list.value);
          RemoveLeaf(nodes, path);
          SubKeysLess(s0, nodes, path);
          r := DeleteNode(path, false);
          return;
        }
        return Exception;
      }
      return Returned(true);
    }

    /** The loop of DeleteNode over the children. */
    method DeleteChildren(path: string, list: seq<string>)
      requires Valid() && ValidPath(path) && path in nodes && path != "/"
      requires forall c | c in list :: IsChild(c, path)
      modifies this
      ensures Valid() && nodes == Without(old(nodes), list, |list|)
      decreases |SubKeys(nodes, Base(path))|, 0
    {
      ghost var s0 := nodes;
      assert Without(s0, list, 0) == s0;
      for i := 0 to |list|
        invariant Valid() && nodes == Without(s0, list, i)
      {
        SubKeysShrink(s0, nodes, path, list[i]);
        RemoveMissing(nodes, list[i]);
        WithoutStep(s0, list, i);
        assert Base(list[i]) == list[i];
        var r := DeleteNode(list[i], true);
      }
    }

    method NodeExists(path: string) returns (r: Result<bool>)
      ensures r == if ValidPath(path) then Returned(path in nodes) else Exception
    {
      var ok := IsValidPath(path, false);
      return if ok then Returned(path in nodes) else Exception;
    }

    /** Reads at most the size of the buffer less one. */
    method GetNodeData(path: string) returns (r: Result<string>)
      ensures r == if ValidPath(path) && path in nodes then Returned(ReadLimit(nodes[path])) else Exception
      ensures r.Returned? ==> r.value <= nodes[path]
      ensures r.Returned? ==> |r.value| == if |nodes[path]| < 131072 then |nodes[path]| else 131071
    {
      var ok := IsValidPath(path, false);
      if !ok || path !in nodes { return Exception; }
      return Returned(ReadLimit(nodes[path]));
    }

    method SetNodeData(path: string, value: string) returns (r: Result<()>)
      requires Valid()
      modifies this
      ensures Valid()
      ensures r.Exception? <==> SetData(old(nodes), path, value).Threw?
      ensures nodes == SetData(old(nodes), path, value).s
    {
      var ok := IsValidPath(path, false);
      if !ok || path !in nodes { return Exception; }
      SetClosed(nodes, path, value);
      nodes := nodes[path := value];
      return Returned(());
    }

    static method FindSlash(path: string, pos: nat) returns (i: nat)
      requires pos <= |path|
      ensures pos <= i <= |path| && (i < |path| ==> path[i] == '/') && forall k | pos <= k < i :: path[k] != '/'
    {
      i := pos;
      while i < |path| && path[i] != '/'
        invariant pos <= i <= |path| && forall k | pos <= k < i :: path[k] != '/'
      {
        i := i + 1;
      }
    }
  }
}
