/** In-memory znode trees, the server's data tree seen as a map from paths to
    values, and the actions by which zktreeutil changes the server. */
module ZkTree {
  import opened Prelude
  import opened ZkPath

  /** A node of a saved or loaded tree. Only a tree read from XML carries set
      ignore flags. */
  datatype Node = Node(name: string, value: string, ignore: bool, kids: seq<Node>)

  type Server = map<string, string>

  function Get(s: Server, q: string): Option<string> {
    if q in s then Some(s[q]) else None
  }

  function Find(kids: seq<Node>, x: string): (r: Option<Node>)
    ensures r.Some? ==> r.value in kids && r.value.name == x
    ensures r.None? ==> forall k | k in kids :: k.name != x
  {
    if kids == [] then None
    else if kids[0].name == x then Some(kids[0])
    else Find(kids[1..], x)
  }

  predicate Distinct(kids: seq<Node>) {
    forall i, j | 0 <= i < j < |kids| :: kids[i].name != kids[j].name
  }

  /** Sibling names are distinct and every name is a valid path component. */
  predicate WF(t: Node) {
    Distinct(t.kids) && forall k | k in t.kids :: ValidName(k.name) && WF(k)
  }

  predicate WFKids(kids: seq<Node>) {
    Distinct(kids) && forall k | k in kids :: ValidName(k.name) && WF(k)
  }

  function Size(t: Node): nat {
    1 + SizeAll(t.kids)
  }

  function SizeAll(kids: seq<Node>): nat {
    if kids == [] then 0 else Size(kids[0]) + SizeAll(kids[1..])
  }

  /** The value that tree t, hung at base b, gives to path q. */
  function At(b: string, t: Node, q: string): Option<string>
    decreases t
  {
    if q == Key(b) then Some(t.value)
    else if !Below(b, q) then None
    else
      var k := Find(t.kids, Seg(b, q));
      if k.None? then None else At(Child(b, Seg(b, q)), k.value, q)
  }

  /** The same for a list of children, without their parent. */
  function KidsAt(b: string, kids: seq<Node>, q: string): Option<string> {
    if !Below(b, q) then None
    else
      var k := Find(kids, Seg(b, q));
      if k.None? then None else At(Child(b, Seg(b, q)), k.value, q)
  }

  /** The part of the server at and below base b is exactly tree t. */
  ghost predicate Holds(s: Server, b: string, t: Node) {
    forall q | Under(b, q) :: Get(s, q) == At(b, t, q)
  }

  /** Two trees hung at b look the same to the server. */
  ghost predicate Same(b: string, t1: Node, t2: Node) {
    forall q | Under(b, q) :: At(b, t1, q) == At(b, t2, q)
  }

  lemma AtChild(b: string, t: Node, k: Node, q: string)
    requires WF(t) && k in t.kids && Under(Child(b, k.name), q)
    ensures At(b, t, q) == At(Child(b, k.name), k, q)
  {
    UnderChild(b, k.name, q);
    FindMember(t.kids, k);
  }

  lemma {:induction false} FindMember(kids: seq<Node>, k: Node)
    requires Distinct(kids) && k in kids
    ensures Find(kids, k.name) == Some(k)
  {
    if kids[0] != k {
      var i :| 0 <= i < |kids| && kids[i] == k;
      assert kids[1..][i - 1] == k;
      FindMember(kids[1..], k);
    }
  }

  lemma SameChild(b: string, t1: Node, t2: Node, k1: Node, k2: Node)
    requires WF(t1) && WF(t2) && Same(b, t1, t2)
    requires k1 in t1.kids && k2 in t2.kids && k1.name == k2.name
    ensures Same(Child(b, k1.name), k1, k2)
  {
    forall q | Under(Child(b, k1.name), q)
      ensures At(Child(b, k1.name), k1, q) == At(Child(b, k1.name), k2, q)
    {
      AtChild(b, t1, k1, q);
      AtChild(b, t2, k2, q);
      UnderChild(b, k1.name, q);
    }
  }

  /** Trees that look the same have children of the same names. */
  lemma SameNames(b: string, t1: Node, t2: Node, x: string)
    requires WF(t1) && WF(t2) && Same(b, t1, t2)
    ensures Find(t1.kids, x).Some? <==> Find(t2.kids, x).Some?
  {
    if Find(t1.kids, x).Some? { SameNamesOneWay(b, t1, t2, x); }
    if Find(t2.kids, x).Some? { SameNamesOneWay(b, t2, t1, x); }
  }

  lemma SameNamesOneWay(b: string, t1: Node, t2: Node, x: string)
    requires WF(t1) && Find(t1.kids, x).Some?
    requires forall q | Under(b, q) :: At(b, t1, q) == At(b, t2, q)
    ensures Find(t2.kids, x).Some?
  {
    var k := Find(t1.kids, x).value;
    ChildBelow(b, x);
    assert At(b, t1, Child(b, x)).Some?;
    assert Under(b, Child(b, x));
  }

  // ------------------------------------------------------------- actions

  datatype Action =
    | Create(key: string)
    | Delete(key: string)
    | Value(key: string, newval: string, oldval: string)

  /** How a call ended: normally, or by an exception, with the server as it is then. */
  datatype Outcome = Done(s: Server) | Threw(s: Server)

  function ParentKey(p: string): string
    requires ValidBase(p) && p != ""
  {
    Key(p[..LastSlash(p)])
  }

  /** Creation without ancestors; an existing node is left alone. */
  function CreateNode(s: Server, p: string): Outcome {
    if !ValidPath(p) then Threw(s)
    else if p in s then Done(s)
    else if p == "/" || ParentKey(p) !in s then Threw(s)
    else Done(s[p := ""])
  }

  function RemoveUnder(s: Server, b: string): Server {
    map q | q in s && !Under(b, q) :: s[q]
  }

  /** Recursive deletion; a missing node is not an error. The root cannot go. */
  function DeleteNode(s: Server, p: string): Outcome {
    if !ValidPath(p) || p == "/" then Threw(s)
    else Done(RemoveUnder(s, p))
  }

  function SetNodeData(s: Server, p: string, v: string): Outcome {
    if !ValidPath(p) || p !in s then Threw(s) else Done(s[p := v])
  }

  function ExecOne(a: Action, s: Server): Outcome {
    match a
    case Create(p) => CreateNode(s, p)
    case Delete(p) => DeleteNode(s, p)
    case Value(p, v, _) => SetNodeData(s, p, v)
  }

  /** Actions in order, up to the first exception. */
  function Exec(acts: seq<Action>, s: Server): Outcome {
    if acts == [] then Done(s)
    else
      var r := ExecOne(acts[0], s);
      if r.Threw? then r else Exec(acts[1..], r.s)
  }

  lemma {:induction false} ExecConcat(a: seq<Action>, b: seq<Action>, s: Server)
    ensures Exec(a + b, s) == if Exec(a, s).Done? then Exec(b, Exec(a, s).s) else Exec(a, s)
  {
    if a == [] {
      assert a + b == b;
    } else {
      assert (a + b)[1..] == a[1..] + b;
      var r := ExecOne(a[0], s);
      if r.Done? { ExecConcat(a[1..], b, r.s); }
    }
  }

  // --------------------------------------- name-indexed maps in key order

  /** Lexicographic order of strings. */
  predicate Less(a: string, b: string) {
    if b == "" then false
    else if a == "" then true
    else a[0] < b[0] || (a[0] == b[0] && Less(a[1..], b[1..]))
  }

  /** The order of the library: a proper beginning comes first, otherwise the first
      character that differs decides. */
  lemma {:induction false} LessIff(a: string, b: string)
    ensures Less(a, b) <==>
            exists i: nat :: i <= |a| && i < |b| && a[..i] == b[..i] && (i == |a| || a[i] < b[i])
  {
    if Less(a, b) { var i := LessAt(a, b); }
    forall i: nat | i <= |a| && i < |b| && a[..i] == b[..i] && (i == |a| || a[i] < b[i]) ensures Less(a, b) {
      LessFrom(a, b, i);
    }
  }

  lemma {:induction false} LessAt(a: string, b: string) returns (i: nat)
    requires Less(a, b)
    ensures i <= |a| && i < |b| && a[..i] == b[..i] && (i == |a| || a[i] < b[i])
  {
    i := 0;
    if a != "" && a[0] == b[0] {
      var j := LessAt(a[1..], b[1..]);
      i := j + 1;
      assert a[..i] == [a[0]] + a[1..][..j] && b[..i] == [b[0]] + b[1..][..j];
    }
  }

  lemma {:induction false} LessFrom(a: string, b: string, i: nat)
    requires i <= |a| && i < |b| && a[..i] == b[..i] && (i == |a| || a[i] < b[i])
    ensures Less(a, b)
  {
    if i > 0 {
      assert a[0] == a[..i][0] && b[0] == b[..i][0];
      assert a[1..][..i - 1] == a[..i][1..] && b[1..][..i - 1] == b[..i][1..];
      LessFrom(a[1..], b[1..], i - 1);
    }
  }

  lemma {:induction false} LessTrans(a: string, b: string, c: string)
    requires Less(a, b) && Less(b, c)
    ensures Less(a, c)
  {
    if a != "" && a[0] == b[0] && b[0] == c[0] {
      LessTrans(a[1..], b[1..], c[1..]);
    }
  }

  lemma {:induction false} LessTotal(a: string, b: string)
    ensures Less(a, b) || Less(b, a) || a == b
    ensures !(Less(a, b) && Less(b, a))
  {
    if a != "" && b != "" {
      LessTotal(a[1..], b[1..]);
      assert a == [a[0]] + a[1..] && b == [b[0]] + b[1..];
    }
  }

  predicate Sorted(m: seq<Node>) {
    forall i, j | 0 <= i < j < |m| :: Less(m[i].name, m[j].name)
  }

  /** m[k.name] = k, for a map kept as a list in key order. */
  function Put(m: seq<Node>, k: Node): seq<Node> {
    if m == [] || Less(k.name, m[0].name) then [k] + m
    else if m[0].name == k.name then [k] + m[1..]
    else [m[0]] + Put(m[1..], k)
  }

  function MapOf(kids: seq<Node>): seq<Node> {
    if kids == [] then [] else Put(MapOf(kids[..|kids| - 1]), kids[|kids| - 1])
  }

  function Erase(m: seq<Node>, x: string): seq<Node> {
    if m == [] then []
    else if m[0].name == x then m[1..]
    else [m[0]] + Erase(m[1..], x)
  }

  lemma SortedDistinct(m: seq<Node>)
    requires Sorted(m)
    ensures Distinct(m)
  {
    forall i, j | 0 <= i < j < |m| ensures m[i].name != m[j].name {
      LessTotal(m[i].name, m[j].name);
    }
  }

  lemma {:induction false} PutMembers(m: seq<Node>, k: Node)
    ensures forall n | n in Put(m, k) :: n == k || n in m
  {
    if m != [] && !Less(k.name, m[0].name) && m[0].name != k.name {
      PutMembers(m[1..], k);
    }
  }

  lemma {:induction false} PutSorted(m: seq<Node>, k: Node)
    requires Sorted(m)
    ensures Sorted(Put(m, k))
  {
    if m == [] {
    } else if Less(k.name, m[0].name) {
      forall j | 0 <= j < |m| ensures Less(k.name, m[j].name) {
        if j > 0 { LessTrans(k.name, m[0].name, m[j].name); }
      }
    } else if m[0].name != k.name {
      var r := Put(m[1..], k);
      PutSorted(m[1..], k);
      PutMembers(m[1..], k);
      LessTotal(m[0].name, k.name);
      forall j | 0 <= j < |r| ensures Less(m[0].name, r[j].name) {
        assert r[j] in r;
        if r[j] != k {
          var i :| 0 <= i < |m[1..]| && m[1..][i] == r[j];
          assert m[i + 1] == r[j];
        }
      }
    }
  }

  lemma {:induction false} FindPut(m: seq<Node>, k: Node, x: string)
    ensures Find(Put(m, k), x) == if x == k.name then Some(k) else Find(m, x)
  {
    if m == [] || Less(k.name, m[0].name) {
      assert ([k] + m)[1..] == m;
    } else if m[0].name == k.name {
      assert ([k] + m[1..])[1..] == m[1..];
    } else {
      FindPut(m[1..], k, x);
      assert ([m[0]] + Put(m[1..], k))[1..] == Put(m[1..], k);
    }
  }

  lemma {:induction false} FindSnoc(kids: seq<Node>, k: Node, x: string)
    ensures Find(kids + [k], x) ==
            if Find(kids, x).Some? then Find(kids, x) else if k.name == x then Some(k) else None
  {
    if kids != [] {
      assert (kids + [k])[1..] == kids[1..] + [k];
      FindSnoc(kids[1..], k, x);
    }
  }

  lemma {:induction false} FindMapOf(kids: seq<Node>, x: string)
    requires Distinct(kids)
    ensures Find(MapOf(kids), x) == Find(kids, x)
  {
    if kids != [] {
      var init, k := kids[..|kids| - 1], kids[|kids| - 1];
      assert kids == init + [k];
      FindMapOf(init, x);
      FindPut(MapOf(init), k, x);
      FindSnoc(init, k, x);
      if Find(init, x).Some? {
        var i :| 0 <= i < |init| && init[i] == Find(init, x).value;
        assert kids[i].name != kids[|kids| - 1].name;
      }
    }
  }

  lemma {:induction false} MapOfSorted(kids: seq<Node>)
    ensures Sorted(MapOf(kids))
    ensures forall n | n in MapOf(kids) :: n in kids
  {
    if kids != [] {
      var init, k := kids[..|kids| - 1], kids[|kids| - 1];
      MapOfSorted(init);
      PutSorted(MapOf(init), k);
      PutMembers(MapOf(init), k);
    }
  }

  lemma MapOfWF(kids: seq<Node>)
    requires WFKids(kids)
    ensures WFKids(MapOf(kids))
  {
    MapOfSorted(kids);
    SortedDistinct(MapOf(kids));
  }

  lemma DistinctTail(m: seq<Node>)
    requires Distinct(m) && m != []
    ensures Distinct(m[1..]) && Find(m[1..], m[0].name) == None
  {
    forall i, j | 0 <= i < j < |m[1..]| ensures m[1..][i].name != m[1..][j].name {
      assert m[i + 1].name != m[j + 1].name;
    }
    assert forall n | n in m[1..] :: n.name != m[0].name;
  }

  lemma {:induction false} EraseSpec(m: seq<Node>, x: string)
    requires Distinct(m)
    ensures Distinct(Erase(m, x))
    ensures forall n | n in Erase(m, x) :: n in m
    ensures forall y :: Find(Erase(m, x), y) == if y == x then None else Find(m, y)
  {
    if m != [] {
      DistinctTail(m);
      if m[0].name != x {
        var r := Erase(m[1..], x);
        EraseSpec(m[1..], x);
        assert ([m[0]] + r)[1..] == r;
        forall j | 0 <= j < |r| ensures m[0].name != r[j].name {
          assert r[j] in m[1..];
        }
      }
    }
  }
}
