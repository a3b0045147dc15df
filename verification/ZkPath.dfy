/** ZooKeeper paths: what a valid path is, and the containment order that a tree of
    znodes induces on path strings.

    A path other than the root is written as a chain of components. The root "/"
    has the empty string as its base, so that a child of any node is its base
    followed by a slash and a name. */
module ZkPath {
  import opened Prelude

  /** No character in the range 0x01-0x1e. (A C string holds no NUL.) */
  predicate ControlFree(s: string) {
    forall c | c in s :: '\U{1f}' <= c
  }

  predicate ValidName(n: string) {
    n != "" && n != "." && n != ".." && SlashFree(n) && ControlFree(n)
  }

  /** Index of the last slash, or -1. */
  function LastSlash(s: string): (i: int)
    ensures -1 <= i < |s|
    ensures i >= 0 ==> s[i] == '/'
    ensures forall k :: i < k < |s| ==> s[k] != '/'
  {
    if s == "" then -1
    else if s[|s| - 1] == '/' then |s| - 1
    else LastSlash(s[..|s| - 1])
  }

  /** A possibly empty concatenation of "/" + name. */
  predicate ValidBase(b: string)
    decreases |b|
  {
    b == "" ||
    var i := LastSlash(b);
    i >= 0 && ValidName(b[i + 1..]) && ValidBase(b[..i])
  }

  predicate ValidPath(p: string) {
    p == "/" || (p != "" && ValidBase(p))
  }

  lemma SlashFreeFrom(s: string, i: int)
    requires 0 <= i <= |s|
    ensures SlashFree(s[i..]) <==> forall k :: i <= k < |s| ==> s[k] != '/'
  {
    assert forall k :: i <= k < |s| ==> s[k] == s[i..][k - i];
  }

  lemma LastSlashUnique(s: string, i: int)
    requires 0 <= i < |s| && s[i] == '/' && SlashFree(s[i + 1..])
    ensures LastSlash(s) == i
  {
    SlashFreeFrom(s, i + 1);
  }

  lemma ValidBaseStep(b: string, i: int)
    requires 0 <= i < |b| && b[i] == '/' && SlashFree(b[i + 1..])
    ensures ValidBase(b) <==> ValidName(b[i + 1..]) && ValidBase(b[..i])
  {
    LastSlashUnique(b, i);
  }

  lemma ConcatSlices(a: string, b: string, k: int)
    requires 0 <= k <= |b|
    ensures (a + b)[|a| + k..] == b[k..]
    ensures (a + b)[..|a| + k] == a + b[..k]
  {
  }

  lemma {:induction false} ValidBaseCut(b: string, k: int)
    requires ValidBase(b) && 0 <= k < |b| && b[k] == '/'
    ensures ValidBase(b[..k])
    decreases |b|
  {
    var i := LastSlash(b);
    if k < i {
      assert b[..i][k] == '/' && b[..i][..k] == b[..k];
      ValidBaseCut(b[..i], k);
    }
  }

  lemma {:induction false} BaseStartsWithSlash(b: string)
    requires ValidBase(b)
    ensures b != "" ==> b[0] == '/'
    decreases |b|
  {
    if b != "" { BaseStartsWithSlash(b[..LastSlash(b)]); }
  }

  lemma ValidNotSingle(p: string)
    requires ValidBase(p) && p != ""
    ensures |p| >= 2
  {
    var n := p[LastSlash(p) + 1..];
    assert ValidName(n) && n != "";
  }

  // ----------------------------------------------------- containment of paths

  function Key(b: string): string {
    if b == "" then "/" else b
  }

  function Base(p: string): string {
    if p == "/" then "" else p
  }

  function Child(b: string, n: string): string {
    b + "/" + n
  }

  /** The node at base b and everything below it. */
  predicate Under(b: string, q: string) {
    q == Key(b) || b + "/" <= q
  }

  predicate Below(b: string, q: string) {
    Under(b, q) && q != Key(b)
  }

  function Upto(s: string): (r: string)
    ensures SlashFree(r) && r <= s
    ensures |r| < |s| ==> s[|r|] == '/'
  {
    if s == "" || s[0] == '/' then "" else [s[0]] + Upto(s[1..])
  }

  lemma UptoUnique(s: string, n: string)
    requires SlashFree(n) && n <= s && (|n| < |s| ==> s[|n|] == '/')
    ensures Upto(s) == n
  {
    SlashFreeFrom(n, 0);
    SlashFreeFrom(Upto(s), 0);
    assert n[0..] == n && Upto(s)[0..] == Upto(s);
  }

  /** The component of q that follows base b. */
  function Seg(b: string, q: string): string
    requires Below(b, q)
  {
    Upto(q[|b| + 1..])
  }

  lemma UnderChildSeg(b: string, n: string, q: string)
    requires SlashFree(n) && n != "" && Under(Child(b, n), q)
    ensures Below(b, q) && Seg(b, q) == n
  {
    var c := Child(b, n);
    assert |c| == |b| + 1 + |n| && c <= q && b + "/" <= q;
    var s := q[|b| + 1..];
    assert s[..|n|] == n by { assert q[..|c|] == c; }
    assert |n| < |s| ==> s[|n|] == q[|c|];
    UptoUnique(s, n);
  }

  lemma SegUnderChild(b: string, n: string, q: string)
    requires n != "" && Below(b, q) && Seg(b, q) == n
    ensures Under(Child(b, n), q)
  {
    var c, s := Child(b, n), q[|b| + 1..];
    assert n <= s && |c| == |b| + 1 + |n|;
    assert q[..|c|] == c by {
      forall k | 0 <= k < |c| ensures q[k] == c[k] {
        if k > |b| { assert s[k - |b| - 1] == q[k] && n[k - |b| - 1] == c[k]; }
      }
    }
    if |n| < |s| {
      assert q[|c|] == s[|n|] == '/';
      assert q[..|c| + 1] == q[..|c|] + ['/'];
    } else {
      assert q == q[..|c|];
    }
  }

  lemma UnderChild(b: string, n: string, q: string)
    requires SlashFree(n) && n != ""
    ensures Under(Child(b, n), q) <==> Below(b, q) && Seg(b, q) == n
  {
    if Under(Child(b, n), q) { UnderChildSeg(b, n, q); }
    if Below(b, q) && Seg(b, q) == n { SegUnderChild(b, n, q); }
  }

  lemma ChildParts(b: string, n: string)
    requires SlashFree(n)
    ensures LastSlash(Child(b, n)) == |b|
    ensures Child(b, n)[..|b|] == b && Child(b, n)[|b| + 1..] == n
  {
    var c := Child(b, n);
    assert c[|b| + 1..] == n && c[..|b|] == b;
    LastSlashUnique(c, |b|);
  }

  lemma ChildValid(b: string, n: string)
    requires ValidBase(b) && ValidName(n)
    ensures ValidBase(Child(b, n)) && ValidPath(Child(b, n))
    ensures Key(Child(b, n)) == Child(b, n)
  {
    ChildParts(b, n);
    ValidBaseStep(Child(b, n), |b|);
  }

  lemma ChildBelow(b: string, n: string)
    requires SlashFree(n) && n != ""
    ensures Child(b, n) != "/" && Child(b, n) != Key(b) && Key(Child(b, n)) == Child(b, n)
    ensures Below(b, Child(b, n)) && Seg(b, Child(b, n)) == n
  {
    assert |Child(b, n)| >= |b| + 2;
    UnderChild(b, n, Child(b, n));
  }

  lemma BelowParent(b: string, u: string, n: string)
    requires SlashFree(n) && Below(b, Child(u, n)) && u != b
    ensures b + "/" <= u
  {
    var q := Child(u, n);
    SlashFreeFrom(q, |u| + 1);
    assert q[|u| + 1..] == n;
    assert b + "/" <= q && q[|b|] == '/';
    assert q[..|b| + 1] == b + "/" && q[..|b|] == b && q[..|u|] == u;
    assert |b| < |u|;
    assert u[..|b| + 1] == q[..|b| + 1];
  }
}
