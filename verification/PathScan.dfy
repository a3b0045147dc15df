/** The check of a path that the C client makes before every request. */
module PathScan {
  import opened Prelude
  import opened ZkPath

  /** What the server may complete with a sequence number: the last component is
      only a prefix, so it may be empty or consist of dots. */
  predicate ValidSequencePrefix(p: string) {
    var i := LastSlash(p);
    i >= 0 && ValidBase(p[..i]) && ControlFree(p[i + 1..])
  }

  predicate Acceptable(p: string, sequence: bool) {
    if sequence then ValidSequencePrefix(p) else ValidPath(p)
  }

  lemma {:induction false} ValidBaseControlFree(b: string)
    requires ValidBase(b)
    ensures ControlFree(b)
    decreases |b|
  {
    if b != "" {
      var i := LastSlash(b);
      ValidBaseControlFree(b[..i]);
      assert b == b[..i] + ['/'] + b[i + 1..];
    }
  }

  lemma AcceptableCut(p: string, sequence: bool, k: int)
    requires Acceptable(p, sequence) && 0 <= k < |p| && p[k] == '/'
    ensures ValidBase(p[..k])
  {
    if !sequence {
      if p != "/" { ValidBaseCut(p, k); }
    } else {
      var i := LastSlash(p);
      if k < i {
        assert p[..i][k] == '/' && p[..i][..k] == p[..k];
        ValidBaseCut(p[..i], k);
      }
    }
  }

  lemma AcceptableControlFree(p: string, sequence: bool)
    requires Acceptable(p, sequence)
    ensures ControlFree(p)
  {
    if sequence {
      var i := LastSlash(p);
      ValidBaseControlFree(p[..i]);
      assert p == p[..i] + ['/'] + p[i + 1..];
    } else if p != "/" {
      ValidBaseControlFree(p);
    }
  }

  predicate Dots(n: string) {
    n == "." || n == ".."
  }

  /** A path with a component that is empty, "." or ".." is not acceptable, unless
      that component is the last one and a sequence number will follow. */
  lemma BadComponent(p: string, sequence: bool, j: int, k: int)
    requires 0 <= j < k <= |p| && p[j] == '/' && p != "/"
    requires k == j + 1 || Dots(p[j + 1..k])
    requires if k == |p| then !sequence else p[k] == '/'
    ensures !Acceptable(p, sequence)
  {
    if Acceptable(p, sequence) {
      if k < |p| { AcceptableCut(p, sequence, k); }
      assert k == |p| ==> p[..k] == p;
      assert p[..k][j + 1..] == p[j + 1..k];
      LastSlashUnique(p[..k], j);
    }
  }

  /** What the scan knows after i characters: the current component opens after the
      slash at j, everything before it is valid, and if the component is "." or ".."
      then it was seen not to end here. */
  ghost predicate Scanned(p: string, sequence: bool, j: int, i: int) {
    && 0 <= j < i <= |p| && p[j] == '/'
    && (forall k :: j < k < i ==> p[k] != '/' && '\U{1f}' <= p[k])
    && ValidBase(p[..j])
    && (Dots(p[j + 1..i]) ==> !EndsAt(p, sequence, i))
  }

  predicate EndsAt(p: string, sequence: bool, i: nat) {
    if i < |p| then p[i] == '/' else !sequence
  }

  lemma ComponentShape(p: string, sequence: bool, j: int, i: int)
    requires Scanned(p, sequence, j, i)
    ensures SlashFree(p[j + 1..i]) && ControlFree(p[j + 1..i])
    ensures p[i - 1] == '/' ==> j == i - 1
    ensures i >= 2 && p[i - 2] == '/' && p[i - 1] != '/' ==> j == i - 2
  {
  }

  /** A slash closes a valid component. */
  lemma ScanSlash(p: string, sequence: bool, j: int, i: int)
    requires Scanned(p, sequence, j, i) && i < |p| && p[i] == '/' && p[i - 1] != '/'
    ensures Scanned(p, sequence, i, i + 1)
  {
    ComponentShape(p, sequence, j, i);
    assert p[..i][j + 1..] == p[j + 1..i] && p[..i][..j] == p[..j];
    assert p[j + 1..i] != "";
    ValidBaseStep(p[..i], j);
    assert p[i + 1..i + 1] == "";
  }

  /** Any other character extends the component; a dot that completes "." or ".."
      is admitted only if the component does not end there. */
  lemma ScanChar(p: string, sequence: bool, j: int, i: int)
    requires Scanned(p, sequence, j, i) && i < |p| && p[i] != '/' && '\U{1f}' <= p[i]
    requires p[i] == '.' && p[i - 1] == '/' ==> !EndsAt(p, sequence, i + 1)
    requires p[i] == '.' && p[i - 1] == '.' && p[i - 2] == '/' ==> !EndsAt(p, sequence, i + 1)
    ensures Scanned(p, sequence, j, i + 1)
  {
    var c := p[j + 1..i + 1];
    if Dots(c) {
      assert c[|c| - 1] == p[i];
      if c == "." { assert i == j + 1; } else { assert i == j + 2 && c[0] == p[j + 1]; }
    }
  }

  lemma ScanDone(p: string, sequence: bool, j: int)
    requires Scanned(p, sequence, j, |p|) && (!sequence ==> p[|p| - 1] != '/')
    ensures Acceptable(p, sequence)
  {
    ComponentShape(p, sequence, j, |p|);
    assert p[j + 1..|p|] == p[j + 1..];
    LastSlashUnique(p, j);
    if !sequence {
      ValidBaseStep(p, j);
    }
  }

  lemma ScanRejectDots(p: string, sequence: bool, j: int, i: int)
    requires Scanned(p, sequence, j, i) && i < |p| && p[i] == '.' && EndsAt(p, sequence, i + 1)
    requires p[i - 1] == '/' || (p[i - 1] == '.' && p[i - 2] == '/')
    ensures !Acceptable(p, sequence)
  {
    var c := p[j + 1..i + 1];
    ComponentShape(p, sequence, j, i);
    assert c == "." || c == "..";
    BadComponent(p, sequence, j, i + 1);
  }

  /** The scanning loop of the C client: an index, the previous character, and one
      character of look-ahead (the terminating NUL is not a slash). */
  method IsValidPath(path: string, sequence: bool) returns (valid: bool)
    ensures valid <==> Acceptable(path, sequence)
  {
    if |path| == 0 { return false; }
    if path[0] != '/' {
      if Acceptable(path, sequence) { FirstIsSlash(path, sequence); }
      return false;
    }
    if |path| == 1 {
      assert path == "/" && LastSlash(path) == 0;
      return true;
    }
    if path[|path| - 1] == '/' && !sequence {
      BadComponent(path, sequence, |path| - 1, |path|);
      return false;
    }
    var i, lastc := 1, '/';
    ghost var j := 0;
    assert path[1..1] == "" && path[..0] == "";
    while i < |path|
      invariant Scanned(path, sequence, j, i)
      invariant lastc == path[i - 1]
    {
      var c := path[i];
      if c == '\0' {
        RejectControl(path, sequence, i);
        return false;
      } else if c == '/' && lastc == '/' {
        BadComponent(path, sequence, i - 1, i);
        return false;
      } else if c == '.' && lastc == '.' {
        if path[i - 2] == '/' &&
           ((i + 1 == |path| && !sequence) || (i + 1 < |path| && path[i + 1] == '/')) {
          ScanRejectDots(path, sequence, j, i);
          return false;
        }
      } else if c == '.' {
        if path[i - 1] == '/' &&
           ((i + 1 == |path| && !sequence) || (i + 1 < |path| && path[i + 1] == '/')) {
          ScanRejectDots(path, sequence, j, i);
          return false;
        }
      } else if '\0' < c < '\U{1f}' {
        RejectControl(path, sequence, i);
        return false;
      }
      if c == '/' {
        ScanSlash(path, sequence, j, i);
        j := i;
      } else {
        ScanChar(path, sequence, j, i);
      }
      lastc, i := path[i], i + 1;
    }
    ScanDone(path, sequence, j);
    return true;
  }

  lemma RejectControl(p: string, sequence: bool, i: int)
    requires 0 <= i < |p| && p[i] < '\U{1f}'
    ensures !Acceptable(p, sequence)
  {
    assert p[i] in p;
    if Acceptable(p, sequence) { AcceptableControlFree(p, sequence); }
  }

  lemma FirstIsSlash(p: string, sequence: bool)
    requires p != "" && Acceptable(p, sequence)
    ensures p[0] == '/'
  {
    if sequence { BaseStartsWithSlash(p[..LastSlash(p)]); }
    else if p != "/" { BaseStartsWithSlash(p); }
  }

  // ----------------------------------------------- valid paths by components

  /** The components are not empty, neither "." nor "..", and have no slash and no character
      below 0x1f. */
  predicate ProperParts(cs: seq<string>) {
    forall i | 0 <= i < |cs| ::
      && cs[i] != "" && cs[i] != "." && cs[i] != ".."
      && forall k | 0 <= k < |cs[i]| :: cs[i][k] != '/' && cs[i][k] as int >= 0x1f
  }

  lemma ProperName(n: string)
    ensures ValidName(n) <==> ProperParts([n])
  {
    if ValidName(n) {
      forall k | 0 <= k < |n| ensures n[k] != '/' && n[k] as int >= 0x1f { assert n[k] in n; }
    }
    if ProperParts([n]) {
      var cs := [n];
      assert cs[0] == n;
    }
  }

  lemma {:induction false} JoinedSnoc(cs: seq<string>, n: string)
    ensures Joined(cs + [n]) == Child(Joined(cs), n)
  {
    if cs == [] {
      assert [n][1..] == [] && [] + [n] == [n];
      assert "/" + n + "" == "" + "/" + n;
    } else {
      assert (cs + [n])[1..] == cs[1..] + [n];
      JoinedSnoc(cs[1..], n);
      JoinedAssoc(cs[0], Joined(cs[1..]), n);
    }
  }

  lemma JoinedAssoc(c: string, j: string, n: string)
    ensures "/" + c + (j + "/" + n) == "/" + c + j + "/" + n
  {
  }

  lemma {:induction false} JoinedValid(cs: seq<string>)
    requires ProperParts(cs)
    ensures ValidBase(Joined(cs))
    decreases |cs|
  {
    if cs != [] {
      var front, n := cs[..|cs| - 1], cs[|cs| - 1];
      assert cs == front + [n];
      JoinedValid(front);
      JoinedSnoc(front, n);
      assert ProperParts([n]);
      ProperName(n);
      ChildValid(Joined(front), n);
    }
  }

  lemma {:induction false} PartsOf(b: string) returns (cs: seq<string>)
    requires ValidBase(b)
    ensures ProperParts(cs) && b == Joined(cs) && (b != "" ==> cs != [])
    decreases |b|
  {
    cs := [];
    if b != "" {
      var i := LastSlash(b);
      var front := PartsOf(b[..i]);
      cs := front + [b[i + 1..]];
      JoinedSnoc(front, b[i + 1..]);
      ProperName(b[i + 1..]);
      assert ProperParts([b[i + 1..]]) && [b[i + 1..]][0] == b[i + 1..];
      assert b == b[..i] + "/" + b[i + 1..];
    }
  }

  /** Proper components, then a last one of which only slashes and control characters are
      excluded. */
  predicate SequenceOf(p: string, cs: seq<string>, last: string) {
    && ProperParts(cs) && p == Joined(cs) + "/" + last
    && forall k | 0 <= k < |last| :: last[k] != '/' && last[k] as int >= 0x1f
  }

  /** The paths that a request may be made for: "/" and the chains of proper components, at
      least one. For a node that the server will number, the path up to its last slash is a
      chain of proper components, maybe empty, and what follows has no control character. */
  lemma AcceptableIff(p: string)
    ensures Acceptable(p, false) <==> p == "/" || exists cs :: cs != [] && ProperParts(cs) && p == Joined(cs)
    ensures Acceptable(p, true) <==> exists cs, last :: SequenceOf(p, cs, last)
  {
    if ValidPath(p) && p != "/" {
      var cs := PartsOf(p);
      assert cs != [] && ProperParts(cs) && p == Joined(cs);
    }
    forall cs | cs != [] && ProperParts(cs) && p == Joined(cs) ensures ValidPath(p) { JoinedValid(cs); }
    if ValidSequencePrefix(p) { var cs, last := SequenceParts(p); }
    forall cs, last | SequenceOf(p, cs, last) ensures ValidSequencePrefix(p) { SequenceMade(p, cs, last); }
  }

  lemma SequenceParts(p: string) returns (cs: seq<string>, last: string)
    requires ValidSequencePrefix(p)
    ensures SequenceOf(p, cs, last)
  {
    var i := LastSlash(p);
    cs := PartsOf(p[..i]);
    last := p[i + 1..];
    SlashFreeFrom(p, i + 1);
    assert p == p[..i] + "/" + p[i + 1..];
    forall k | 0 <= k < |last| ensures last[k] != '/' && last[k] as int >= 0x1f { assert last[k] in last; }
  }

  lemma SequenceMade(p: string, cs: seq<string>, last: string)
    requires SequenceOf(p, cs, last)
    ensures ValidSequencePrefix(p)
  {
    JoinedValid(cs);
    ChildParts(Joined(cs), last);
  }
}
