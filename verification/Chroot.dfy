/** Paths as the client knows them and as the server does. */
module Chroot {
  import opened Prelude
  import opened ZkPath

  /** A chroot is stored only when it is a valid path other than the root. */
  predicate ValidChroot(chroot: string) {
    ValidPath(chroot) && chroot != "/"
  }

  function PrependString(chroot: string, clientPath: string): string {
    if |clientPath| == 1 then chroot else chroot + clientPath
  }

  /** A server path that does not start with the chroot comes back unchanged. */
  function SubString(chroot: string, serverPath: string): string {
    if !(chroot <= serverPath) then serverPath
    else if |serverPath| == |chroot| then "/"
    else serverPath[|chroot|..]
  }

  lemma {:induction false} ValidBaseConcat(a: string, b: string)
    requires ValidBase(a) && ValidBase(b)
    ensures ValidBase(a + b)
    decreases |b|
  {
    if b == "" {
      assert a + b == a;
    } else {
      var i := LastSlash(b);
      var c, k := a + b, |a| + i;
      assert c[k + 1..] == b[i + 1..] by { ConcatSlices(a, b, i + 1); }
      assert ValidBase(c[..k]) by { ValidBaseConcat(a, b[..i]); ConcatSlices(a, b, i); }
      assert c[k] == '/';
      ValidBaseStep(c, k);
    }
  }

  /** A valid chroot followed by a valid client path is a valid server path. */
  lemma PrependKeepsValid(chroot: string, p: string)
    requires ValidChroot(chroot) && ValidPath(p)
    ensures ValidPath(PrependString(chroot, p))
  {
    if p != "/" {
      ValidNotSingle(p);
      ValidBaseConcat(chroot, p);
    }
  }

  /** Stripping the chroot undoes prepending it exactly for "/" and for client
      strings of two characters or more. */
  lemma SubUndoesPrepend(chroot: string, p: string)
    requires ValidChroot(chroot)
    ensures SubString(chroot, PrependString(chroot, p)) == p <==> p == "/" || |p| >= 2
    ensures ValidPath(p) ==> SubString(chroot, PrependString(chroot, p)) == p
  {
    var s := PrependString(chroot, p);
    assert |p| != 1 ==> s[|chroot|..] == p;
    if ValidPath(p) && p != "/" { ValidNotSingle(p); }
  }

  /** Stripping yields a valid client path exactly for the chroot node and its
      descendants: the prefix test alone does not respect component boundaries. */
  lemma SubStringValidIff(chroot: string, s: string)
    requires ValidChroot(chroot) && ValidPath(s) && chroot <= s
    ensures ValidPath(SubString(chroot, s)) <==> s == chroot || s[|chroot|] == '/'
  {
    if s != chroot {
      var r := s[|chroot|..];
      assert s == chroot + r;
      BaseStartsWithSlash(chroot);
      if r[0] == '/' {
        TailValid(chroot, r);
      } else if ValidPath(r) {
        BaseStartsWithSlash(r);
      }
    }
  }

  lemma {:induction false} TailValid(a: string, r: string)
    requires ValidBase(a + r) && (r == "" || r[0] == '/')
    ensures ValidBase(r)
    decreases |r|
  {
    if r != "" {
      var i := LastSlash(r);
      assert i >= 0;
      var c, k := a + r, |a| + i;
      assert c[k + 1..] == r[i + 1..] by { ConcatSlices(a, r, i + 1); }
      assert c[..k] == a + r[..i] by { ConcatSlices(a, r, i); }
      assert c[k] == '/';
      ValidBaseStep(c, k);
      TailValid(a, r[..i]);
    }
  }

  /** The boundary failure, concretely: chroot "/ab" turns "/abc" into "c". */
  lemma SubStringCutsInsideName()
    ensures ValidChroot("/ab") && ValidPath("/abc")
    ensures SubString("/ab", "/abc") == "c" && !ValidPath("c")
  {
    LastSlashUnique("/ab", 0);
    LastSlashUnique("/abc", 0);
    assert "/ab"[1..] == "ab" && "/abc"[1..] == "abc";
    assert LastSlash("c") == -1;
  }

  /** Which client strings the client accepts, given that it validates only the
      path with the chroot in front. A string of one character names the chroot,
      whatever it is; of any other string the part up to its first slash is glued
      to the last component of the chroot. */
  lemma AcceptedIff(chroot: string, p: string)
    requires ValidChroot(chroot)
    ensures ValidPath(PrependString(chroot, p)) <==>
            |p| == 1 || (ValidName(chroot[LastSlash(chroot) + 1..] + Upto(p)) && ValidBase(p[|Upto(p)|..]))
  {
    if |p| != 1 {
      FirstPart(p);
      ChrootParts(chroot);
      var i, u := LastSlash(chroot), Upto(p);
      Glued(chroot, i, p, u, p[|u|..]);
      NameThenRest(chroot[..i], chroot[i + 1..] + u, p[|u|..]);
    }
  }

  lemma ChrootParts(chroot: string)
    requires ValidChroot(chroot)
    ensures var i := LastSlash(chroot);
            i >= 0 && ValidBase(chroot[..i]) && SlashFree(chroot[i + 1..]) && |chroot| >= 2
  {
    ValidNotSingle(chroot);
  }

  lemma FirstPart(p: string)
    ensures var u := Upto(p); p == u + p[|u|..] && (p[|u|..] == "" || p[|u|..][0] == '/')
  {
  }

  lemma Glued(c: string, i: nat, p: string, u: string, rest: string)
    requires i < |c| && c[i] == '/' && p == u + rest
    ensures c + p == Child(c[..i], c[i + 1..] + u) + rest
  {
    assert c == c[..i] + "/" + c[i + 1..];
    Assoc(c[..i] + "/", c[i + 1..], u);
    Assoc(c, u, rest);
  }

  lemma NameThenRest(b: string, n: string, rest: string)
    requires ValidBase(b) && SlashFree(n) && (rest == "" || rest[0] == '/')
    ensures ValidBase(Child(b, n) + rest) <==> ValidName(n) && ValidBase(rest)
  {
    var c := Child(b, n);
    ChildParts(b, n);
    ValidBaseStep(c, |b|);
    if ValidName(n) && ValidBase(rest) { ValidBaseConcat(c, rest); }
    if ValidBase(c + rest) { HeadValid(c, rest); TailValid(c, rest); }
  }

  lemma HeadValid(a: string, r: string)
    requires ValidBase(a + r) && (r == "" || r[0] == '/')
    ensures ValidBase(a)
  {
    if r == "" {
      assert a + r == a;
    } else {
      ValidBaseCut(a + r, |a|);
      assert (a + r)[..|a|] == a;
    }
  }

  /** An accepted string stays inside the chroot exactly when it names the chroot
      (the empty string and every string of one character) or is a valid path. */
  lemma AcceptedInsideIff(chroot: string, p: string)
    requires ValidChroot(chroot)
    ensures Under(chroot, PrependString(chroot, p)) <==> |p| <= 1 || p[0] == '/'
    ensures ValidPath(PrependString(chroot, p)) && Under(chroot, PrependString(chroot, p)) <==>
            |p| <= 1 || ValidPath(p)
  {
    var s := PrependString(chroot, p);
    if p == "" { assert s == chroot; }
    if |p| > 1 {
      assert s[|chroot|] == p[0];
      if p[0] == '/' {
        assert s[..|chroot| + 1] == chroot + "/";
        if ValidPath(s) { TailValid(chroot, p); }
      }
      if ValidPath(p) {
        BaseStartsWithSlash(p);
        PrependKeepsValid(chroot, p);
      }
    }
  }

  /** Under the chroot "/ab" the client string "cd", which is no path, is accepted
      and names the node "/abcd", which lies outside the chroot. */
  lemma OutsideIsAccepted()
    ensures ValidChroot("/ab") && !ValidPath("cd")
    ensures PrependString("/ab", "cd") == "/abcd" && ValidPath("/abcd") && !Under("/ab", "/abcd")
  {
    LastSlashUnique("/ab", 0);
    LastSlashUnique("/abcd", 0);
    assert "/ab"[1..] == "ab" && "/abcd"[1..] == "abcd";
    assert LastSlash("cd") == -1;
    assert "/ab" + "cd" == "/abcd";
    AcceptedInsideIff("/ab", "cd");
  }
}
