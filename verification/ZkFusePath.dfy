/** From a file system path to the path of a node and the way it is looked at: a path may
    name the data of a node, or force components to be directories by a suffix. */
module ZkFusePath {
  import opened Prelude

  datatype NameType = DefaultType | RegType | DirType

  datatype Config = Config(dataFileName: string, forceDirSuffix: string, rootPathName: string)

  predicate OccursAt(s: string, t: string, i: nat) {
    i + |t| <= |s| && s[i..i + |t|] == t
  }

  predicate EndsIn(s: string, t: string) {
    |t| <= |s| && s[|s| - |t|..] == t
  }

  predicate Absent(s: string, t: string, a: nat, b: nat) {
    forall i | a <= i < b :: !OccursAt(s, t, i)
  }

  /** From position a on, t occurs first at e, or not at all when e is past the end. */
  predicate FirstMark(s: string, t: string, a: nat, e: nat) {
    a <= e && Absent(s, t, a, e) && if e <= |s| then OccursAt(s, t, e) else e == |s| + 1
  }

  lemma {:induction false} FirstExists(s: string, t: string, a: nat)
    requires a <= |s| + 1
    ensures exists e :: FirstMark(s, t, a, e)
    decreases |s| + 1 - a
  {
    if a == |s| + 1 || OccursAt(s, t, a) {
      assert FirstMark(s, t, a, a);
    } else {
      FirstExists(s, t, a + 1);
      var e :| FirstMark(s, t, a + 1, e);
      assert FirstMark(s, t, a, e);
    }
  }

  ghost function FindFrom(s: string, t: string, pos: nat): (i: nat)
    requires pos <= |s|
    ensures FirstMark(s, t, pos, i)
  {
    FirstExists(s, t, pos);
    var i :| FirstMark(s, t, pos, i);
    i
  }

  lemma FindFirst(s: string, t: string, a: nat, e: nat)
    requires a <= |s| && FirstMark(s, t, a, e)
    ensures FindFrom(s, t, a) == e
  {
    assert FirstMark(s, t, a, FindFrom(s, t, a));
  }

  /** strstr from a position: where t occurs first, or past the end. */
  method Strstr(s: string, t: string, pos: nat) returns (i: nat)
    requires pos <= |s|
    ensures i == FindFrom(s, t, pos)
  {
    i := pos;
    while i <= |s| && !(i + |t| <= |s| && s[i..i + |t|] == t)
      invariant pos <= i <= |s| + 1 && Absent(s, t, pos, i)
    {
      i := i + 1;
    }
    FindFirst(s, t, pos, i);
  }

  /** Whether the text after position i ends the component. */
  predicate ComponentEnds(s: string, i: nat)
    requires i <= |s|
  {
    i == |s| || s[i] == '/'
  }

  /** Removes the suffix where it ends a component, from a position on. */
  function Erase(s: string, i: nat, n: nat): (r: string)
    requires i + n <= |s|
    ensures |r| == |s| - n
  {
    s[..i] + s[i + n..]
  }

  ghost function Stripped(res: string, t: string, pos: nat): string
    requires t != "" && pos <= |res|
    decreases |res| - pos
  {
    if |res| - pos <= |t| + 1 then res
    else
      var found := FindFrom(res, t, pos);
      if found > |res| then res
      else if ComponentEnds(res, found + |t|) then Stripped(Erase(res, found, |t|), t, found)
      else Stripped(res, t, pos + |t|)
  }

  ghost function ZkPath(cfg: Config, path: string): (r: (string, NameType))
    requires path != ""
  {
    var t := cfg.forceDirSuffix;
    var (res, nameType) :=
      if |path| == 1 then (cfg.rootPathName, DirType)
      else if EndsIn(path, "/" + cfg.dataFileName) then
        var n := |path| - |cfg.dataFileName| - 1;
        (if n == 0 then cfg.rootPathName else path[..n], RegType)
      else if t != "" && EndsIn(path, t) then (path[..|path| - |t|], DirType)
      else (path, DefaultType);
    (if t == "" then res else Stripped(res, t, 0), nameType)
  }

  lemma EndsInParts(q: string, d: string)
    ensures EndsIn(q, "/" + d) <==> |q| >= |d| + 1 && q[|q| - |d| - 1] == '/' && q[|q| - |d|..] == d
  {
    if |q| >= |d| + 1 {
      var tail := q[|q| - |d| - 1..];
      assert tail[1..] == q[|q| - |d|..];
      assert tail == [tail[0]] + tail[1..] && ("/" + d)[0] == '/' && ("/" + d)[1..] == d;
    }
  }

  method GetZkPath(cfg: Config, path: string) returns (res: string, nameType: NameType)
    requires path != ""
    ensures (res, nameType) == ZkPath(cfg, path)
  {
    var n := |cfg.dataFileName| + 1;
    var t := cfg.forceDirSuffix;
    EndsInParts(path, cfg.dataFileName);
    if |path| == 1 {
      res, nameType := cfg.rootPathName, DirType;
    } else if |path| >= n && path[|path| - n] == '/' && path[|path| - n + 1..] == cfg.dataFileName {
      res := if |path| - n == 0 then cfg.rootPathName else path[..|path| - n];
      nameType := RegType;
    } else if |t| > 0 && |path| >= |t| && path[|path| - |t|..] == t {
      res, nameType := path[..|path| - |t|], DirType;
    } else {
      res, nameType := path, DefaultType;
    }
    if |t| > 0 {
      res := Strip(res, t);
    }
  }

  lemma EraseRound(s: string, t: string, pos: nat, found: nat, res: string)
    requires t != "" && pos <= |s| && |s| - pos > |t| + 1 && found == FindFrom(s, t, pos) <= |s|
    requires ComponentEnds(s, found + |t|) && res == Erase(s, found, |t|)
    ensures found <= |res| && |res| - found < |s| - pos && Stripped(res, t, found) == Stripped(s, t, pos)
  {
  }

  lemma SkipRound(s: string, t: string, pos: nat, found: nat)
    requires t != "" && pos <= |s| && |s| - pos > |t| + 1 && found == FindFrom(s, t, pos) <= |s|
    requires !ComponentEnds(s, found + |t|)
    ensures pos + |t| <= |s| && Stripped(s, t, pos + |t|) == Stripped(s, t, pos)
  {
  }

  /** Every round shortens what is left after the position. */
  method Strip(s: string, t: string) returns (res: string)
    requires t != ""
    ensures res == Stripped(s, t, 0)
  {
    res := s;
    var pos: nat, more := 0, |s| > |t| + 1;
    while more
      invariant pos <= |res| && Stripped(res, t, pos) == Stripped(s, t, 0)
      invariant more <==> |res| - pos > |t| + 1
      decreases |res| - pos
    {
      var found := Strstr(res, t, pos);
      if found > |res| { break; }
      res, pos := Advance(res, t, pos, found);
      more := |res| - pos > |t| + 1;
    }
  }

  method Advance(s: string, t: string, pos: nat, found: nat) returns (res: string, pos': nat)
    requires t != "" && pos <= |s| && |s| - pos > |t| + 1 && found == FindFrom(s, t, pos) <= |s|
    ensures pos' <= |res| && |res| - pos' < |s| - pos && Stripped(res, t, pos') == Stripped(s, t, pos)
  {
    if ComponentEnds(s, found + |t|) {
      res, pos' := s[..found] + s[found + |t|..], found;
      EraseRound(s, t, pos, found, res);
    } else {
      res, pos' := s, pos + |t|;
      SkipRound(s, t, pos, found);
    }
  }

  // ------------------------------------------------- paths without suffixes

  /** No component of the path ends in the suffix. */
  predicate NoneEnds(p: string, t: string) {
    forall i | 0 <= i <= |p| && OccursAt(p, t, i) :: !ComponentEnds(p, i + |t|)
  }

  predicate Proper(cfg: Config) {
    && cfg.dataFileName != "" && SlashFree(cfg.dataFileName) && !EndsIn(cfg.dataFileName, cfg.forceDirSuffix)
    && cfg.forceDirSuffix != "" && SlashFree(cfg.forceDirSuffix)
  }

  /** From position a up to e every occurrence of t ends before e and inside a component. */
  predicate Quiet(s: string, t: string, a: nat, e: nat) {
    forall i | a <= i < e && OccursAt(s, t, i) :: i + |t| < e && !ComponentEnds(s, i + |t|)
  }

  lemma {:induction false} StripKeeps(p: string, t: string, pos: nat)
    requires t != "" && pos <= |p| && Quiet(p, t, pos, |p| + 1)
    ensures Stripped(p, t, pos) == p
    decreases |p| - pos
  {
    if |p| - pos > |t| + 1 && FindFrom(p, t, pos) <= |p| {
      assert !ComponentEnds(p, FindFrom(p, t, pos) + |t|);
      StripKeeps(p, t, pos + |t|);
    }
  }

  lemma EndsOccurs(s: string, t: string)
    requires EndsIn(s, t)
    ensures OccursAt(s, t, |s| - |t|) && ComponentEnds(s, |s| - |t| + |t|)
  {
  }

  lemma TwoEnds(q: string, t: string, d: string)
    requires EndsIn(q, t) && EndsIn(q, "/" + d)
    ensures EndsIn(d, t) || '/' in t
  {
    EndsInParts(q, d);
    if |d| >= |t| {
      assert d[|d| - |t|..] == q[|q| - |t|..];
    } else {
      assert t[|t| - |d| - 1] == q[|q| - |d| - 1];
    }
  }

  lemma SuffixIsNoDataName(cfg: Config, p: string)
    requires Proper(cfg)
    ensures !EndsIn(p + cfg.forceDirSuffix, "/" + cfg.dataFileName)
  {
    var q := p + cfg.forceDirSuffix;
    assert EndsIn(q, cfg.forceDirSuffix);
    if EndsIn(q, "/" + cfg.dataFileName) { TwoEnds(q, cfg.forceDirSuffix, cfg.dataFileName); }
  }

  /** A node path is itself; with the data name behind it is the node's data, and with
      the suffix the node as a directory. */
  lemma NodePathMapped(cfg: Config, p: string)
    requires Proper(cfg) && |p| >= 2 && p[0] == '/'
    requires NoneEnds(p, cfg.forceDirSuffix) && !EndsIn(p, "/" + cfg.dataFileName)
    ensures ZkPath(cfg, p) == (p, DefaultType)
    ensures ZkPath(cfg, p + "/" + cfg.dataFileName) == (p, RegType)
    ensures ZkPath(cfg, p + cfg.forceDirSuffix) == (p, DirType)
  {
    var t := cfg.forceDirSuffix;
    StripKeeps(p, t, 0);
    if EndsIn(p, t) { EndsOccurs(p, t); }
    PlainPath(cfg, p);
    DataPath(cfg, p);
    DirPath(cfg, p);
  }

  /** The mount point is the root node as a directory, and its data file the root node's
      data. The name of the root loses suffixes as other names do; one without any stays. */
  lemma RootMapped(cfg: Config)
    requires Proper(cfg)
    ensures var root := Stripped(cfg.rootPathName, cfg.forceDirSuffix, 0);
            && ZkPath(cfg, "/") == (root, DirType) && ZkPath(cfg, "/" + cfg.dataFileName) == (root, RegType)
            && (NoneEnds(cfg.rootPathName, cfg.forceDirSuffix) ==> root == cfg.rootPathName)
  {
    var q := "/" + cfg.dataFileName;
    assert q[|q| - |q|..] == q;
    if NoneEnds(cfg.rootPathName, cfg.forceDirSuffix) { StripKeeps(cfg.rootPathName, cfg.forceDirSuffix, 0); }
  }

  /** With the names that the program has by default. */
  lemma DefaultRootMapped(cfg: Config)
    requires cfg == Config("_data_", "._dir_", "/")
    ensures ZkPath(cfg, "/") == ("/", DirType) && ZkPath(cfg, "/_data_") == ("/", RegType)
  {
    assert "_data_"[|"_data_"| - 1] == '_';
    RootMapped(cfg);
    assert "/" + "_data_" == "/_data_";
  }

  // ------------------------------------------------ paths with suffixes inside

  /** In the component with the suffix appended every other occurrence of the suffix
      ends inside the component. */
  predicate Settled(c: string, t: string) {
    c != "" && SlashFree(c) && forall i | 0 <= i < |c| && OccursAt(c + t, t, i) :: i + |t| < |c|
  }

  predicate AllSettled(cs: seq<string>, t: string) {
    forall i | 0 <= i < |cs| :: Settled(cs[i], t)
  }

  function Part(c: string, mark: bool, t: string): string {
    "/" + c + (if mark then t else "")
  }

  /** The path of the components, some of them with the suffix. */
  function Marked(cs: seq<string>, marks: seq<bool>, t: string): string
    requires |cs| == |marks|
  {
    if cs == [] then "" else Part(cs[0], marks[0], t) + Marked(cs[1..], marks[1..], t)
  }

  /** An occurrence that starts at a component stays in it, or has a slash. */
  lemma WhereOccurs(pre: string, c: string, mark: bool, rest: string, t: string, i: nat)
    requires t != "" && (rest == "" || rest[0] == '/') && |pre| <= i < |pre| + 1 + |c|
    requires OccursAt(pre + Part(c, mark, t) + rest, t, i)
    ensures '/' in t || (i > |pre| && OccursAt(c + t, t, i - |pre| - 1))
  {
    var s, b := pre + Part(c, mark, t) + rest, |pre| + 1;
    var e := b + |c| + (if mark then |t| else 0);
    assert forall k | 0 <= k < |t| :: s[i + k] == t[k];
    if i == |pre| {
      assert t[0] == '/';
    } else if i + |t| > e {
      assert t[e - i] == '/';
    } else {
      assert s[b..e] == c + (if mark then t else "");
      assert (c + t)[i - b..i - b + |t|] == s[i..i + |t|];
    }
  }

  lemma QuietAt(pre: string, c: string, mark: bool, rest: string, t: string, i: nat)
    requires t != "" && SlashFree(t) && Settled(c, t) && (rest == "" || rest[0] == '/')
    requires |pre| <= i < |pre| + 1 + |c| && OccursAt(pre + Part(c, mark, t) + rest, t, i)
    ensures i + |t| < |pre| + 1 + |c| && !ComponentEnds(pre + Part(c, mark, t) + rest, i + |t|)
  {
    WhereOccurs(pre, c, mark, rest, t, i);
    var s, k := pre + Part(c, mark, t) + rest, i + |t|;
    assert s[k] == c[k - |pre| - 1];
  }

  lemma MarkedStart(cs: seq<string>, marks: seq<bool>, t: string)
    requires |cs| == |marks|
    ensures Marked(cs, marks, t) == "" || Marked(cs, marks, t)[0] == '/'
  {
  }

  lemma QuietPart(pre: string, c: string, mark: bool, rest: string, t: string)
    requires t != "" && SlashFree(t) && Settled(c, t) && (rest == "" || rest[0] == '/')
    ensures Quiet(pre + Part(c, mark, t) + rest, t, |pre|, |pre| + 1 + |c|)
  {
    var s := pre + Part(c, mark, t) + rest;
    forall i | |pre| <= i < |pre| + 1 + |c| && OccursAt(s, t, i)
      ensures i + |t| < |pre| + 1 + |c| && !ComponentEnds(s, i + |t|)
    {
      QuietAt(pre, c, mark, rest, t, i);
    }
  }

  lemma EndOfPart(pre: string, c: string, rest: string, t: string)
    ensures OccursAt(pre + Part(c, true, t) + rest, t, |pre| + 1 + |c|)
  {
    var s, e := pre + Part(c, true, t) + rest, |pre| + 1 + |c|;
    assert s[e..e + |t|] == t;
  }

  lemma QuietJoin(s: string, t: string, a: nat, b: nat, e: nat)
    requires a <= b <= e && Quiet(s, t, a, b) && Quiet(s, t, b, e)
    ensures Quiet(s, t, a, e)
  {
  }

  /** Where the suffix of component j starts among components before which n characters
      stand, or past the end of a text of the given length if there is no such component. */
  function Stop(n: nat, cs: seq<string>, j: nat, length: nat): nat
    requires j <= |cs|
  {
    if j == |cs| then length + 1 else n + |Joined(cs[..j + 1])|
  }

  lemma StopStep(n: nat, cs: seq<string>, j: nat, length: nat)
    requires 0 < j <= |cs|
    ensures Stop(n, cs, j, length) == Stop(n + 1 + |cs[0]|, cs[1..], j - 1, length)
    ensures n + 1 + |cs[0]| <= Stop(n, cs, j, length) || j == |cs|
  {
    if j < |cs| { assert cs[..j + 1][1..] == cs[1..][..j]; }
  }

  lemma StopFirst(n: nat, cs: seq<string>, length: nat)
    requires cs != []
    ensures Stop(n, cs, 0, length) == n + 1 + |cs[0]|
  {
    assert cs[..1] == [cs[0]] && Joined([cs[0]][1..]) == "";
  }

  /** Up to the first component with the suffix the search meets nothing to remove. */
  lemma {:induction false} FindMark(pre: string, cs: seq<string>, marks: seq<bool>, t: string, j: nat, s: string)
    requires |cs| == |marks| && t != "" && SlashFree(t) && AllSettled(cs, t) && s == pre + Marked(cs, marks, t)
    requires j <= |cs| && (forall i | 0 <= i < j :: !marks[i]) && (j < |cs| ==> marks[j])
    ensures Quiet(s, t, |pre|, Stop(|pre|, cs, j, |s|))
    ensures j < |cs| ==> OccursAt(s, t, Stop(|pre|, cs, j, |s|))
    decreases |cs|
  {
    if cs != [] {
      var c, rest := cs[0], Marked(cs[1..], marks[1..], t);
      var part := pre + Part(c, marks[0], t);
      MarkedStart(cs[1..], marks[1..], t);
      Assoc(pre, Part(c, marks[0], t), rest);
      QuietPart(pre, c, marks[0], rest, t);
      if j == 0 {
        EndOfPart(pre, c, rest, t);
        StopFirst(|pre|, cs, |s|);
      } else {
        FindMark(part, cs[1..], marks[1..], t, j - 1, s);
        StopStep(|pre|, cs, j, |s|);
        QuietJoin(s, t, |pre|, |part|, Stop(|pre|, cs, j, |s|));
      }
    }
  }

  /** The number of components before the first one with the suffix. */
  function Leading(marks: seq<bool>): (j: nat)
    ensures j <= |marks| && (forall i | 0 <= i < j :: !marks[i]) && (j < |marks| ==> marks[j])
  {
    if marks == [] || marks[0] then 0 else 1 + Leading(marks[1..])
  }

  lemma {:induction false} Unmarked(cs: seq<string>, marks: seq<bool>, t: string)
    requires |cs| == |marks| && forall i | 0 <= i < |marks| :: !marks[i]
    ensures Marked(cs, marks, t) == Joined(cs)
  {
    if cs != [] { Unmarked(cs[1..], marks[1..], t); }
  }

  lemma {:induction false} SplitAtMark(cs: seq<string>, marks: seq<bool>, t: string, j: nat)
    requires |cs| == |marks| && j < |cs| && marks[j] && forall i | 0 <= i < j :: !marks[i]
    ensures Marked(cs, marks, t) == Joined(cs[..j + 1]) + t + Marked(cs[j + 1..], marks[j + 1..], t)
  {
    if j == 0 {
      assert cs[..1] == [cs[0]] && Joined([cs[0]][1..]) == "";
    } else {
      SplitAtMark(cs[1..], marks[1..], t, j - 1);
      assert cs[..j + 1][1..] == cs[1..][..j] && cs[1..][j..] == cs[j + 1..] && marks[1..][j..] == marks[j + 1..];
    }
  }

  lemma {:induction false} PlainSplit(cs: seq<string>, j: nat)
    requires j <= |cs|
    ensures Joined(cs) == Joined(cs[..j]) + Joined(cs[j..])
  {
    if j > 0 {
      PlainSplit(cs[1..], j - 1);
      assert cs[..j][1..] == cs[1..][..j - 1] && cs[1..][j - 1..] == cs[j..];
    } else {
      assert cs[0..] == cs;
    }
  }

  lemma PlainLong(cs: seq<string>, t: string)
    requires cs != [] && AllSettled(cs, t)
    ensures |Joined(cs)| >= 2 && Joined(cs)[0] == '/'
  {
  }

  /** The search from position p steps over all occurrences before the one that ends a
      component, and removes that one if enough text follows. */
  lemma {:induction false} StripTo(s: string, t: string, p: nat, e: nat)
    requires t != "" && p <= e && Quiet(s, t, p, e) && OccursAt(s, t, e) && ComponentEnds(s, e + |t|)
    requires |s| >= e + |t| + 2
    ensures Stripped(s, t, p) == Stripped(Erase(s, e, |t|), t, e)
    decreases e - p
  {
    var found := FindFrom(s, t, p);
    if found < e {
      StripTo(s, t, p + |t|, e);
    } else {
      assert found == e;
    }
  }

  predicate Multiple(d: nat, n: nat)
    requires n > 0
  {
    d == 0 || (d >= n && Multiple(d - n, n))
  }

  /** At the end of the text the search gives up when its steps lead it to the last
      character before the suffix. */
  predicate Misses(s: string, t: string, p: nat, e: nat)
    requires t != ""
  {
    p + 1 + |t| <= e && OccursAt(s, t, e - 1 - |t|) && Multiple(e - 1 - p, |t|)
  }

  lemma {:induction false} StripLast(s: string, t: string, p: nat, e: nat)
    requires t != "" && p + 1 < e && Quiet(s, t, p, e) && OccursAt(s, t, e) && |s| == e + |t|
    ensures Stripped(s, t, p) == if Misses(s, t, p, e) then s else s[..e]
    decreases e - p
  {
    var found := FindFrom(s, t, p);
    if found < e {
      StepKeepsMisses(s, t, p, e, found);
      if p + |t| + 1 < e { StripLast(s, t, p + |t|, e); }
    } else {
      assert found == e && Erase(s, e, |t|) == s[..e];
    }
  }

  lemma StepKeepsMisses(s: string, t: string, p: nat, e: nat, found: nat)
    requires t != "" && p + 1 < e && p <= found && found + |t| < e && OccursAt(s, t, found)
    ensures p + |t| + 1 == e ==> Misses(s, t, p, e)
    ensures p + |t| + 1 < e ==> (Misses(s, t, p, e) <==> Misses(s, t, p + |t|, e))
  {
    var d := e - 1 - p;
    assert Multiple(d, |t|) <==> Multiple(d - |t|, |t|);
    if d == |t| { assert found == p; }
    assert 0 < d - |t| < |t| ==> !Multiple(d - |t|, |t|);
  }

  lemma PlainAround(pre: string, cs: seq<string>, j: nat)
    requires j < |cs|
    ensures pre + Joined(cs) == pre + Joined(cs[..j + 1]) + Joined(cs[j + 1..])
  {
    PlainSplit(cs, j + 1);
    Assoc(pre, Joined(cs[..j + 1]), Joined(cs[j + 1..]));
  }

  lemma AssocMark(pre: string, x: string, t: string, b: string)
    ensures pre + (x + t + b) == pre + x + t + b
  {
  }

  lemma AroundMark(pre: string, cs: seq<string>, marks: seq<bool>, t: string, j: nat)
    requires |cs| == |marks| && j < |cs| && marks[j] && (forall i | 0 <= i < j :: !marks[i]) && AllSettled(cs, t)
    ensures var a, b := pre + Joined(cs[..j + 1]), Marked(cs[j + 1..], marks[j + 1..], t);
            pre + Marked(cs, marks, t) == a + t + b && |pre| + 1 < |a| && (b == "" || b[0] == '/')
  {
    SplitAtMark(cs, marks, t, j);
    MarkedStart(cs[j + 1..], marks[j + 1..], t);
    PlainLong(cs[..j + 1], t);
    AssocMark(pre, Joined(cs[..j + 1]), t, Marked(cs[j + 1..], marks[j + 1..], t));
  }

  /** How many of the first n components come up to the last one with the suffix. */
  function LastMark(marks: seq<bool>, n: nat): (k: nat)
    requires n <= |marks|
    ensures k <= n
  {
    if n == 0 then 0 else if marks[n - 1] then n else LastMark(marks, n - 1)
  }

  /** The one case in which a suffix stays: the last component has it, contains it a
      second time up to one character before its end, and the text after the previous
      suffix is longer by one than a multiple of the suffix. */
  predicate Stays(cs: seq<string>, marks: seq<bool>, t: string)
    requires |cs| == |marks| && t != ""
  {
    cs != [] &&
    var n := |cs| - 1;
    marks[n] && MissedIn(cs[n], t, |Joined(cs[LastMark(marks, n)..])|)
  }

  predicate MissedIn(c: string, t: string, length: nat)
    requires t != ""
  {
    |t| < |c| && OccursAt(c, t, |c| - 1 - |t|) && length > 0 && Multiple(length - 1, |t|)
  }

  lemma {:induction false} LastMarkRest(marks: seq<bool>, j: nat, n: nat)
    requires j < n <= |marks| && marks[j]
    ensures LastMark(marks, n) == j + 1 + LastMark(marks[j + 1..], n - j - 1)
    decreases n
  {
    if n > j + 1 { LastMarkRest(marks, j, n - 1); }
  }

  lemma StaysRest(cs: seq<string>, marks: seq<bool>, t: string, j: nat)
    requires |cs| == |marks| && t != "" && j + 1 < |cs| && marks[j]
    ensures Stays(cs, marks, t) <==> Stays(cs[j + 1..], marks[j + 1..], t)
  {
    var n := |cs| - 1;
    LastMarkRest(marks, j, n);
    DropTwice(cs, j + 1, LastMark(marks[j + 1..], n - j - 1));
  }

  lemma DropTwice<T>(s: seq<T>, i: nat, k: nat)
    requires i + k <= |s|
    ensures s[i..][k..] == s[i + k..]
  {
  }

  lemma {:induction false} NoLastMark(marks: seq<bool>, n: nat)
    requires n <= |marks| && forall i | 0 <= i < n :: !marks[i]
    ensures LastMark(marks, n) == 0
  {
    if n > 0 { NoLastMark(marks, n - 1); }
  }

  lemma HasSlash(s: string, t: string, i: nat, k: nat)
    requires OccursAt(s, t, i) && i <= k < i + |t| && s[k] == '/'
    ensures !SlashFree(t)
  {
    assert t[k - i] == '/';
  }

  /** An occurrence one character before the end of m + "/" + c lies in c. */
  lemma NearEnd(m: string, c: string, t: string, p: nat)
    requires t != "" && SlashFree(t) && c != "" && p <= |m|
    ensures var a := m + "/" + c;
            p + 1 + |t| <= |a| && OccursAt(a + t, t, |a| - 1 - |t|) <==>
            |t| < |c| && OccursAt(c, t, |c| - 1 - |t|)
  {
    var a := m + "/" + c;
    var s := a + t;
    if |t| < |c| {
      var i := |a| - 1 - |t|;
      assert s[i..i + |t|] == c[|c| - 1 - |t|..|c| - 1];
    } else if p + 1 + |t| <= |a| && OccursAt(s, t, |a| - 1 - |t|) {
      assert s[|m|] == '/';
      HasSlash(s, t, |a| - 1 - |t|, |m|);
    }
  }

  lemma PlainLast(cs: seq<string>)
    requires cs != []
    ensures Joined(cs) == Joined(cs[..|cs| - 1]) + "/" + cs[|cs| - 1]
  {
    var n := |cs| - 1;
    PlainSplit(cs, n);
    assert cs[n..] == [cs[n]];
    PlainOne(cs[n]);
    Assoc(Joined(cs[..n]), "/", cs[n]);
  }

  lemma PlainOne(c: string)
    ensures Joined([c]) == "/" + c
  {
    assert [c][1..] == [];
    assert "/" + c + "" == "/" + c;
  }

  lemma StaysFirst(cs: seq<string>, marks: seq<bool>, t: string, c: string, length: nat)
    requires |cs| == |marks| && t != "" && cs != [] && marks[|cs| - 1] && forall i | 0 <= i < |cs| - 1 :: !marks[i]
    requires c == cs[|cs| - 1] && length == |Joined(cs)|
    ensures Stays(cs, marks, t) <==> MissedIn(c, t, length)
  {
    NoLastMark(marks, |cs| - 1);
    assert cs[0..] == cs;
  }

  lemma AssocLast(pre: string, m: string, c: string)
    ensures pre + (m + "/" + c) == pre + m + "/" + c
  {
  }

  lemma LastMissesIff(pre: string, cs: seq<string>, marks: seq<bool>, t: string, a: string)
    requires |cs| == |marks| && t != "" && SlashFree(t) && cs != [] && cs[|cs| - 1] != "" && a == pre + Joined(cs)
    requires marks[|cs| - 1] && forall i | 0 <= i < |cs| - 1 :: !marks[i]
    ensures Misses(a + t, t, |pre|, |a|) <==> Stays(cs, marks, t)
  {
    var m, c := LastPart(pre, cs);
    var length := |Joined(cs)|;
    LastMissesAt(m, c, t, |pre|, a, length);
    StaysFirst(cs, marks, t, c, length);
  }

  lemma LastPart(pre: string, cs: seq<string>) returns (m: string, c: string)
    requires cs != []
    ensures pre + Joined(cs) == m + "/" + c && |pre| <= |m| && c == cs[|cs| - 1]
  {
    var n := |cs| - 1;
    PlainLast(cs);
    AssocLast(pre, Joined(cs[..n]), cs[n]);
    m, c := pre + Joined(cs[..n]), cs[n];
  }

  lemma LastMissesAt(m: string, c: string, t: string, p: nat, a: string, length: nat)
    requires t != "" && SlashFree(t) && c != "" && p <= |m| && a == m + "/" + c && |a| == p + length
    ensures Misses(a + t, t, p, |a|) <==> MissedIn(c, t, length)
  {
    NearEnd(m, c, t, p);
  }

  lemma StripEnd(pre: string, cs: seq<string>, marks: seq<bool>, t: string, s: string)
    requires |cs| == |marks| && t != "" && SlashFree(t) && AllSettled(cs, t) && s == pre + Marked(cs, marks, t)
    requires cs != [] && Leading(marks) == |cs| - 1
    ensures Stripped(s, t, |pre|) == pre + Joined(cs) + (if Stays(cs, marks, t) then t else "")
  {
    var n := |cs| - 1;
    var a := pre + Joined(cs);
    FindMark(pre, cs, marks, t, n, s);
    EndText(pre, cs, marks, t);
    assert Settled(cs[n], t);
    LastMissesIff(pre, cs, marks, t, a);
    StripLast(s, t, |pre|, |a|);
  }

  lemma EndText(pre: string, cs: seq<string>, marks: seq<bool>, t: string)
    requires |cs| == |marks| && cs != [] && Leading(marks) == |cs| - 1 && AllSettled(cs, t)
    ensures var s, a := pre + Marked(cs, marks, t), pre + Joined(cs);
            s == a + t && s[..|a|] == a && |pre| + 1 < |a| && Stop(|pre|, cs, |cs| - 1, |s|) == |a|
  {
    MarkedAtEnd(cs, marks, t);
    PlainLong(cs, t);
    Assoc(pre, Joined(cs), t);
    TakeLeft(pre + Joined(cs), t);
    assert cs[..|cs|] == cs;
  }

  lemma MarkedAtEnd(cs: seq<string>, marks: seq<bool>, t: string)
    requires |cs| == |marks| && cs != [] && Leading(marks) == |cs| - 1
    ensures Marked(cs, marks, t) == Joined(cs) + t
  {
    SplitAtMark(cs, marks, t, |cs| - 1);
    assert cs[..|cs|] == cs && cs[|cs|..] == [] && marks[|cs|..] == [];
    EmptyRight(Joined(cs) + t);
  }

  lemma StripFirst(pre: string, cs: seq<string>, marks: seq<bool>, t: string, s: string)
    requires |cs| == |marks| && t != "" && SlashFree(t) && AllSettled(cs, t) && s == pre + Marked(cs, marks, t)
    requires Leading(marks) < |cs| - 1
    ensures var j := Leading(marks);
            var a, b := pre + Joined(cs[..j + 1]), Marked(cs[j + 1..], marks[j + 1..], t);
            Stripped(s, t, |pre|) == Stripped(a + b, t, |a|)
  {
    var j := Leading(marks);
    var a, b := pre + Joined(cs[..j + 1]), Marked(cs[j + 1..], marks[j + 1..], t);
    FindMark(pre, cs, marks, t, j, s);
    AroundMark(pre, cs, marks, t, j);
    MarkedLong(cs[j + 1..], marks[j + 1..], t);
    StripTo(s, t, |pre|, |a|);
    assert s[..|a|] == a && s[|a| + |t|..] == b;
  }

  /** Wherever components have the suffix, all of it goes, but for the last one if the
      search misses it. */
  lemma {:induction false} StripMarked(pre: string, cs: seq<string>, marks: seq<bool>, t: string, s: string)
    requires |cs| == |marks| && t != "" && SlashFree(t) && AllSettled(cs, t) && s == pre + Marked(cs, marks, t)
    ensures Stripped(s, t, |pre|) == pre + Joined(cs) + (if Stays(cs, marks, t) then t else "")
    decreases |cs|
  {
    var j := Leading(marks);
    if j == |cs| {
      FindMark(pre, cs, marks, t, j, s);
      Unmarked(cs, marks, t);
      StripKeeps(s, t, |pre|);
    } else if j == |cs| - 1 {
      StripEnd(pre, cs, marks, t, s);
    } else {
      var a, b := pre + Joined(cs[..j + 1]), Marked(cs[j + 1..], marks[j + 1..], t);
      StripFirst(pre, cs, marks, t, s);
      StripMarked(a, cs[j + 1..], marks[j + 1..], t, a + b);
      StaysRest(cs, marks, t, j);
      PlainAround(pre, cs, j);
    }
  }

  lemma {:induction false} MarkedLast(cs: seq<string>, marks: seq<bool>, t: string)
    requires |cs| == |marks| && cs != []
    ensures var n := |cs| - 1;
            Marked(cs, marks, t) == Marked(cs[..n], marks[..n], t) + Part(cs[n], marks[n], t)
  {
    var n := |cs| - 1;
    if n == 0 {
      assert cs[1..] == [] && marks[1..] == [];
    } else {
      MarkedLast(cs[1..], marks[1..], t);
      assert cs[1..][..n - 1] == cs[..n][1..] && marks[1..][..n - 1] == marks[..n][1..];
      Assoc(Part(cs[0], marks[0], t), Marked(cs[..n][1..], marks[..n][1..], t), Part(cs[n], marks[n], t));
    }
  }

  lemma LastComponent(m: string, c: string, d: string)
    requires EndsIn(m + "/" + c, "/" + d)
    ensures c == d || '/' in c || '/' in d
  {
    var q := m + "/" + c;
    EndsInParts(q, d);
    if |d| < |c| {
      assert c[|c| - |d| - 1] == q[|q| - |d| - 1];
    } else if |d| > |c| {
      assert d[|d| - |c| - 1] == q[|m|];
    } else {
      assert q[|q| - |d|..] == c;
    }
  }

  lemma EndOfComponent(m: string, c: string, t: string)
    requires EndsIn(m + "/" + c, t) && t != ""
    ensures '/' in t || (|t| <= |c| && OccursAt(c + t, t, |c| - |t|))
  {
    var q := m + "/" + c;
    if |t| <= |c| {
      assert (c + t)[|c| - |t|..|c|] == q[|q| - |t|..];
    } else {
      assert t[|t| - |c| - 1] == q[|m|];
    }
  }

  lemma NotMistaken(cfg: Config, m: string, c: string)
    requires Proper(cfg) && Settled(c, cfg.forceDirSuffix) && c != cfg.dataFileName
    ensures !EndsIn(m + "/" + c, "/" + cfg.dataFileName) && !EndsIn(m + "/" + c, cfg.forceDirSuffix)
  {
    if EndsIn(m + "/" + c, "/" + cfg.dataFileName) { LastComponent(m, c, cfg.dataFileName); }
    if EndsIn(m + "/" + c, cfg.forceDirSuffix) { EndOfComponent(m, c, cfg.forceDirSuffix); }
  }

  lemma EmptyLeft(s: string)
    ensures "" + s == s
  {
  }

  lemma EmptyRight(s: string)
    ensures s + "" == s
  {
  }

  lemma StripWhole(cs: seq<string>, marks: seq<bool>, t: string)
    requires |cs| == |marks| && t != "" && SlashFree(t) && AllSettled(cs, t)
    ensures Stripped(Marked(cs, marks, t), t, 0) == Joined(cs) + (if Stays(cs, marks, t) then t else "")
  {
    EmptyLeft(Marked(cs, marks, t));
    EmptyLeft(Joined(cs));
    StripMarked("", cs, marks, t, Marked(cs, marks, t));
  }

  lemma StripUnmarked(cs: seq<string>, marks: seq<bool>, t: string)
    requires |cs| == |marks| && t != "" && SlashFree(t) && AllSettled(cs, t) && cs != [] && !marks[|cs| - 1]
    ensures Stripped(Marked(cs, marks, t), t, 0) == Joined(cs)
  {
    StripWhole(cs, marks, t);
    assert !Stays(cs, marks, t);
  }

  lemma PlainPath(cfg: Config, q: string)
    requires Proper(cfg) && |q| >= 2 && !EndsIn(q, "/" + cfg.dataFileName) && !EndsIn(q, cfg.forceDirSuffix)
    ensures ZkPath(cfg, q) == (Stripped(q, cfg.forceDirSuffix, 0), DefaultType)
  {
  }

  lemma DirPath(cfg: Config, q: string)
    requires Proper(cfg) && |q| >= 2
    ensures ZkPath(cfg, q + cfg.forceDirSuffix) == (Stripped(q, cfg.forceDirSuffix, 0), DirType)
  {
    SuffixIsNoDataName(cfg, q);
    TakeLeft(q, cfg.forceDirSuffix);
  }

  lemma DataPath(cfg: Config, q: string)
    requires Proper(cfg) && |q| >= 2
    ensures ZkPath(cfg, q + "/" + cfg.dataFileName) == (Stripped(q, cfg.forceDirSuffix, 0), RegType)
  {
    var d := cfg.dataFileName;
    Assoc(q, "/", d);
    TakeLeft(q, "/" + d);
  }

  lemma TakeLeft(q: string, e: string)
    ensures EndsIn(q + e, e) && (q + e)[..|q + e| - |e|] == q
  {
    assert (q + e)[|q|..] == e;
  }

  lemma LastMarked(cs: seq<string>, marks: seq<bool>, t: string)
    requires |cs| == |marks| && cs != [] && marks[|cs| - 1]
    ensures Marked(cs, marks, t) == Marked(cs, marks[|cs| - 1 := false], t) + t
  {
    var n := |cs| - 1;
    var less := marks[n := false];
    MarkedLast(cs, marks, t);
    MarkedLast(cs, less, t);
    assert less[..n] == marks[..n];
    Assoc(Marked(cs[..n], marks[..n], t), "/" + cs[n], t);
  }

  lemma MarkedLong(cs: seq<string>, marks: seq<bool>, t: string)
    requires |cs| == |marks| && cs != [] && AllSettled(cs, t)
    ensures |Marked(cs, marks, t)| >= 2
  {
    assert Settled(cs[0], t);
  }

  /** The suffix may force any of the components to be directories: the node is always
      that of the plain path. */
  lemma MarkedPathMapped(cfg: Config, cs: seq<string>, marks: seq<bool>)
    requires Proper(cfg) && |cs| == |marks| && cs != [] && AllSettled(cs, cfg.forceDirSuffix)
    requires marks[|cs| - 1] || cs[|cs| - 1] != cfg.dataFileName
    ensures var p := Marked(cs, marks, cfg.forceDirSuffix);
            p != "" && ZkPath(cfg, p) == (Joined(cs), if marks[|cs| - 1] then DirType else DefaultType)
  {
    var t, n := cfg.forceDirSuffix, |cs| - 1;
    MarkedLong(cs, marks, t);
    if marks[n] {
      var less := marks[n := false];
      MarkedLong(cs, less, t);
      LastMarked(cs, marks, t);
      DirPath(cfg, Marked(cs, less, t));
      StripUnmarked(cs, less, t);
    } else {
      MarkedLast(cs, marks, t);
      NotMistaken(cfg, Marked(cs[..n], marks[..n], t), cs[n]);
      Assoc(Marked(cs[..n], marks[..n], t), "/", cs[n]);
      assert "/" + cs[n] + "" == "/" + cs[n];
      PlainPath(cfg, Marked(cs, marks, t));
      StripUnmarked(cs, marks, t);
    }
  }

  /** The same for the data of a node, with the exact exception. */
  lemma MarkedDataMapped(cfg: Config, cs: seq<string>, marks: seq<bool>)
    requires Proper(cfg) && |cs| == |marks| && cs != [] && AllSettled(cs, cfg.forceDirSuffix)
    ensures var t := cfg.forceDirSuffix;
            ZkPath(cfg, Marked(cs, marks, t) + "/" + cfg.dataFileName) ==
            (Joined(cs) + (if Stays(cs, marks, t) then t else ""), RegType)
  {
    MarkedLong(cs, marks, cfg.forceDirSuffix);
    DataPath(cfg, Marked(cs, marks, cfg.forceDirSuffix));
    StripWhole(cs, marks, cfg.forceDirSuffix);
  }

  lemma MarkedOne(c: string, t: string)
    ensures Marked([c], [true], t) == "/" + c + t
  {
    var cs, marks := [c], [true];
    assert cs[1..] == [] && marks[1..] == [];
    EmptyRight(Part(cs[0], marks[0], t));
  }

  lemma OneComponent(c: string, t: string)
    requires t != ""
    ensures Marked([c], [true], t) == "/" + c + t && Joined([c]) == "/" + c
    ensures Stays([c], [true], t) <==> |t| < |c| && OccursAt(c, t, |c| - 1 - |t|) && Multiple(|c|, |t|)
  {
    MarkedOne(c, t);
    PlainOne(c);
    StaysOne([c], [true], t, c);
  }

  lemma StaysOne(cs: seq<string>, marks: seq<bool>, t: string, c: string)
    requires |cs| == |marks| == 1 && t != "" && marks[0] && cs[0] == c && |Joined(cs)| == 1 + |c|
    ensures Stays(cs, marks, t) <==> |t| < |c| && OccursAt(c, t, |c| - 1 - |t|) && Multiple(|c|, |t|)
  {
    StaysFirst(cs, marks, t, c, 1 + |c|);
  }

  /** With the default suffix: the data of "/abcde._dir_f._dir_" is looked for at a node
      whose name keeps the suffix. */
  lemma DataSuffixStays(cfg: Config)
    requires cfg.forceDirSuffix == "._dir_" && cfg.dataFileName == "_data_"
    ensures Stays(["abcde._dir_f"], [true], "._dir_")
    ensures ZkPath(cfg, "/" + "abcde._dir_f" + "._dir_" + "/" + "_data_") ==
            ("/" + "abcde._dir_f" + "._dir_", RegType)
  {
    var t, c := "._dir_", "abcde._dir_f";
    OneComponent(c, t);
    SixTwice(12);
    assert OccursAt(c, t, 5) by { assert c[5..11] == t; }
    DotsOnly(c, t);
    assert "_data_"[|"_data_"| - 1] == '_';
    MarkedDataMapped(cfg, [c], [true]);
  }

  lemma SixTwice(d: nat)
    requires d == 12
    ensures Multiple(d, 6)
  {
    assert Multiple(0, 6) && Multiple(6, 6);
  }

  lemma DotsOnly(c: string, t: string)
    requires c == "abcde._dir_f" && t == "._dir_"
    ensures Settled(c, t) && SlashFree(t)
  {
    forall i | 0 <= i < |c| && OccursAt(c + t, t, i) ensures i == 5 {
      assert (c + t)[i..i + 6][0] == '.';
      assert (c + t)[i] == c[i];
    }
  }

  // ------------------------------------------------- suffixes that overlap

  /** The suffix can start inside itself. */
  predicate Overlaps(t: string) {
    exists p | 0 < p < |t| :: t[p..] == t[..|t| - p]
  }

  /** A component that does not contain the suffix. */
  predicate Without(c: string, t: string) {
    c != "" && SlashFree(c) && forall i | 0 <= i <= |c| :: !OccursAt(c, t, i)
  }

  predicate AllWithout(cs: seq<string>, t: string) {
    forall i | 0 <= i < |cs| :: Without(cs[i], t)
  }

  lemma OccurrenceOverlaps(c: string, t: string, i: nat)
    requires i < |c| && OccursAt(c + t, t, i)
    ensures OccursAt(c, t, i) || Overlaps(t)
  {
    var p := |c| - i;
    if p >= |t| {
      assert c[i..i + |t|] == (c + t)[i..i + |t|];
    } else {
      assert t[p..] == (c + t)[i..i + |t|][p..];
      assert t[..|t| - p] == (c + t)[|c|..i + |t|];
    }
  }

  /** For a suffix that does not overlap itself the components in question are all those
      that do not end in it. */
  lemma NoOverlapSettled(c: string, t: string)
    requires t != "" && c != "" && SlashFree(c) && !Overlaps(t)
    ensures Settled(c, t) <==> !EndsIn(c, t)
  {
    forall i | 0 <= i < |c| && OccursAt(c + t, t, i) ensures i + |t| < |c| || EndsIn(c, t) {
      OccurrenceOverlaps(c, t, i);
      assert i + |t| == |c| ==> c[i..i + |t|] == c[i..];
    }
    if EndsIn(c, t) {
      var i := |c| - |t|;
      assert (c + t)[i..i + |t|] == c[i..];
      assert OccursAt(c + t, t, i);
    }
  }

  lemma WithoutSettled(c: string, t: string)
    requires t != "" && Without(c, t) && !Overlaps(t)
    ensures Settled(c, t)
  {
    NoOverlapSettled(c, t);
    if EndsIn(c, t) { EndsOccurs(c, t); }
  }

  function Filler(n: nat, z: char): (x: string)
    ensures |x| == n && forall i | 0 <= i < n :: x[i] == z
  {
    seq(n, _ => z)
  }

  /** The path on which a suffix that overlaps itself by all but p characters stays:
      the search steps over the middle of the component's end. */
  function Awkward(t: string, p: nat): (cs: seq<string>)
    requires 0 < p < |t|
    ensures |cs| == 2
  {
    [Filler(2 * |t| - 2, if t[0] == 'a' then 'b' else 'a'), t[..p]]
  }

  lemma AwkwardWithout(t: string, p: nat)
    requires 0 < p < |t| && SlashFree(t)
    ensures AllWithout(Awkward(t, p), t)
  {
    var x := Awkward(t, p)[0];
    forall i | 0 <= i <= |x| ensures !OccursAt(x, t, i) {
      assert i + |t| <= |x| ==> x[i..i + |t|][0] != t[0];
    }
  }

  lemma TwoParts(x: string, c: string, t: string)
    ensures Marked([x, c], [false, true], t) == "" + Part(x, false, t) + Part(c, true, t)
    ensures Marked([x, c], [false, true], t) == "/" + x + "/" + (c + t)
  {
    assert [x, c][1..] == [c] && [false, true][1..] == [true] && [c][1..] == [] && [true][1..] == [];
    assert Marked([c], [true], t) == Part(c, true, t) + "";
    assert Marked([x, c], [false, true], t) == Part(x, false, t) + Marked([c], [true], t);
  }

  lemma AwkwardPath(t: string, p: nat)
    requires 0 < p < |t| && SlashFree(t) && t[p..] == t[..|t| - p]
    ensures var s := Marked(Awkward(t, p), [false, true], t);
            |s| == 3 * |t| + p && FirstMark(s, t, 0, 2 * |t|) && !ComponentEnds(s, 3 * |t|)
  {
    var x, c := Awkward(t, p)[0], t[..p];
    AwkwardWithout(t, p);
    TwoParts(x, c, t);
    PeriodHead(t, p);
    AwkwardText("/" + x + "/" + (c + t), x, c, t, p);
    assert Awkward(t, p) == [x, c];
  }

  lemma AwkwardText(s: string, x: string, c: string, t: string, p: nat)
    requires 0 < p < |t| && SlashFree(t) && |x| == 2 * |t| - 2 && c == t[..p] && (c + t)[..|t|] == t
    requires s == "/" + x + "/" + (c + t) && forall i | 0 <= i < |x| :: x[i] != t[0]
    ensures |s| == 3 * |t| + p && FirstMark(s, t, 0, 2 * |t|) && !ComponentEnds(s, 3 * |t|)
  {
    var f := 2 * |t|;
    forall i | 0 <= i < f ensures !OccursAt(s, t, i) {
      assert i + |t| <= |s| ==> s[i..i + |t|][0] == s[i];
      if 0 < i < f - 1 { assert s[i] == x[i - 1]; }
    }
    assert s[f..] == c + t && s[f..f + |t|] == (c + t)[..|t|];
    assert s[f + |t|] == (c + t)[|t|] == t[|t| - p];
  }

  lemma PeriodHead(t: string, p: nat)
    requires 0 < p < |t| && t[p..] == t[..|t| - p]
    ensures (t[..p] + t)[..|t|] == t
  {
    assert (t[..p] + t)[..|t|] == t[..p] + t[..|t| - p] == t[..p] + t[p..];
  }

  lemma MissedText(s: string, t: string, p: nat)
    requires 0 < p < |t| && |s| == 3 * |t| + p && FirstMark(s, t, 0, 2 * |t|) && !ComponentEnds(s, 3 * |t|)
    ensures Stripped(s, t, 0) == s
  {
    var n := |t|;
    FindFirst(s, t, 0, 2 * n);
    SkipRound(s, t, 0, 2 * n);
    FindFirst(s, t, n, 2 * n);
    SkipRound(s, t, n, 2 * n);
    if p == 1 {
    } else {
      FindFirst(s, t, 2 * n, 2 * n);
      SkipRound(s, t, 2 * n, 2 * n);
    }
  }

  lemma OverlapIsMissed(t: string, p: nat)
    requires 0 < p < |t| && SlashFree(t) && t[p..] == t[..|t| - p]
    ensures !StripsRight(Awkward(t, p), [false, true], t)
  {
    AwkwardWithout(t, p);
    AwkwardPath(t, p);
    MissedText(Marked(Awkward(t, p), [false, true], t), t, p);
    TwoPlain(Awkward(t, p)[0], Awkward(t, p)[1]);
    assert Awkward(t, p) == [Awkward(t, p)[0], Awkward(t, p)[1]];
  }

  lemma TwoPlain(x: string, c: string)
    ensures |Joined([x, c])| == |x| + |c| + 2
  {
    assert [x, c][1..] == [c] && [c][1..] == [];
    assert Joined([c]) == "/" + c + "" && Joined([x, c]) == "/" + x + Joined([c]);
  }

  ghost predicate StripsRight(cs: seq<string>, marks: seq<bool>, t: string)
    requires t != ""
  {
    |cs| == |marks| && AllWithout(cs, t) ==> Stripped(Marked(cs, marks, t), t, 0) == Joined(cs)
  }

  /** Removing the suffix wherever components end in it works for all paths of
      components that do not contain it exactly when it does not overlap itself. */
  lemma StripExactIff(t: string)
    requires t != "" && SlashFree(t)
    ensures (forall cs, marks :: StripsRight(cs, marks, t)) <==> !Overlaps(t)
  {
    if Overlaps(t) {
      var p :| 0 < p < |t| && t[p..] == t[..|t| - p];
      OverlapIsMissed(t, p);
    } else {
      forall cs, marks ensures StripsRight(cs, marks, t) {
        if |cs| == |marks| && AllWithout(cs, t) {
          forall i | 0 <= i < |cs| ensures Settled(cs[i], t) { WithoutSettled(cs[i], t); }
          StripWhole(cs, marks, t);
        }
      }
    }
  }
}
