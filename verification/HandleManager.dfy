/** The handles of a file system: a path map, a handle vector, a free list, reference
    counts, and a bounded cache of closed files, under any interleaving of its users. */
module HandleManager {
  import opened Prelude

  datatype File = File(path: string, refCount: nat, openDirCount: nat)

  /** The last two fields record who holds what: a handle is in held once for every
      opener, and in dirs once for every opener that counts as an open directory. */
  datatype State = State(files: seq<Option<File>>, paths: map<string, nat>, freeList: seq<nat>, numInUse: int,
                         held: multiset<nat>, dirs: multiset<nat>)

  function Initial(): State {
    State([None], map[], [], 0, multiset{}, multiset{})
  }

  // --------------------------------------------------------------- counting

  datatype Use = Vacant | Cached | InUse

  function UseOf(f: Option<File>): Use {
    if f.None? then Vacant else if f.value.refCount == 0 then Cached else InUse
  }

  function One(f: Option<File>, u: Use): nat {
    if UseOf(f) == u then 1 else 0
  }

  function Count(fs: seq<Option<File>>, u: Use): (n: nat)
    ensures n <= |fs|
  {
    if fs == [] then 0 else One(fs[0], u) + Count(fs[1..], u)
  }

  lemma {:induction false} CountAll(fs: seq<Option<File>>)
    ensures Count(fs, Vacant) + Count(fs, Cached) + Count(fs, InUse) == |fs|
  {
    if fs != [] { CountAll(fs[1..]); }
  }

  lemma {:induction false} CountUpdate(fs: seq<Option<File>>, h: nat, f: Option<File>, u: Use)
    requires h < |fs|
    ensures Count(fs[h := f], u) == Count(fs, u) - One(fs[h], u) + One(f, u)
  {
    if h > 0 {
      assert fs[h := f][1..] == fs[1..][h - 1 := f];
      CountUpdate(fs[1..], h - 1, f, u);
    }
  }

  lemma {:induction false} CountAppend(fs: seq<Option<File>>, f: Option<File>, u: Use)
    ensures Count(fs + [f], u) == Count(fs, u) + One(f, u)
  {
    if fs == [] {
      assert [f][1..] == [];
    } else {
      assert (fs + [f])[1..] == fs[1..] + [f];
      CountAppend(fs[1..], f, u);
    }
  }

  lemma {:induction false} CountSome(fs: seq<Option<File>>, h: nat)
    requires h < |fs|
    ensures Count(fs, UseOf(fs[h])) >= 1
  {
    if h > 0 { CountSome(fs[1..], h - 1); }
  }

  // ------------------------------------------------------------------ steps

  datatype Action =
    | Allocate(path: string)
    | Acquire(handle: nat)
    | Deallocate(handle: nat)
    | OpenDir(handle: nat)
    | CloseDir(handle: nat)

  predicate Occupied(s: State, h: nat) {
    h < |s.files| && s.files[h].Some?
  }

  /** What each user may do: events take any file that is there, and only a holder
      releases, or changes how it holds. */
  predicate Enabled(s: State, a: Action) {
    match a
    case Allocate(p) => true
    case Acquire(h) => Occupied(s, h)
    case Deallocate(h) => h in s.held
    case OpenDir(h) => h in s.held
    case CloseDir(h) => h in s.dirs
  }

  function Acquired(s: State, h: nat): State
    requires Occupied(s, h)
  {
    var f := s.files[h].value;
    s.(files := s.files[h := Some(f.(refCount := f.refCount + 1))],
       numInUse := s.numInUse + (if f.refCount == 0 then 1 else 0),
       held := s.held + multiset{h})
  }

  function NextHandle(s: State): nat {
    if s.freeList == [] then |s.files| else s.freeList[|s.freeList| - 1]
  }

  function Created(s: State, p: string): State
    requires NextHandle(s) <= |s.files|
  {
    var h, f := NextHandle(s), Some(File(p, 1, 0));
    State(if h == |s.files| then s.files + [f] else s.files[h := f], s.paths[p := h],
          if s.freeList == [] then [] else s.freeList[..|s.freeList| - 1],
          s.numInUse + 1, s.held + multiset{h}, s.dirs)
  }

  function Released(s: State, cacheSize: nat, h: nat): State
    requires Occupied(s, h) && s.files[h].value.refCount > 0
  {
    var f := s.files[h].value;
    var held := s.held - multiset{h};
    if f.refCount > 1 then
      s.(files := s.files[h := Some(f.(refCount := f.refCount - 1))], held := held)
    else if |s.files| - (s.numInUse - 1) > cacheSize then
      s.(files := s.files[h := None], paths := s.paths - {f.path}, freeList := s.freeList + [h],
         numInUse := s.numInUse - 1, held := held)
    else
      s.(files := s.files[h := Some(f.(refCount := 0))], numInUse := s.numInUse - 1, held := held)
  }

  // ------------------------------------------------------------- invariants

  /** The path map and the files that are there are inverse to each other. */
  predicate Inverse(s: State) {
    && (forall p | p in s.paths :: Occupied(s, s.paths[p]) && s.files[s.paths[p]].value.path == p)
    && (forall h | 0 <= h < |s.files| && s.files[h].Some? ::
          s.files[h].value.path in s.paths && s.paths[s.files[h].value.path] == h)
  }

  /** The free list has every vacant handle but 0 once, and no other. */
  predicate FreeExact(s: State) {
    && s.files != [] && s.files[0].None?
    && (forall i, j | 0 <= i < j < |s.freeList| :: s.freeList[i] != s.freeList[j])
    && (forall h | h in s.freeList :: 0 < h < |s.files| && s.files[h].None?)
    && (forall h | 0 < h < |s.files| && s.files[h].None? :: h in s.freeList)
  }

  predicate CountsAt(s: State, h: nat) {
    if Occupied(s, h)
    then s.files[h].value.refCount == s.held[h] + s.dirs[h] && s.files[h].value.openDirCount == s.dirs[h]
    else s.held[h] == 0 && s.dirs[h] == 0
  }

  /** The counts of every file are the numbers of its holders, and nobody holds a
      handle without a file. */
  ghost predicate Counted(s: State) {
    forall h: nat :: CountsAt(s, h)
  }

  /** The cache of closed files stays below its size, if there is one at all. */
  predicate Bounded(s: State, cacheSize: nat) {
    && s.numInUse == Count(s.files, InUse)
    && (Count(s.files, Cached) == 0 || Count(s.files, Cached) < cacheSize)
  }

  ghost predicate Inv(s: State, cacheSize: nat) {
    Inverse(s) && FreeExact(s) && Counted(s) && Bounded(s, cacheSize)
  }
  // ------------------------------------------------------------------- runs

  function DirOpened(s: State, h: nat): State
    requires Occupied(s, h)
  {
    var f := s.files[h].value;
    s.(files := s.files[h := Some(f.(openDirCount := f.openDirCount + 1))],
       held := s.held - multiset{h}, dirs := s.dirs + multiset{h})
  }

  function DirClosed(s: State, h: nat): State
    requires Occupied(s, h) && s.files[h].value.openDirCount > 0
  {
    var f := s.files[h].value;
    s.(files := s.files[h := Some(f.(openDirCount := f.openDirCount - 1))],
       held := s.held + multiset{h}, dirs := s.dirs - multiset{h})
  }

  /** A holder's handle has a file with the counts that its release needs: no check on
      a count or a file can fail. */
  lemma HolderIsSafe(s: State, cacheSize: nat, h: nat)
    requires Inv(s, cacheSize) && (h in s.held || h in s.dirs)
    ensures Occupied(s, h) && s.files[h].value.openDirCount <= s.files[h].value.refCount && s.numInUse >= 1
    ensures h in s.held ==> s.files[h].value.openDirCount < s.files[h].value.refCount
    ensures h in s.dirs ==> s.files[h].value.openDirCount > 0
  {
    assert CountsAt(s, h);
    CountSome(s.files, h);
  }

  lemma NextIsVacant(s: State, cacheSize: nat)
    requires Inv(s, cacheSize)
    ensures 0 < NextHandle(s) <= |s.files| && !Occupied(s, NextHandle(s))
    ensures s.freeList == [] ==> NextHandle(s) == |s.files|
    ensures s.freeList != [] ==> NextHandle(s) < |s.files|
  {
    if s.freeList != [] {
      assert s.freeList[|s.freeList| - 1] in s.freeList;
    }
  }

  /** The checks that the code makes on the way: the file is there, a new one takes a
      vacant slot, and no count goes below zero or the directory count above all. */
  predicate Defined(s: State, a: Action) {
    match a
    case Allocate(p) =>
      if p in s.paths then Occupied(s, s.paths[p])
      else 0 < NextHandle(s) <= |s.files| && !Occupied(s, NextHandle(s))
    case Acquire(h) => Occupied(s, h)
    case Deallocate(h) => Occupied(s, h) && s.files[h].value.refCount > 0 && s.numInUse > 0
    case OpenDir(h) => Occupied(s, h) && s.files[h].value.openDirCount < s.files[h].value.refCount
    case CloseDir(h) => Occupied(s, h) && 0 < s.files[h].value.openDirCount <= s.files[h].value.refCount
  }

  function Step(s: State, cacheSize: nat, a: Action): State
    requires Defined(s, a)
  {
    match a
    case Allocate(p) => if p in s.paths then Acquired(s, s.paths[p]) else Created(s, p)
    case Acquire(h) => Acquired(s, h)
    case Deallocate(h) => Released(s, cacheSize, h)
    case OpenDir(h) => DirOpened(s, h)
    case CloseDir(h) => DirClosed(s, h)
  }

  /** Whatever a user may do passes those checks. */
  lemma ChecksPass(s: State, cacheSize: nat, a: Action)
    requires Inv(s, cacheSize) && Enabled(s, a)
    ensures Defined(s, a)
  {
    NextIsVacant(s, cacheSize);
    match a
    case Allocate(p) =>
    case Acquire(h) =>
    case Deallocate(h) => HolderIsSafe(s, cacheSize, h);
    case OpenDir(h) => HolderIsSafe(s, cacheSize, h);
    case CloseDir(h) => HolderIsSafe(s, cacheSize, h);
  }

  // ------------------------------------------------------ every step keeps it

  lemma InitialInv(cacheSize: nat)
    ensures Inv(Initial(), cacheSize)
  {
  }

  lemma RecountCounted(s: State, h: nat, f: File, t: State)
    requires Counted(s) && Occupied(s, h) && t.files == s.files[h := Some(f)]
    requires f.refCount == t.held[h] + t.dirs[h] && f.openDirCount == t.dirs[h]
    requires forall k: nat | k != h :: t.held[k] == s.held[k] && t.dirs[k] == s.dirs[k]
    ensures Counted(t)
  {
    forall k: nat ensures CountsAt(t, k) { assert CountsAt(s, k); }
  }

  lemma RecountBounded(s: State, cacheSize: nat, h: nat, f: File, t: State)
    requires Bounded(s, cacheSize) && Occupied(s, h) && t.files == s.files[h := Some(f)]
    requires t.numInUse == s.numInUse - One(s.files[h], InUse) + One(Some(f), InUse)
    requires f.refCount > 0
    ensures Bounded(t, cacheSize)
  {
    CountUpdate(s.files, h, Some(f), InUse);
    CountUpdate(s.files, h, Some(f), Cached);
  }

  lemma AcquiredInv(s: State, cacheSize: nat, h: nat)
    requires Inv(s, cacheSize) && Occupied(s, h)
    ensures Inv(Acquired(s, h), cacheSize)
  {
    var t := Acquired(s, h);
    assert CountsAt(s, h);
    RecountCounted(s, h, t.files[h].value, t);
    RecountBounded(s, cacheSize, h, t.files[h].value, t);
  }

  lemma DirOpenedInv(s: State, cacheSize: nat, h: nat)
    requires Inv(s, cacheSize) && h in s.held && Occupied(s, h)
    ensures Inv(DirOpened(s, h), cacheSize)
  {
    var t := DirOpened(s, h);
    assert CountsAt(s, h);
    RecountCounted(s, h, t.files[h].value, t);
    RecountBounded(s, cacheSize, h, t.files[h].value, t);
  }

  lemma DirClosedInv(s: State, cacheSize: nat, h: nat)
    requires Inv(s, cacheSize) && h in s.dirs && Occupied(s, h) && s.files[h].value.openDirCount > 0
    ensures Inv(DirClosed(s, h), cacheSize)
  {
    var t := DirClosed(s, h);
    assert CountsAt(s, h);
    RecountCounted(s, h, t.files[h].value, t);
    RecountBounded(s, cacheSize, h, t.files[h].value, t);
  }

  lemma CreatedInv(s: State, cacheSize: nat, p: string)
    requires Inv(s, cacheSize) && p !in s.paths && NextHandle(s) <= |s.files|
    ensures Inv(Created(s, p), cacheSize)
  {
    NextIsVacant(s, cacheSize);
    var h, f, t := NextHandle(s), Some(File(p, 1, 0)), Created(s, p);
    forall k: nat ensures CountsAt(t, k) { assert CountsAt(s, k); }
    CreatedInverse(s, cacheSize, p);
    CreatedFree(s, cacheSize, p);
    CreatedBounded(s, cacheSize, p);
  }

  lemma CreatedInverse(s: State, cacheSize: nat, p: string)
    requires Inv(s, cacheSize) && p !in s.paths && NextHandle(s) <= |s.files|
    ensures Inverse(Created(s, p))
  {
    NextIsVacant(s, cacheSize);
    var h, t := NextHandle(s), Created(s, p);
    forall k | 0 <= k < |t.files| && t.files[k].Some?
      ensures t.files[k].value.path in t.paths && t.paths[t.files[k].value.path] == k
    {
      assert k != h ==> t.files[k] == s.files[k];
    }
  }

  lemma CreatedFree(s: State, cacheSize: nat, p: string)
    requires Inv(s, cacheSize) && p !in s.paths && NextHandle(s) <= |s.files|
    ensures FreeExact(Created(s, p))
  {
    NextIsVacant(s, cacheSize);
    var h, t := NextHandle(s), Created(s, p);
    forall k | k in t.freeList ensures 0 < k < |t.files| && t.files[k].None? {
      assert k in s.freeList && k != h;
    }
    forall k | 0 < k < |t.files| && t.files[k].None? ensures k in t.freeList {
      assert k != h && k in s.freeList;
    }
  }

  lemma CreatedBounded(s: State, cacheSize: nat, p: string)
    requires Inv(s, cacheSize) && p !in s.paths && NextHandle(s) <= |s.files|
    ensures Bounded(Created(s, p), cacheSize)
  {
    NextIsVacant(s, cacheSize);
    var h, f := NextHandle(s), Some(File(p, 1, 0));
    if h == |s.files| {
      CountAppend(s.files, f, InUse);
      CountAppend(s.files, f, Cached);
    } else {
      CountUpdate(s.files, h, f, InUse);
      CountUpdate(s.files, h, f, Cached);
    }
  }

  lemma ReleasedInv(s: State, cacheSize: nat, h: nat)
    requires Inv(s, cacheSize) && h in s.held && Occupied(s, h) && s.files[h].value.refCount > 0
    ensures Inv(Released(s, cacheSize, h), cacheSize)
  {
    var f, t := s.files[h].value, Released(s, cacheSize, h);
    assert CountsAt(s, h);
    if f.refCount > 1 {
      RecountCounted(s, h, t.files[h].value, t);
      RecountBounded(s, cacheSize, h, t.files[h].value, t);
    } else if |s.files| - (s.numInUse - 1) > cacheSize {
      ReclaimedInv(s, cacheSize, h);
    } else {
      RecountCounted(s, h, t.files[h].value, t);
      CachedBounded(s, cacheSize, h);
    }
  }

  /** Slot 0 and the free slots count against the cache, so a file is kept only while
      the cache has room to spare. */
  lemma CachedBounded(s: State, cacheSize: nat, h: nat)
    requires Inv(s, cacheSize) && Occupied(s, h) && s.files[h].value.refCount == 1
    requires |s.files| - (s.numInUse - 1) <= cacheSize
    ensures Bounded(Released(s, cacheSize, h), cacheSize)
  {
    var t := Released(s, cacheSize, h);
    CountUpdate(s.files, h, t.files[h], InUse);
    CountAll(t.files);
    CountSome(t.files, 0);
  }

  lemma ReclaimedInv(s: State, cacheSize: nat, h: nat)
    requires Inv(s, cacheSize) && h in s.held && Occupied(s, h) && s.files[h].value.refCount == 1
    requires |s.files| - (s.numInUse - 1) > cacheSize
    ensures Inv(Released(s, cacheSize, h), cacheSize)
  {
    var t := Released(s, cacheSize, h);
    CountUpdate(s.files, h, None, InUse);
    CountUpdate(s.files, h, None, Cached);
    ReclaimedMaps(s, cacheSize, h);
    assert CountsAt(s, h);
    forall k: nat ensures CountsAt(t, k) { assert CountsAt(s, k); }
  }

  lemma ReclaimedMaps(s: State, cacheSize: nat, h: nat)
    requires Inverse(s) && FreeExact(s) && Occupied(s, h) && s.files[h].value.refCount == 1
    requires |s.files| - (s.numInUse - 1) > cacheSize
    ensures Inverse(Released(s, cacheSize, h)) && FreeExact(Released(s, cacheSize, h))
  {
    var t := Released(s, cacheSize, h);
    assert h !in s.freeList;
    forall k | 0 < k < |t.files| && t.files[k].None? ensures k in t.freeList {
      assert k == h || k in s.freeList;
    }
  }

  lemma StepInv(s: State, cacheSize: nat, a: Action)
    requires Inv(s, cacheSize) && Enabled(s, a) && Defined(s, a)
    ensures Inv(Step(s, cacheSize, a), cacheSize)
  {
    NextIsVacant(s, cacheSize);
    match a
    case Allocate(p) => if p in s.paths { AcquiredInv(s, cacheSize, s.paths[p]); } else { CreatedInv(s, cacheSize, p); }
    case Acquire(h) => AcquiredInv(s, cacheSize, h);
    case Deallocate(h) => HolderIsSafe(s, cacheSize, h); ReleasedInv(s, cacheSize, h);
    case OpenDir(h) => HolderIsSafe(s, cacheSize, h); DirOpenedInv(s, cacheSize, h);
    case CloseDir(h) => HolderIsSafe(s, cacheSize, h); DirClosedInv(s, cacheSize, h);
  }

  ghost predicate Next(s: State, cacheSize: nat, t: State) {
    exists a :: Enabled(s, a) && Defined(s, a) && t == Step(s, cacheSize, a)
  }

  /** Any interleaving of steps, from the empty table. */
  ghost predicate Run(run: seq<State>, cacheSize: nat) {
    && run != [] && run[0] == Initial()
    && forall i, j | 0 <= i && j == i + 1 < |run| :: Next(run[i], cacheSize, run[j])
  }

  lemma NextInv(s: State, cacheSize: nat, t: State)
    requires Inv(s, cacheSize) && Next(s, cacheSize, t)
    ensures Inv(t, cacheSize)
  {
    var a :| Enabled(s, a) && Defined(s, a) && t == Step(s, cacheSize, a);
    StepInv(s, cacheSize, a);
  }

  lemma {:induction false} RunInv(run: seq<State>, cacheSize: nat, n: nat)
    requires Run(run, cacheSize) && n < |run|
    ensures Inv(run[n], cacheSize)
  {
    if n == 0 {
      InitialInv(cacheSize);
    } else {
      RunInv(run, cacheSize, n - 1);
      assert Next(run[n - 1], cacheSize, run[n]);
      NextInv(run[n - 1], cacheSize, run[n]);
    }
  }

  lemma RunStep(run: seq<State>, cacheSize: nat, n: nat)
    requires Run(run, cacheSize) && 0 < n < |run|
    ensures Inv(run[n - 1], cacheSize) && Next(run[n - 1], cacheSize, run[n])
  {
    RunInv(run, cacheSize, n - 1);
  }

  // ------------------------------------------------------ held handles stay

  function Holders(s: State, h: nat): nat {
    s.held[h] + s.dirs[h]
  }

  function PathOf(s: State, h: nat): Option<string> {
    if Occupied(s, h) then Some(s.files[h].value.path) else None
  }

  lemma HolderHasPath(s: State, cacheSize: nat, h: nat)
    requires Inv(s, cacheSize) && Holders(s, h) > 0
    ensures PathOf(s, h).Some?
  {
    HolderIsSafe(s, cacheSize, h);
  }

  lemma ReleasedPath(s: State, cacheSize: nat, g: nat, h: nat)
    requires Occupied(s, g) && s.files[g].value.refCount > 0 && Occupied(s, h)
    requires CountsAt(s, g) && (g == h ==> s.files[h].value.refCount > 1)
    ensures PathOf(Released(s, cacheSize, g), h) == PathOf(s, h)
  {
  }

  lemma CreatedPath(s: State, p: string, h: nat)
    requires NextHandle(s) <= |s.files| && !Occupied(s, NextHandle(s)) && Occupied(s, h)
    ensures PathOf(Created(s, p), h) == PathOf(s, h)
  {
  }

  lemma StepPath(s: State, cacheSize: nat, a: Action, h: nat)
    requires Defined(s, a) && Occupied(s, h) && Enabled(s, a) && Counted(s)
    requires Holders(Step(s, cacheSize, a), h) > 0
    ensures PathOf(Step(s, cacheSize, a), h) == PathOf(s, h)
  {
    assert CountsAt(s, h);
    match a
    case Allocate(p) => if p !in s.paths { CreatedPath(s, p, h); }
    case Acquire(g) =>
    case Deallocate(g) => assert CountsAt(s, g); ReleasedPath(s, cacheSize, g, h);
    case OpenDir(g) =>
    case CloseDir(g) =>
  }

  lemma NextPath(s: State, cacheSize: nat, t: State, h: nat)
    requires Inv(s, cacheSize) && Next(s, cacheSize, t) && Holders(s, h) > 0 && Holders(t, h) > 0
    ensures PathOf(t, h) == PathOf(s, h)
  {
    HolderHasPath(s, cacheSize, h);
    var a :| Enabled(s, a) && Defined(s, a) && t == Step(s, cacheSize, a);
    StepPath(s, cacheSize, a, h);
  }

  /** As long as somebody holds a handle it names the file that it named at first. */
  lemma {:induction false} HeldHandleKeepsPath(run: seq<State>, cacheSize: nat, h: nat, m: nat, n: nat)
    requires Run(run, cacheSize) && m <= n < |run| && forall i | m <= i <= n :: Holders(run[i], h) > 0
    ensures PathOf(run[n], h) == PathOf(run[m], h) && PathOf(run[m], h).Some?
    decreases n
  {
    if n == m {
      RunInv(run, cacheSize, m);
      HolderHasPath(run[m], cacheSize, h);
    } else {
      HeldHandleKeepsPath(run, cacheSize, h, m, n - 1);
      RunStep(run, cacheSize, n);
      NextPath(run[n - 1], cacheSize, run[n], h);
    }
  }

  /** Two held handles are the same exactly when they name the same path. */
  lemma OneHandlePerPath(run: seq<State>, cacheSize: nat, n: nat, g: nat, h: nat)
    requires Run(run, cacheSize) && n < |run| && Holders(run[n], g) > 0 && Holders(run[n], h) > 0
    ensures PathOf(run[n], g) == PathOf(run[n], h) <==> g == h
  {
    RunInv(run, cacheSize, n);
    HolderIsSafe(run[n], cacheSize, g);
    HolderIsSafe(run[n], cacheSize, h);
  }

  /** Closed files that stay are always fewer than the cache size, or none; the count
      that decides it never runs below zero. */
  lemma CacheIsBounded(run: seq<State>, cacheSize: nat, n: nat)
    requires Run(run, cacheSize) && n < |run|
    ensures Count(run[n].files, Cached) == 0 || Count(run[n].files, Cached) < cacheSize
    ensures run[n].numInUse == Count(run[n].files, InUse)
    ensures 0 <= run[n].numInUse < |run[n].files|
  {
    RunInv(run, cacheSize, n);
    CountAll(run[n].files);
    CountSome(run[n].files, 0);
  }

  // --------------------------------------------------- which files are kept

  function VacantSlots(fs: seq<Option<File>>): set<nat> {
    set h: nat | h < |fs| && fs[h].None?
  }

  lemma {:induction false} VacantCount(fs: seq<Option<File>>)
    ensures Count(fs, Vacant) == |VacantSlots(fs)|
  {
    if fs != [] {
      var n := |fs| - 1;
      var front := fs[..n];
      assert fs == front + [fs[n]];
      VacantCount(front);
      CountAppend(front, fs[n], Vacant);
      assert VacantSlots(fs) == VacantSlots(front) + (if fs[n].None? then {n} else {});
    }
  }

  function Slots(l: seq<nat>): set<nat> {
    set h | h in l
  }

  lemma {:induction false} DistinctCount(l: seq<nat>)
    requires forall i, j | 0 <= i < j < |l| :: l[i] != l[j]
    ensures |Slots(l)| == |l|
  {
    if l != [] {
      var front, last := l[..|l| - 1], l[|l| - 1];
      assert l == front + [last] && last !in front;
      DistinctCount(front);
      assert Slots(l) == Slots(front) + {last};
    }
  }

  /** Slot 0 and the free list are the vacant slots. */
  lemma VacantIsFree(s: State)
    requires FreeExact(s)
    ensures Count(s.files, Vacant) == |s.freeList| + 1
  {
    VacantCount(s.files);
    DistinctCount(s.freeList);
    assert VacantSlots(s.files) == Slots(s.freeList) + {0};
  }

  /** The last close of a file keeps it in the cache exactly when slot 0, the free slots
      and all closed files, this one included, fit into the cache size. */
  lemma KeptIff(s: State, cacheSize: nat, h: nat)
    requires Inv(s, cacheSize) && Occupied(s, h) && s.files[h].value.refCount == 1
    ensures Occupied(Released(s, cacheSize, h), h) <==> |s.freeList| + 1 + Count(s.files, Cached) + 1 <= cacheSize
  {
    CountAll(s.files);
    VacantIsFree(s);
  }

  /** The rule in the words of the documentation: reclaim when the unused file instances
      exceed the cache size. The formula beside these words counts vacant slots, too, as the
      code does. */
  predicate KeptByRule(s: State, cacheSize: nat) {
    Count(s.files, Cached) + 1 <= cacheSize
  }

  /** The code keeps to the words exactly when the cache is full already or the vacant
      slots fit in, too. Otherwise it reclaims a file that the rule keeps. */
  lemma FollowsRuleIff(s: State, cacheSize: nat, h: nat)
    requires Inv(s, cacheSize) && Occupied(s, h) && s.files[h].value.refCount == 1
    ensures (Occupied(Released(s, cacheSize, h), h) <==> KeptByRule(s, cacheSize)) <==>
            !KeptByRule(s, cacheSize) || |s.freeList| + 1 + Count(s.files, Cached) + 1 <= cacheSize
    ensures Occupied(Released(s, cacheSize, h), h) ==> KeptByRule(s, cacheSize)
  {
    KeptIff(s, cacheSize, h);
  }

  /** With a cache of one file, a file that is opened and closed is not kept. */
  lemma CacheOfOneKeepsNone(path: string)
    ensures var used := Created(Initial(), path);
            var after := Released(used, 1, 1);
            && Run([Initial(), used, after], 1)
            && KeptByRule(used, 1) && after.files == [None, None] && path !in after.paths
  {
    var used := Created(Initial(), path);
    var after := Released(used, 1, 1);
    assert Step(Initial(), 1, Allocate(path)) == used && Step(used, 1, Deallocate(1)) == after;
    assert Enabled(Initial(), Allocate(path)) && Defined(Initial(), Allocate(path));
    assert Enabled(used, Deallocate(1)) && Defined(used, Deallocate(1));
    assert Next(Initial(), 1, used) && Next(used, 1, after);
    assert used.files[1..] == [Some(File(path, 1, 0))] && used.files[1..][1..] == [];
  }

  // ----------------------------------------------------------------- events

  /** The steps before and after a file is told of an event. */
  function Begun(s: State, h: nat): State
    requires Occupied(s, h)
  {
    DirOpened(Acquired(s, h), h)
  }

  function Ended(s: State, cacheSize: nat, h: nat): State
    requires Occupied(s, h) && s.files[h].value.openDirCount > 0 && s.files[h].value.refCount > 0
  {
    Released(DirClosed(s, h), cacheSize, h)
  }

  /** When nothing happens in between, an event leaves a file in use alone; a cached
      file may lose its place to files that came into use after it was closed. */
  function Told(s: State, cacheSize: nat, h: nat): State
    requires Occupied(s, h)
  {
    var f := s.files[h].value;
    if f.refCount > 0 || |s.files| - s.numInUse <= cacheSize then s
    else s.(files := s.files[h := None], paths := s.paths - {f.path}, freeList := s.freeList + [h])
  }

  lemma EventIsNeutral(s: State, cacheSize: nat, h: nat)
    requires Occupied(s, h)
    ensures Occupied(Begun(s, h), h) && Begun(s, h).files[h].value.openDirCount > 0
    ensures Begun(s, h).files[h].value.refCount > 0
    ensures Ended(Begun(s, h), cacheSize, h) == Told(s, cacheSize, h)
  {
    DirUndone(Acquired(s, h), h);
  }

  /** The files below n told one after the other. */
  function ToldUpTo(s: State, cacheSize: nat, n: nat): (t: State)
    requires n <= |s.files|
    ensures |t.files| == |s.files|
  {
    if n == 0 then s
    else
      var t := ToldUpTo(s, cacheSize, n - 1);
      if Occupied(t, n - 1) then Told(t, cacheSize, n - 1) else t
  }

  /** The handles below n that have a file, in order. */
  function Present(s: State, n: nat): (r: seq<nat>)
    ensures forall h: nat :: h in r <==> h < n && Occupied(s, h)
  {
    if n == 0 then [] else Present(s, n - 1) + (if Occupied(s, n - 1) then [n - 1] else [])
  }

  lemma {:induction false} ToldUpToAt(s: State, cacheSize: nat, n: nat)
    requires n <= |s.files|
    ensures var t := ToldUpTo(s, cacheSize, n);
            && t.held == s.held && t.dirs == s.dirs && t.numInUse == s.numInUse
            && (|s.files| - s.numInUse <= cacheSize ==> t == s)
            && (|s.files| - s.numInUse > cacheSize ==>
                  forall h | 0 <= h < |s.files| ::
                    t.files[h] == if h < n && UseOf(s.files[h]) == Cached then None else s.files[h])
  {
    if n > 0 { ToldUpToAt(s, cacheSize, n - 1); }
  }

  /** Telling the files before one does not remove it. */
  lemma StillPresent(s: State, cacheSize: nat, n: nat)
    requires n < |s.files|
    ensures Occupied(ToldUpTo(s, cacheSize, n), n) <==> Occupied(s, n)
  {
    ToldUpToAt(s, cacheSize, n);
  }

  /** Telling all files of a lost connection leaves the cache as it is, or empties it if
      the vacant slots and the closed files together exceed the cache size. */
  lemma LostConnection(s: State, cacheSize: nat)
    requires Inv(s, cacheSize)
    ensures var t := ToldUpTo(s, cacheSize, |s.files|);
            if |s.freeList| + 1 + Count(s.files, Cached) <= cacheSize then t == s
            else forall h | 0 <= h < |s.files| ::
                   t.files[h] == if UseOf(s.files[h]) == Cached then None else s.files[h]
  {
    ToldUpToAt(s, cacheSize, |s.files|);
    CountAll(s.files);
    VacantIsFree(s);
  }

  lemma SlotBack<T>(fs: seq<T>, h: nat, x: T)
    requires h < |fs|
    ensures fs[h := x][h := fs[h]] == fs
  {
  }

  lemma DirUndone(s: State, h: nat)
    requires Occupied(s, h) && h in s.held
    ensures DirClosed(DirOpened(s, h), h) == s
  {
    SlotBack(s.files, h, DirOpened(s, h).files[h]);
  }
}
