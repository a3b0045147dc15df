/** The handle manager as the code keeps it: file objects with counts that are updated
    in place, tied step by step to the abstract state. */
module ZkFuseManager {
  import opened Prelude
  import opened HandleManager

  class ZkFuseFile {
    const path: string
    var refCount: int
    var openDirCount: int

    constructor (path: string)
      ensures this.path == path && refCount == 1 && openDirCount == 0
    {
      this.path, refCount, openDirCount := path, 1, 0;
    }

    method IncRefCount(count: int) returns (res: int)
      requires refCount + count >= 0
      modifies this`refCount
      ensures refCount == old(refCount) + count == res
    {
      refCount := refCount + count;
      res := refCount;
    }

    method IncOpenDirCount(count: int) returns (res: int)
      requires 0 <= openDirCount + count <= refCount
      modifies this`openDirCount
      ensures openDirCount == old(openDirCount) + count == res
    {
      openDirCount := openDirCount + count;
      res := openDirCount;
    }
  }

  ghost predicate Shows(f: ZkFuseFile?, v: Option<File>)
    reads f
  {
    if f == null then v.None?
    else v.Some? && v.value.path == f.path && v.value.refCount == f.refCount && v.value.openDirCount == f.openDirCount
  }

  class ZkFuseHandleManager {
    var paths: map<string, nat>
    var files: seq<ZkFuseFile?>
    var freeList: seq<nat>
    var numInUse: int
    const cacheSize: nat
    ghost var st: State
    ghost var repr: set<ZkFuseFile>
    ghost var told: seq<nat>   // the handles of the files that were told of an event

    ghost predicate Linked()
      reads this, repr
    {
      && paths == st.paths && freeList == st.freeList && numInUse == st.numInUse && |files| == |st.files|
      && forall h | 0 <= h < |files| :: (files[h] != null ==> files[h] in repr) && Shows(files[h], st.files[h])
    }

    ghost predicate Valid()
      reads this, repr
    {
      Linked() && Inv(st, cacheSize)
    }

    /** Slot 0 is never allocated. */
    constructor (cacheSize: nat)
      ensures Valid() && st == Initial() && repr == {} && this.cacheSize == cacheSize
    {
      paths, files, freeList, numInUse, this.cacheSize := map[], [null], [], 0, cacheSize;
      st, repr, told := Initial(), {}, [];
      new;
      InitialInv(cacheSize);
    }

    /** No file object is in two slots. */
    lemma Distinct(g: nat, h: nat)
      requires Valid() && g < |files| && h < |files| && files[g] != null && files[g] == files[h]
      ensures g == h
    {
      assert Shows(files[g], st.files[g]) && Shows(files[h], st.files[h]);
    }

    lemma Apart(h: nat)
      requires Valid() && h < |files| && files[h] != null
      ensures forall g | 0 <= g < |files| && g != h :: files[g] != files[h]
    {
      forall g | 0 <= g < |files| && g != h ensures files[g] != files[h] {
        if files[g] == files[h] { Distinct(g, h); }
      }
    }

    method GetFile(handle: nat) returns (file: ZkFuseFile)
      requires Valid() && Holders(st, handle) > 0
      ensures handle < |files| && file == files[handle] && PathOf(st, handle) == Some(file.path)
    {
      HolderIsSafe(st, cacheSize, handle);
      assert Shows(files[handle], st.files[handle]);
      file := files[handle];
    }

    /** A handle for the path: that of its file if there is one, else a free one, else
        a new one. */
    method Allocate(path: string) returns (handle: nat, newFile: bool)
      requires Valid()
      modifies this, repr
      ensures Valid() && Defined(old(st), Action.Allocate(path))
      ensures st == Step(old(st), cacheSize, Action.Allocate(path))
      ensures (newFile <==> path !in old(st).paths) && PathOf(st, handle) == Some(path)
      ensures st.held == old(st.held) + multiset{handle} && st.dirs == old(st.dirs)
      ensures fresh(repr - old(repr)) && told == old(told)
    {
      ChecksPass(st, cacheSize, Action.Allocate(path));
      StepInv(st, cacheSize, Action.Allocate(path));
      newFile := path !in paths;
      if newFile {
        handle := AllocateNew(path);
      } else {
        handle := paths[path];
        Take(handle);
      }
    }

    method AllocateNew(path: string) returns (handle: nat)
      requires Valid() && path !in paths
      requires Defined(st, Action.Allocate(path)) && Inv(Step(st, cacheSize, Action.Allocate(path)), cacheSize)
      modifies this
      ensures Valid() && st == Created(old(st), path) && handle == NextHandle(old(st))
      ensures fresh(repr - old(repr)) && told == old(told)
    {
      NextIsVacant(st, cacheSize);
      handle := TakeSlot();
      var file := new ZkFuseFile(path);
      Install(path, handle, file);
    }

    /** All slots but one show what the state says. */
    ghost predicate LinkedBut(handle: nat)
      reads this, repr
    {
      && paths == st.paths && numInUse == st.numInUse && |files| >= |st.files|
      && forall h | 0 <= h < |st.files| && h != handle ::
           (files[h] != null ==> files[h] in repr) && Shows(files[h], st.files[h])
    }

    method Install(path: string, handle: nat, file: ZkFuseFile)
      requires LinkedBut(handle) && handle == NextHandle(st) <= |st.files| && handle < |files|
      requires |files| == |st.files| + (if st.freeList == [] then 1 else 0)
      requires (st.freeList == [] <==> handle == |st.files|) && freeList == Created(st, path).freeList
      requires Inv(Created(st, path), cacheSize)
      requires file !in repr && Shows(file, Some(File(path, 1, 0)))
      modifies this
      ensures Valid() && st == Created(old(st), path) && repr == old(repr) + {file} && told == old(told)
    {
      files := files[handle := file];
      paths := paths[path := handle];
      numInUse := numInUse + 1;
      st, repr := Created(st, path), repr + {file};
    }

    /** A vacant slot: the last freed one, or a new one at the end. */
    method TakeSlot() returns (handle: nat)
      requires Valid() && 0 < NextHandle(st) <= |st.files| && !Occupied(st, NextHandle(st))
      modifies this`files, this`freeList
      ensures handle == NextHandle(st) < |files| && files[handle] == null
      ensures files == if old(freeList) == [] then old(files) + [null] else old(files)
      ensures freeList == if old(freeList) == [] then [] else old(freeList)[..|old(freeList)| - 1]
    {
      if freeList == [] {
        handle := |files|;
        files := files + [null];
      } else {
        handle := freeList[|freeList| - 1];
        freeList := freeList[..|freeList| - 1];
        FreeSlot(handle);
      }
    }

    lemma FreeSlot(handle: nat)
      requires |files| == |st.files| && (forall h | 0 <= h < |files| :: Shows(files[h], st.files[h]))
      requires handle <= |st.files| && !Occupied(st, handle) && FreeExact(st) && handle in st.freeList
      ensures handle < |files| && files[handle] == null
    {
      assert Shows(files[handle], st.files[handle]);
    }

    /** One more reference to a file that is there. */
    method Take(handle: nat)
      requires Valid() && Occupied(st, handle)
      modifies this`numInUse, this`st, repr
      ensures Valid() && st == Acquired(old(st), handle)
    {
      AcquiredInv(st, cacheSize, handle);
      Apart(handle);
      assert Shows(files[handle], st.files[handle]);
      var refCount := files[handle].IncRefCount(1);
      if refCount == 1 {
        numInUse := numInUse + 1;
      }
      st := Acquired(st, handle);
    }

    method Deallocate(handle: int)
      requires Valid() && (handle >= 0 ==> handle in st.held)
      modifies this, repr
      ensures Valid() && (handle < 0 ==> st == old(st))
      ensures handle >= 0 ==> Defined(old(st), Action.Deallocate(handle))
      ensures handle >= 0 ==> st == Step(old(st), cacheSize, Action.Deallocate(handle))
      ensures handle >= 0 ==> st.held == old(st.held) - multiset{handle as nat} && st.dirs == old(st.dirs)
      ensures repr == old(repr) && told == old(told)
    {
      if handle >= 0 {
        Release(handle);
      }
    }

    method Release(handle: nat)
      requires Valid() && handle in st.held
      modifies this, repr
      ensures Valid() && Defined(old(st), Action.Deallocate(handle))
      ensures st == Released(old(st), cacheSize, handle)
      ensures repr == old(repr) && told == old(told)
    {
      ChecksPass(st, cacheSize, Action.Deallocate(handle));
      StepInv(st, cacheSize, Action.Deallocate(handle));
      Apart(handle);
      assert Shows(files[handle], st.files[handle]);
      var file := files[handle];
      var refCount := file.IncRefCount(-1);
      Settle(handle, file, refCount);
    }

    method Settle(handle: nat, file: ZkFuseFile, refCount: int)
      requires LinkedBut(handle) && |files| == |st.files| && freeList == st.freeList && Occupied(st, handle)
      requires files[handle] == file && file in repr && file.refCount == refCount
      requires st.files[handle].value.path == file.path && st.files[handle].value.refCount == refCount + 1 > 0
      requires st.files[handle].value.openDirCount == file.openDirCount
      requires Inv(Released(st, cacheSize, handle), cacheSize)
      modifies this`numInUse, this`paths, this`files, this`freeList, this`st
      ensures Valid() && st == Released(old(st), cacheSize, handle)
    {
      if refCount == 0 {
        Retire(handle, file);
      }
      st := Released(st, cacheSize, handle);
    }

    /** A file without users stays in the cache if that has room. */
    method Retire(handle: nat, file: ZkFuseFile)
      requires handle < |files|
      modifies this`numInUse, this`paths, this`files, this`freeList
      ensures numInUse == old(numInUse) - 1
      ensures if |old(files)| - numInUse > cacheSize
              then paths == old(paths) - {file.path} && files == old(files)[handle := null] &&
                   freeList == old(freeList) + [handle]
              else paths == old(paths) && files == old(files) && freeList == old(freeList)
    {
      numInUse := numInUse - 1;
      var numCached := |files| - numInUse;
      if numCached > cacheSize {
        paths := paths - {file.path};
        files := files[handle := null];
        freeList := freeList + [handle];
      }
    }

    /** An opener counts as an open directory from now on. */
    method OpenDir(handle: nat)
      requires Valid() && handle in st.held
      modifies this`st, repr
      ensures Valid() && Occupied(old(st), handle) && st == DirOpened(old(st), handle)
      ensures handle < |files| && files[handle] != null && files == old(files)
      ensures files[handle].openDirCount == old(files[handle].openDirCount) + 1
      ensures files[handle].refCount == old(files[handle].refCount)
    {
      ChecksPass(st, cacheSize, Action.OpenDir(handle));
      StepInv(st, cacheSize, Action.OpenDir(handle));
      Apart(handle);
      assert Shows(files[handle], st.files[handle]);
      var dirCount := files[handle].IncOpenDirCount(1);
      st := DirOpened(st, handle);
    }

    method CloseDir(handle: nat)
      requires Valid() && handle in st.dirs
      modifies this`st, repr
      ensures Valid() && Defined(old(st), Action.CloseDir(handle)) && st == DirClosed(old(st), handle)
      ensures handle < |files| && files[handle] != null && files == old(files)
      ensures files[handle].openDirCount == old(files[handle].openDirCount) - 1
      ensures files[handle].refCount == old(files[handle].refCount)
    {
      ChecksPass(st, cacheSize, Action.CloseDir(handle));
      StepInv(st, cacheSize, Action.CloseDir(handle));
      Apart(handle);
      assert Shows(files[handle], st.files[handle]);
      var dirCount := files[handle].IncOpenDirCount(-1);
      st := DirClosed(st, handle);
    }

    /** Opening keeps the handle when the file could be updated from the server, and
        gives it back when not. */
    method Open(path: string, updateResult: int) returns (res: int)
      requires Valid() && updateResult <= 0
      modifies this, repr
      ensures Valid()
      ensures updateResult == 0 ==> res >= 0 && PathOf(st, res) == Some(path) && st.held == old(st.held) + multiset{res}
      ensures updateResult != 0 ==> res == updateResult && st.held == old(st.held)
      ensures st.dirs == old(st.dirs) && fresh(repr - old(repr)) && told == old(told)
    {
      var handle, newFile := Allocate(path);
      if updateResult == 0 { return handle; }
      Deallocate(handle);
      res := updateResult;
    }

    /** The first half of handling an event for a file: it is kept from being
        reclaimed, and does not look open for data. */
    method BeginEvent(handle: nat)
      requires Valid() && Occupied(st, handle)
      modifies this, repr
      ensures Valid() && st == Begun(old(st), handle) && handle in st.dirs
      ensures files == old(files) && repr == old(repr) && told == old(told)
    {
      Take(handle);
      OpenDir(handle);
    }

    /** The second half, after the file was told; the manager was unlocked in between. */
    method EndEvent(handle: nat)
      requires Valid() && handle in st.dirs
      modifies this, repr
      ensures Valid() && Defined(old(st), Action.CloseDir(handle)) && st == Ended(old(st), cacheSize, handle)
      ensures |files| == |old(files)| && repr == old(repr) && told == old(told)
    {
      CloseDir(handle);
      Deallocate(handle);
    }

    /** Both halves with nothing in between. */
    method TellFile(handle: nat)
      requires Valid() && Occupied(st, handle)
      modifies this, repr
      ensures Valid() && st == Told(old(st), cacheSize, handle) && |files| == |old(files)| && repr == old(repr)
      ensures told == old(told) + [handle]
    {
      EventIsNeutral(st, cacheSize, handle);
      BeginEvent(handle);
      told := told + [handle];
      EndEvent(handle);
    }

    /** A node event concerns the file of its path, if there is one. */
    method NodeEvent(path: string)
      requires Valid()
      modifies this, repr
      ensures Valid()
      ensures path !in old(st).paths ==> st == old(st) && told == old(told)
      ensures path in old(st).paths ==>
                st == Told(old(st), cacheSize, old(st).paths[path]) && told == old(told) + [old(st).paths[path]]
    {
      if path in paths {
        TellFile(paths[path]);
      }
    }

    /** A lost connection concerns all files: each is told, one after the other. */
    method ConnectingEvent()
      requires Valid()
      modifies this, repr
      ensures Valid() && st == ToldUpTo(old(st), cacheSize, |old(st).files|)
      ensures told == old(told) + Present(old(st), |old(st).files|)
    {
      ghost var s0 := st;
      var handle := 0;
      while handle < |files|
        invariant Valid() && repr == old(repr) && handle <= |files| == |s0.files|
        invariant st == ToldUpTo(s0, cacheSize, handle) && told == old(told) + Present(s0, handle)
      {
        PresentNext(old(told), s0, handle);
        TellNext(handle, s0);
        handle := handle + 1;
      }
    }

    /** The file in one slot, if there is one. */
    method TellNext(handle: nat, ghost s0: State)
      requires Valid() && handle < |files| == |s0.files| && st == ToldUpTo(s0, cacheSize, handle)
      modifies this, repr
      ensures Valid() && st == ToldUpTo(s0, cacheSize, handle + 1) && |files| == |old(files)| && repr == old(repr)
      ensures told == old(told) + (if Occupied(s0, handle) then [handle] else [])
    {
      StillPresent(s0, cacheSize, handle);
      assert Shows(files[handle], st.files[handle]);
      if files[handle] != null {
        TellFile(handle);
      }
    }
  }

  lemma PresentNext(told: seq<nat>, s: State, n: nat)
    ensures told + Present(s, n + 1) == told + Present(s, n) + (if Occupied(s, n) then [n] else [])
  {
  }
}
