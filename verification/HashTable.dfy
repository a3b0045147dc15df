/** The chained hash table that grows along a table of primes, and its refinement of a
    plain map. */
module HashTable {
  import opened Prelude

  const PRIMES: seq<nat> := [
    53, 97, 193, 389, 769, 1543, 3079, 6151, 12289, 24593, 49157, 98317, 196613, 393241, 786433, 1572869,
    3145739, 6291469, 12582917, 25165843, 50331653, 100663319, 201326611, 402653189, 805306457, 1610612741
  ]
  const PRIME_TABLE_LENGTH := 26
  const MAX_MINSIZE := 0x4000_0000

  /** The ceiling of 0.65 times the size. */
  function LoadLimit(size: nat): nat {
    (13 * size + 19) / 20
  }

  /** The smallest number that is not below 65 per cent of the size. */
  lemma LoadLimitIs(size: nat)
    ensures 100 * LoadLimit(size) >= 65 * size && (size > 0 ==> 100 * (LoadLimit(size) - 1) < 65 * size)
  {
    var n := 13 * size + 19;
    assert n == 20 * (n / 20) + n % 20;
  }

  /** The supplementary hash that spreads out poor hash values. */
  function Mix(h: bv32): bv32 {
    var a := h + !(h << 9);
    var b := a ^ ((a >> 14) | (a << 18));
    var c := b + (b << 4);
    c ^ ((c >> 10) | (c << 22))
  }

  function Hash<K>(hashfn: K -> bv32, k: K): bv32 {
    Mix(hashfn(k))
  }

  function IndexFor(tablelength: nat, h: bv32): (i: nat)
    requires tablelength > 0
    ensures i < tablelength
  {
    (h as int) % tablelength
  }

  class Entry<K, V> {
    const k: K
    const v: V
    const h: bv32
    var next: Entry?<K, V>

    constructor (k: K, v: V, h: bv32)
      ensures this.k == k && this.v == v && this.h == h
    {
      this.k, this.v, this.h, next := k, v, h, null;
    }
  }

  // ---------------------------------------------------------------- chains

  /** The entries of a chain are linked in this order, starting at head. */
  ghost predicate Chain<K, V>(head: Entry?<K, V>, es: seq<Entry<K, V>>)
    reads es
  {
    if es == [] then head == null else head == es[0] && Chain(es[0].next, es[1..])
  }

  ghost function Find<K, V>(es: seq<Entry<K, V>>, k: K): (e: Entry?<K, V>)
    ensures e != null ==> e in es && e.k == k
  {
    if es == [] then null else if es[0].k == k then es[0] else Find(es[1..], k)
  }

  ghost predicate UniqueKeys<K, V>(es: seq<Entry<K, V>>) {
    forall i, j | 0 <= i < j < |es| :: es[i].k != es[j].k
  }

  lemma {:induction false} FindNone<K, V>(es: seq<Entry<K, V>>, k: K)
    ensures Find(es, k) == null <==> forall i | 0 <= i < |es| :: es[i].k != k
  {
    if es != [] && es[0].k != k {
      FindNone(es[1..], k);
      assert forall i | 1 <= i < |es| :: es[i] == es[1..][i - 1];
    }
  }

  lemma {:induction false} FindAt<K, V>(es: seq<Entry<K, V>>, n: nat)
    requires UniqueKeys(es) && n < |es|
    ensures Find(es, es[n].k) == es[n]
  {
    if n > 0 { FindAt(es[1..], n - 1); }
  }

  /** Cutting out an entry hides its key, and no other. */
  lemma {:induction false} FindCut<K, V>(es: seq<Entry<K, V>>, n: nat, k: K)
    requires UniqueKeys(es) && n < |es|
    ensures Find(es[..n] + es[n + 1..], k) == if es[n].k == k then null else Find(es, k)
  {
    var cut := es[..n] + es[n + 1..];
    if n == 0 {
      assert cut == es[1..];
      if es[0].k == k { FindNone(es[1..], k); }
    } else {
      assert cut[0] == es[0] && cut[1..] == es[1..][..n - 1] + es[1..][n..];
      FindCut(es[1..], n - 1, k);
    }
  }

  lemma {:induction false} ChainNext<K, V>(head: Entry?<K, V>, es: seq<Entry<K, V>>, n: nat)
    requires Chain(head, es) && n < |es|
    ensures es[n].next == (if n + 1 < |es| then es[n + 1] else null) && Chain(es[n].next, es[n + 1..])
  {
    if n > 0 {
      ChainNext(es[0].next, es[1..], n - 1);
      assert es[1..][n..] == es[n + 1..];
    }
  }

  /** A prefix whose last entry leads to the rest makes one chain with it. */
  lemma {:induction false} ChainJoin<K, V>(es: seq<Entry<K, V>>, n: nat, rest: seq<Entry<K, V>>)
    requires 0 < n <= |es| && Chain(es[n - 1].next, rest)
    requires forall j, l | 0 <= j && l == j + 1 < n :: es[j].next == es[l]
    ensures Chain(es[0], es[..n] + rest)
  {
    var all := es[..n] + rest;
    if n == 1 {
      assert all[1..] == rest;
    } else {
      assert es[0].next == es[1];
      ChainJoin(es[1..], n - 1, rest);
      assert all[1..] == es[1..][..n - 1] + rest;
    }
  }

  // --------------------------------------------------------------- buckets

  type Chains<K, V> = seq<seq<Entry<K, V>>>

  /** Every entry is in the bucket of its stored hash, which is the hash of its key. */
  ghost predicate Placed<K, V>(hashfn: K -> bv32, chains: Chains<K, V>) {
    forall i, e | 0 <= i < |chains| && e in chains[i] :: e.h == Hash(hashfn, e.k) && IndexFor(|chains|, e.h) == i
  }

  ghost predicate Unique<K, V>(chains: Chains<K, V>) {
    forall i | 0 <= i < |chains| :: UniqueKeys(chains[i])
  }

  ghost function Lookup<K, V>(hashfn: K -> bv32, chains: Chains<K, V>, k: K): Entry?<K, V>
    requires chains != []
  {
    Find(chains[IndexFor(|chains|, Hash(hashfn, k))], k)
  }

  /** The chains hold for key k what the map holds. */
  ghost predicate Agrees<K, V>(hashfn: K -> bv32, chains: Chains<K, V>, m: map<K, V>, k: K)
    requires chains != []
  {
    var e := Lookup(hashfn, chains, k);
    (e == null <==> k !in m) && (e != null ==> e.v == m[k])
  }

  ghost predicate AllAgree<K(!new), V>(hashfn: K -> bv32, chains: Chains<K, V>, m: map<K, V>)
    requires chains != []
  {
    forall k :: Agrees(hashfn, chains, m, k)
  }

  /** The chains are the buckets of a table that holds the map. */
  ghost predicate Filed<K(!new), V>(hashfn: K -> bv32, chains: Chains<K, V>, m: map<K, V>) {
    && chains != [] && Placed(hashfn, chains) && Unique(chains) && Total(chains) == |m|
    && AllAgree(hashfn, chains, m)
  }

  function Total<T>(chains: seq<seq<T>>): nat {
    if chains == [] then 0 else |chains[0]| + Total(chains[1..])
  }

  lemma {:induction false} TotalUpdate<T>(chains: seq<seq<T>>, i: nat, es: seq<T>)
    requires i < |chains|
    ensures Total(chains[i := es]) == Total(chains) - |chains[i]| + |es|
  {
    var changed := chains[i := es];
    if i == 0 {
      assert changed[1..] == chains[1..];
    } else {
      assert changed[1..] == chains[1..][i - 1 := es];
      TotalUpdate(chains[1..], i - 1, es);
    }
  }

  lemma {:induction false} TotalEmpty<T>(chains: seq<seq<T>>)
    ensures Total(chains) == 0 <==> forall i | 0 <= i < |chains| :: chains[i] == []
  {
    if chains != [] {
      TotalEmpty(chains[1..]);
      assert forall i | 1 <= i < |chains| :: chains[i] == chains[1..][i - 1];
    }
  }

  function Put<K, V>(chains: Chains<K, V>, e: Entry<K, V>): (r: Chains<K, V>)
    requires chains != []
    ensures |r| == |chains|
  {
    var i := IndexFor(|chains|, e.h);
    chains[i := [e] + chains[i]]
  }

  function Cut<K, V>(chains: Chains<K, V>, i: nat, n: nat): (r: Chains<K, V>)
    requires i < |chains| && n < |chains[i]|
    ensures |r| == |chains|
  {
    chains[i := chains[i][..n] + chains[i][n + 1..]]
  }

  lemma LookupCut<K, V>(hashfn: K -> bv32, chains: Chains<K, V>, i: nat, n: nat, k: K)
    requires Placed(hashfn, chains) && Unique(chains) && i < |chains| && n < |chains[i]|
    ensures Lookup(hashfn, Cut(chains, i, n), k) == if chains[i][n].k == k then null else Lookup(hashfn, chains, k)
  {
    FindCut(chains[i], n, k);
    assert chains[i][n] in chains[i];
  }

  lemma LookupAt<K, V>(hashfn: K -> bv32, chains: Chains<K, V>, i: nat, n: nat)
    requires Placed(hashfn, chains) && Unique(chains) && i < |chains| && n < |chains[i]|
    ensures Lookup(hashfn, chains, chains[i][n].k) == chains[i][n]
  {
    FindAt(chains[i], n);
    assert chains[i][n] in chains[i];
  }

  lemma LookupNone<K, V>(hashfn: K -> bv32, chains: Chains<K, V>, e: Entry<K, V>, i: nat)
    requires Placed(hashfn, chains) && i < |chains| && Lookup(hashfn, chains, e.k) == null
    ensures e !in chains[i]
  {
    FindNone(chains[IndexFor(|chains|, Hash(hashfn, e.k))], e.k);
  }

  lemma PutKeeps<K, V>(hashfn: K -> bv32, chains: Chains<K, V>, e: Entry<K, V>)
    requires chains != [] && e.h == Hash(hashfn, e.k) && Placed(hashfn, chains) && Unique(chains)
    requires Lookup(hashfn, chains, e.k) == null
    ensures Placed(hashfn, Put(chains, e)) && Unique(Put(chains, e)) && Total(Put(chains, e)) == Total(chains) + 1
  {
    var i := IndexFor(|chains|, e.h);
    FindNone(chains[i], e.k);
    TotalUpdate(chains, i, [e] + chains[i]);
  }

  lemma CutKeeps<K, V>(hashfn: K -> bv32, chains: Chains<K, V>, i: nat, n: nat)
    requires Placed(hashfn, chains) && Unique(chains) && i < |chains| && n < |chains[i]|
    ensures Placed(hashfn, Cut(chains, i, n)) && Unique(Cut(chains, i, n))
    ensures Total(Cut(chains, i, n)) == Total(chains) - 1
  {
    CutChain(chains[i], n);
    TotalUpdate(chains, i, chains[i][..n] + chains[i][n + 1..]);
  }

  lemma CutChain<K, V>(es: seq<Entry<K, V>>, n: nat)
    requires UniqueKeys(es) && n < |es|
    ensures var cut := es[..n] + es[n + 1..]; UniqueKeys(cut) && forall e | e in cut :: e in es
  {
  }

  // ---------------------------------------------------------------- tables

  ghost function Entries<K, V>(chains: Chains<K, V>): (r: set<Entry<K, V>>)
    ensures forall i | 0 <= i < |chains| :: forall e | e in chains[i] :: e in r
  {
    set i, e | 0 <= i < |chains| && e in chains[i] :: e
  }

  ghost predicate Backed<K, V>(table: array<Entry?<K, V>>, chains: Chains<K, V>)
    reads table, Entries(chains)
  {
    |chains| == table.Length && forall i | 0 <= i < |chains| :: Chain(table[i], chains[i])
  }

  /** Two sets of buckets, with no key in both, that hold together what the map holds. */
  ghost predicate AgreeTogether<K, V>(hashfn: K -> bv32, src: Chains<K, V>, dst: Chains<K, V>, m: map<K, V>, k: K)
    requires src != [] && dst != []
  {
    var a, b := Lookup(hashfn, src, k), Lookup(hashfn, dst, k);
    && (a == null || b == null) && (a == null && b == null <==> k !in m)
    && (a != null ==> a.v == m[k]) && (b != null ==> b.v == m[k])
  }

  ghost predicate AllTogether<K(!new), V>(hashfn: K -> bv32, src: Chains<K, V>, dst: Chains<K, V>, m: map<K, V>)
    requires src != [] && dst != []
  {
    forall k :: AgreeTogether(hashfn, src, dst, m, k)
  }

  /** The state in the middle of an expansion. */
  ghost predicate Moving<K(!new), V>(hashfn: K -> bv32, src: Chains<K, V>, dst: Chains<K, V>, m: map<K, V>) {
    && src != [] && dst != [] && Placed(hashfn, src) && Placed(hashfn, dst) && Unique(src) && Unique(dst)
    && AllTogether(hashfn, src, dst, m)
  }

  lemma MoveAgrees<K(!new), V>(hashfn: K -> bv32, src: Chains<K, V>, dst: Chains<K, V>, m: map<K, V>, i: nat)
    requires src != [] && dst != [] && Placed(hashfn, src) && Unique(src)
    requires i < |src| && src[i] != [] && AllTogether(hashfn, src, dst, m)
    ensures AllTogether(hashfn, Cut(src, i, 0), Put(dst, src[i][0]), m)
  {
    var e := src[i][0];
    assert e in src[i];
    forall k ensures AgreeTogether(hashfn, Cut(src, i, 0), Put(dst, e), m, k) {
      assert AgreeTogether(hashfn, src, dst, m, k);
      LookupCut(hashfn, src, i, 0, k);
      LookupAt(hashfn, src, i, 0);
    }
  }

  lemma MoveKeeps<K(!new), V>(hashfn: K -> bv32, src: Chains<K, V>, dst: Chains<K, V>, m: map<K, V>, i: nat)
    requires Moving(hashfn, src, dst, m) && i < |src| && src[i] != []
    ensures Moving(hashfn, Cut(src, i, 0), Put(dst, src[i][0]), m)
    ensures Total(Cut(src, i, 0)) + Total(Put(dst, src[i][0])) == Total(src) + Total(dst)
  {
    assert src[i][0] in src[i];
    Unplaced(hashfn, src, dst, m, i, 0);
    PutKeeps(hashfn, dst, src[i][0]);
    CutKeeps(hashfn, src, i, 0);
    MoveAgrees(hashfn, src, dst, m, i);
  }

  /** An entry still to be moved has no key in common with those moved. */
  lemma Unplaced<K(!new), V>(hashfn: K -> bv32, src: Chains<K, V>, dst: Chains<K, V>, m: map<K, V>, i: nat, n: nat)
    requires Moving(hashfn, src, dst, m) && i < |src| && n < |src[i]|
    ensures Lookup(hashfn, dst, src[i][n].k) == null
  {
    LookupAt(hashfn, src, i, n);
    assert AgreeTogether(hashfn, src, dst, m, src[i][n].k);
  }

  lemma ChainLinks<K, V>(head: Entry?<K, V>, es: seq<Entry<K, V>>)
    requires Chain(head, es)
    ensures forall j, l | 0 <= j && l == j + 1 < |es| :: es[j].next == es[l]
    ensures es != [] ==> head == es[0]
  {
    forall j, l | 0 <= j && l == j + 1 < |es| ensures es[j].next == es[l] { ChainNext(head, es, j); }
  }

  lemma PredecessorApart<K, V>(hashfn: K -> bv32, chains: Chains<K, V>, i: nat, n: nat)
    requires Placed(hashfn, chains) && Unique(chains) && i < |chains| && 0 < n < |chains[i]|
    ensures forall j | 0 <= j < |chains| && j != i :: chains[i][n - 1] !in chains[j]
    ensures chains[i][n - 1] !in chains[i][..n - 1] && chains[i][n - 1] !in chains[i][n + 1..]
  {
    assert chains[i][n - 1] in chains[i];
    assert forall j | 0 <= j < |chains[i]| && chains[i][j] == chains[i][n - 1] :: j == n - 1;
    forall j | 0 <= j < |chains| && chains[i][n - 1] in chains[j] ensures j == i {
      assert IndexFor(|chains|, chains[i][n - 1].h) == j;
    }
  }

  lemma HeadApart<K, V>(hashfn: K -> bv32, src: Chains<K, V>, i: nat, j: nat)
    requires Placed(hashfn, src) && Unique(src) && i < |src| && src[i] != [] && j < |src|
    ensures src[i][0] !in Cut(src, i, 0)[j]
  {
    assert src[i][0] in src[i];
    assert src[i][0] in src[j] ==> IndexFor(|src|, src[i][0].h) == j;
    assert Cut(src, i, 0)[j] == if i == j then src[i][1..] else src[j];
  }

  /** Moves the first entry of bucket i in front of its bucket in the new table. */
  method MoveEntry<K(!new), V>(table: array<Entry?<K, V>>, newtable: array<Entry?<K, V>>, i: nat,
                               ghost hashfn: K -> bv32, ghost src: Chains<K, V>, ghost dst: Chains<K, V>,
                               ghost m: map<K, V>)
    returns (ghost src': Chains<K, V>, ghost dst': Chains<K, V>)
    requires Moving(hashfn, src, dst, m) && table != newtable
    requires Backed(table, src) && Backed(newtable, dst) && i < |src| && table[i] != null
    modifies table, newtable, src[i]
    ensures src[i] != [] && src' == Cut(src, i, 0) && dst' == Put(dst, src[i][0])
    ensures Backed(table, src') && Backed(newtable, dst')
  {
    var e := table[i];
    assert Chain(table[i], src[i]);
    assert e == src[i][0];
    src', dst' := Cut(src, i, 0), Put(dst, e);
    HeadInNone(hashfn, src, dst, m, i);
    CutEntry(table, null, e, i, hashfn, src, 0);
    PutEntry(newtable, e, dst);
  }

  lemma HeadInNone<K(!new), V>(hashfn: K -> bv32, src: Chains<K, V>, dst: Chains<K, V>, m: map<K, V>, i: nat)
    requires Moving(hashfn, src, dst, m) && i < |src| && src[i] != []
    ensures src[i][0] !in Entries(dst) && src[i][0] !in Entries(Cut(src, i, 0))
  {
    var e := src[i][0];
    Unplaced(hashfn, src, dst, m, i, 0);
    forall j | 0 <= j < |src| ensures e !in Cut(src, i, 0)[j] { HeadApart(hashfn, src, i, j); }
    forall x | 0 <= x < |dst| ensures e !in dst[x] { LookupNone(hashfn, dst, e, x); }
  }

  /** Links an entry in front of its bucket. */
  method PutEntry<K, V>(table: array<Entry?<K, V>>, e: Entry<K, V>, ghost chains: Chains<K, V>)
    requires chains != [] && Backed(table, chains) && e !in Entries(chains)
    modifies table, e
    ensures Backed(table, Put(chains, e))
  {
    var index := IndexFor(table.Length, e.h);
    assert forall i | 0 <= i < |chains| :: e !in chains[i];
    e.next := table[index];
    table[index] := e;
    assert Put(chains, e)[index][1..] == chains[index];
  }

  /** Takes entry n of a bucket out: its predecessor, or the bucket, gets the successor. */
  method CutEntry<K, V>(table: array<Entry?<K, V>>, prev: Entry?<K, V>, e: Entry<K, V>, index: nat,
                        ghost hashfn: K -> bv32, ghost chains: Chains<K, V>, ghost n: nat)
    requires Backed(table, chains) && Placed(hashfn, chains) && Unique(chains)
    requires index < |chains| && n < |chains[index]| && e == chains[index][n]
    requires prev == if n == 0 then null else chains[index][n - 1]
    modifies table, prev
    ensures Backed(table, Cut(chains, index, n))
  {
    ghost var es := chains[index];
    assert Chain(table[index], es);
    ChainNext(table[index], es, n);
    if prev == null {
      table[index] := e.next;
      assert Cut(chains, index, n)[index] == es[1..];
    } else {
      ChainLinks(table[index], es);
      PredecessorApart(hashfn, chains, index, n);
      prev.next := e.next;
      ChainJoin(es, n, es[n + 1..]);
    }
  }

  method NewTable<K, V>(size: nat) returns (table: array<Entry?<K, V>>)
    ensures fresh(table) && table.Length == size && Backed(table, Bare<K, V>(size))
  {
    table := new Entry?<K, V>[size](_ => null);
  }

  /** Between two entries: nothing is lost, and only entries of the table take part. */
  ghost predicate Halfway<K(!new), V>(hashfn: K -> bv32, src: Chains<K, V>, dst: Chains<K, V>, m: map<K, V>,
                                      all: set<Entry<K, V>>) {
    Moving(hashfn, src, dst, m) && Total(src) + Total(dst) == |m| && Entries(src) <= all && Entries(dst) <= all
  }

  lemma HalfwayStep<K(!new), V>(hashfn: K -> bv32, src: Chains<K, V>, dst: Chains<K, V>, m: map<K, V>,
                                all: set<Entry<K, V>>, i: nat)
    requires Halfway(hashfn, src, dst, m, all) && i < |src| && src[i] != []
    ensures Halfway(hashfn, Cut(src, i, 0), Put(dst, src[i][0]), m, all)
    ensures forall e | e in src[i] :: e in all
  {
    var cut := Cut(src, i, 0);
    MoveKeeps(hashfn, src, dst, m, i);
    assert src[i][0] in src[i];
    EntriesPut(dst, src[i][0]);
    forall e | e in Entries(cut) ensures e in all {
      var j :| 0 <= j < |cut| && e in cut[j];
      assert e in src[j];
    }
  }

  /** Moves the entries of bucket i one by one. */
  method MoveBucket<K(!new), V>(table: array<Entry?<K, V>>, newtable: array<Entry?<K, V>>, i: nat,
                                ghost hashfn: K -> bv32, ghost src: Chains<K, V>, ghost dst: Chains<K, V>,
                                ghost m: map<K, V>, ghost all: set<Entry<K, V>>)
    returns (ghost src': Chains<K, V>, ghost dst': Chains<K, V>)
    requires Halfway(hashfn, src, dst, m, all) && table != newtable && i < |src|
    requires Backed(table, src) && Backed(newtable, dst)
    modifies table, newtable, all
    ensures Halfway(hashfn, src', dst', m, all) && Backed(table, src') && Backed(newtable, dst')
    ensures src'[i] == [] && forall j | 0 <= j < |src| && src[j] == [] :: src'[j] == []
  {
    src', dst' := src, dst;
    while table[i] != null
      invariant Halfway(hashfn, src', dst', m, all) && Backed(table, src') && Backed(newtable, dst')
      invariant forall j | 0 <= j < |src| && src[j] == [] :: src'[j] == []
      decreases |src'[i]|
    {
      assert Chain(table[i], src'[i]);
      HalfwayStep(hashfn, src', dst', m, all, i);
      src', dst' := MoveEntry(table, newtable, i, hashfn, src', dst', m);
    }
    assert Chain(table[i], src'[i]);
  }

  /** Moves every entry to the new table. */
  method MoveAll<K(!new), V>(table: array<Entry?<K, V>>, newtable: array<Entry?<K, V>>,
                             ghost hashfn: K -> bv32, ghost chains: Chains<K, V>, ghost m: map<K, V>)
    returns (ghost dst: Chains<K, V>)
    requires Filed(hashfn, chains, m) && Backed(table, chains) && newtable != table
    requires newtable.Length > 0 && Backed(newtable, Bare<K, V>(newtable.Length))
    modifies table, newtable, Entries(chains)
    ensures Filed(hashfn, dst, m) && Backed(newtable, dst) && Entries(dst) <= Entries(chains)
  {
    ghost var src;
    MovingFrom(hashfn, chains, newtable.Length, m);
    src, dst := MoveBuckets(table, newtable, hashfn, chains, Bare<K, V>(newtable.Length), m, Entries(chains));
    MovingTo(hashfn, src, dst, m);
  }

  /** Its loop over the buckets. */
  method MoveBuckets<K(!new), V>(table: array<Entry?<K, V>>, newtable: array<Entry?<K, V>>,
                                 ghost hashfn: K -> bv32, ghost src0: Chains<K, V>, ghost dst0: Chains<K, V>,
                                 ghost m: map<K, V>, ghost all: set<Entry<K, V>>)
    returns (ghost src: Chains<K, V>, ghost dst: Chains<K, V>)
    requires Halfway(hashfn, src0, dst0, m, all) && table != newtable && Backed(table, src0) && Backed(newtable, dst0)
    modifies table, newtable, all
    ensures Halfway(hashfn, src, dst, m, all) && Backed(newtable, dst) && forall j | 0 <= j < |src| :: src[j] == []
  {
    src, dst := src0, dst0;
    for i := 0 to table.Length
      invariant Backed(table, src) && Backed(newtable, dst) && Halfway(hashfn, src, dst, m, all)
      invariant forall j | 0 <= j < i :: src[j] == []
    {
      src, dst := MoveBucket(table, newtable, i, hashfn, src, dst, m, all);
    }
  }

  /** Buckets without entries. */
  ghost function Bare<K, V>(n: nat): (r: Chains<K, V>)
    ensures |r| == n && forall i | 0 <= i < n :: r[i] == []
  {
    seq(n, _ => [])
  }

  lemma BareAgrees<K, V>(hashfn: K -> bv32, n: nat, k: K)
    requires n > 0
    ensures Lookup(hashfn, Bare<K, V>(n), k) == null
  {
  }

  class Hashtable<K(==, !new), V> {
    var table: array<Entry?<K, V>>
    var tablelength: nat
    var entrycount: nat
    var loadlimit: nat
    var primeindex: nat
    const hashfn: K -> bv32
    ghost var chains: Chains<K, V>
    ghost var contents: map<K, V>

    ghost predicate Shaped()
      reads this, table
    {
      && primeindex < PRIME_TABLE_LENGTH == |PRIMES|
      && 0 < tablelength == table.Length == |chains| == PRIMES[primeindex]
      && loadlimit == LoadLimit(tablelength)
    }

    /** The entries in the buckets are those of the map, as many as the count says. */
    ghost predicate Holding()
      reads this
    {
      Filed(hashfn, chains, contents)
    }

    ghost predicate Valid()
      reads this, table, Entries(chains)
    {
      Shaped() && Backed(table, chains) && Holding() && entrycount == |contents|
    }

    /** Picks the smallest prime of the table above the size asked for. */
    constructor Init(pindex: nat, hashf: K -> bv32)
      requires pindex < PRIME_TABLE_LENGTH
      ensures Valid() && fresh(table) && contents == map[] && chains == Bare(PRIMES[pindex])
      ensures hashfn == hashf && tablelength == PRIMES[pindex]
    {
      var size := PRIMES[pindex];
      table := new Entry?<K, V>[size](_ => null);
      tablelength, primeindex, entrycount, hashfn, loadlimit := size, pindex, 0, hashf, LoadLimit(size);
      chains, contents := Bare(size), map[];
      new;
      TotalEmpty(chains);
      forall k ensures Agrees(hashfn, chains, contents, k) { BareAgrees<K, V>(hashfn, size, k); }
    }

    static method CreateHashtable(minsize: nat, hashf: K -> bv32) returns (h: Hashtable?<K, V>)
      ensures h == null <==> minsize > 0x4000_0000
      ensures h != null ==> fresh(h) && h.Valid() && fresh(h.table) && h.contents == map[] && h.hashfn == hashf
      ensures h != null ==> h.tablelength > minsize && forall p | p in PRIMES && p > minsize :: h.tablelength <= p
    {
      if minsize > MAX_MINSIZE { return null; }
      var pindex := 0;
      while pindex < PRIME_TABLE_LENGTH && PRIMES[pindex] <= minsize
        invariant 0 <= pindex < PRIME_TABLE_LENGTH
        invariant forall i | 0 <= i < pindex :: PRIMES[i] <= minsize
      {
        pindex := pindex + 1;
      }
      h := new Hashtable.Init(pindex, hashf);
      forall p | p in PRIMES && p > minsize ensures h.tablelength <= p {
        var i :| 0 <= i < |PRIMES| && PRIMES[i] == p;
        PrimesAscend(pindex, i);
      }
    }

    method Count() returns (n: nat)
      requires Valid()
      ensures n == |contents|
    {
      n := entrycount;
    }

    method Search(k: K) returns (r: Option<V>)
      requires Valid()
      ensures r == if k in contents then Some(contents[k]) else None
    {
      var hashvalue := Hash(hashfn, k);
      var index := IndexFor(tablelength, hashvalue);
      var e := table[index];
      assert Agrees(hashfn, chains, contents, k);
      ghost var es := chains[index];
      while e != null
        invariant Chain(e, es) && (forall x | x in es :: x in chains[index]) && Find(es, k) == Find(chains[index], k)
        decreases |es|
      {
        if hashvalue == e.h && k == e.k { return Some(e.v); }
        e := e.next;
        es := es[1..];
      }
      r := None;
    }

    method Remove(k: K) returns (r: Option<V>)
      requires Valid()
      modifies this, table, Entries(chains)
      ensures Valid() && r == (if k in old(contents) then Some(old(contents)[k]) else None)
      ensures contents == old(contents) - {k} && table == old(table) && Entries(chains) <= old(Entries(chains))
    {
      var index, prev, e;
      ghost var n;
      index, prev, e, n := Locate(k);
      if e == null {
        assert contents - {k} == contents;
        return None;
      }
      assert prev != null ==> prev in chains[index];
      Unlink(prev, e, index, n);
      r := Some(e.v);
    }

    /** The entry of a key, and its predecessor in the chain. */
    method Locate(k: K) returns (index: nat, prev: Entry?<K, V>, e: Entry?<K, V>, ghost n: nat)
      requires Valid()
      ensures e == null <==> k !in contents
      ensures e != null ==> index < tablelength && n < |chains[index]| && e == chains[index][n] && e.k == k
      ensures e != null ==> prev == if n == 0 then null else chains[index][n - 1]
    {
      var hashvalue := Hash(hashfn, k);
      index := IndexFor(tablelength, hashvalue);
      e, prev, n := table[index], null, 0;
      assert Agrees(hashfn, chains, contents, k);
      ghost var es := chains[index];
      assert es[0..] == es;
      while e != null
        invariant n <= |es| && Chain(e, es[n..]) && Find(es[n..], k) == Find(es, k)
        invariant prev == if n == 0 then null else es[n - 1]
        decreases |es| - n
      {
        assert e == es[n] && es[n..][1..] == es[n + 1..];
        assert e in chains[index];
        if hashvalue == e.h && k == e.k { return; }
        prev := e;
        e := e.next;
        n := n + 1;
      }
    }

    /** Takes entry n of a bucket out: its predecessor, or the bucket, gets the successor. */
    method Unlink(prev: Entry?<K, V>, e: Entry<K, V>, index: nat, ghost n: nat)
      requires Valid() && index < tablelength && n < |chains[index]| && e == chains[index][n]
      requires prev == if n == 0 then null else chains[index][n - 1]
      modifies this`chains, this`contents, this`entrycount, table, prev
      ensures Valid() && contents == old(contents) - {e.k} && Entries(chains) <= old(Entries(chains))
      ensures old(e.k in contents && contents[e.k] == e.v)
    {
      UnlinkAgrees(hashfn, chains, contents, index, n);
      CutEntry(table, prev, e, index, hashfn, chains, n);
      entrycount := entrycount - 1;
      chains, contents := Cut(chains, index, n), contents - {e.k};
    }

    /** Grows the table to the next prime unless it has the last one. The map stays. */
    method Expand() returns (grown: bool)
      requires Shaped() && Backed(table, chains) && Holding()
      modifies this, table, Entries(chains)
      ensures Shaped() && Backed(table, chains) && Holding()
      ensures contents == old(contents) && entrycount == old(entrycount)
      ensures grown <==> old(primeindex) < PRIME_TABLE_LENGTH - 1
      ensures if grown then primeindex == old(primeindex) + 1 && fresh(table) else
                table == old(table) && chains == old(chains)
      ensures Entries(chains) <= old(Entries(chains))
    {
      if primeindex == PRIME_TABLE_LENGTH - 1 { return false; }
      Grow();
      grown := true;
    }

    method Grow()
      requires Shaped() && Backed(table, chains) && Holding() && primeindex < PRIME_TABLE_LENGTH - 1
      modifies this, table, Entries(chains)
      ensures Shaped() && Backed(table, chains) && Holding()
      ensures contents == old(contents) && entrycount == old(entrycount)
      ensures primeindex == old(primeindex) + 1 && fresh(table) && Entries(chains) <= old(Entries(chains))
    {
      var newtable := NewTable<K, V>(PRIMES[primeindex + 1]);
      Transfer(newtable);
    }

    method Transfer(newtable: array<Entry?<K, V>>)
      requires primeindex < PRIME_TABLE_LENGTH - 1 && 0 < newtable.Length == PRIMES[primeindex + 1]
      requires Holding() && Backed(table, chains) && newtable != table
      requires Backed(newtable, Bare<K, V>(newtable.Length))
      modifies this`table, this`chains, this`primeindex, this`tablelength, this`loadlimit
      modifies table, newtable, Entries(chains)
      ensures Shaped() && Backed(table, chains) && Holding()
      ensures primeindex == old(primeindex) + 1 && table == newtable && Entries(chains) <= old(Entries(chains))
    {
      ghost var dst := MoveAll(table, newtable, hashfn, chains, contents);
      Adopt(newtable, dst);
    }

    method Adopt(newtable: array<Entry?<K, V>>, ghost dst: Chains<K, V>)
      requires primeindex < PRIME_TABLE_LENGTH - 1 && 0 < newtable.Length == PRIMES[primeindex + 1]
      requires Filed(hashfn, dst, contents) && Backed(newtable, dst)
      modifies this`table, this`chains, this`primeindex, this`tablelength, this`loadlimit
      ensures Shaped() && Backed(table, chains) && Holding()
      ensures primeindex == old(primeindex) + 1 && table == newtable && chains == dst
    {
      primeindex := primeindex + 1;
      table, chains := newtable, dst;
      tablelength := newtable.Length;
      loadlimit := LoadLimit(tablelength);
    }

    /** Adds a new key. The table grows first when it is over its load limit. */
    method Insert(k: K, v: V)
      requires Valid() && k !in contents
      modifies this, table, Entries(chains)
      ensures Valid() && contents == old(contents)[k := v]
      ensures var full := old(entrycount) + 1 > old(loadlimit) && old(primeindex) < PRIME_TABLE_LENGTH - 1;
              primeindex == (if full then old(primeindex) + 1 else old(primeindex))
      ensures table == old(table) || fresh(table)
      ensures forall e | e in Entries(chains) :: e in old(Entries(chains)) || fresh(e)
    {
      MakeRoom();
      var e := new Entry(k, v, Hash(hashfn, k));
      Link(e);
    }

    /** Counts the entry that comes, and grows if that is over the limit; a table that
        cannot grow takes the entry all the same. */
    method MakeRoom()
      requires Valid()
      modifies this, table, Entries(chains)
      ensures Shaped() && Backed(table, chains) && Holding() && contents == old(contents)
      ensures entrycount == |contents| + 1 && (table == old(table) || fresh(table))
      ensures Entries(chains) <= old(Entries(chains))
      ensures var full := old(entrycount) + 1 > old(loadlimit) && old(primeindex) < PRIME_TABLE_LENGTH - 1;
              primeindex == (if full then old(primeindex) + 1 else old(primeindex))
    {
      entrycount := entrycount + 1;
      if entrycount > loadlimit {
        var grown := Expand();
      }
    }

    method Link(e: Entry<K, V>)
      requires Shaped() && Backed(table, chains) && Holding() && entrycount == |contents| + 1
      requires e.h == Hash(hashfn, e.k) && e.k !in contents && e !in Entries(chains)
      modifies this`chains, this`contents, table, e
      ensures Valid() && contents == old(contents)[e.k := e.v] && Entries(chains) == old(Entries(chains)) + {e}
    {
      LinkAgrees(hashfn, chains, contents, e);
      PutEntry(table, e, chains);
      chains, contents := Put(chains, e), contents[e.k := e.v];
    }
  }

  lemma LinkAgrees<K(!new), V>(hashfn: K -> bv32, chains: Chains<K, V>, m: map<K, V>, e: Entry<K, V>)
    requires Filed(hashfn, chains, m) && e.h == Hash(hashfn, e.k) && e.k !in m
    ensures Filed(hashfn, Put(chains, e), m[e.k := e.v])
    ensures Entries(Put(chains, e)) == Entries(chains) + {e} && |m[e.k := e.v]| == |m| + 1
  {
    assert Agrees(hashfn, chains, m, e.k);
    PutKeeps(hashfn, chains, e);
    EntriesPut(chains, e);
    var m' := m[e.k := e.v];
    forall k ensures Agrees(hashfn, Put(chains, e), m', k) {
      assert Agrees(hashfn, chains, m, k);
    }
  }

  lemma EntriesPut<K, V>(chains: Chains<K, V>, e: Entry<K, V>)
    requires chains != []
    ensures Entries(Put(chains, e)) == Entries(chains) + {e}
  {
    var put, i := Put(chains, e), IndexFor(|chains|, e.h);
    assert e in put[i] && e in Entries(put);
    forall x | x in Entries(put) ensures x in Entries(chains) + {e} {
      var j :| 0 <= j < |put| && x in put[j];
      assert x != e ==> x in chains[j];
    }
    forall x | x in Entries(chains) ensures x in Entries(put) {
      var j :| 0 <= j < |chains| && x in chains[j];
      assert x in put[j];
    }
  }

  lemma UnlinkAgrees<K(!new), V>(hashfn: K -> bv32, chains: Chains<K, V>, m: map<K, V>, i: nat, n: nat)
    requires Filed(hashfn, chains, m) && i < |chains| && n < |chains[i]|
    ensures var k0 := chains[i][n].k;
            k0 in m && m[k0] == chains[i][n].v && |m - {k0}| == |m| - 1 &&
            Filed(hashfn, Cut(chains, i, n), m - {k0}) && Entries(Cut(chains, i, n)) <= Entries(chains)
  {
    var k0, cut := chains[i][n].k, Cut(chains, i, n);
    LookupAt(hashfn, chains, i, n);
    assert Agrees(hashfn, chains, m, k0);
    assert (m - {k0}).Keys == m.Keys - {k0};
    CutKeeps(hashfn, chains, i, n);
    assert forall j, x | 0 <= j < |cut| && x in cut[j] :: x in chains[j];
    forall k ensures Agrees(hashfn, cut, m - {k0}, k) {
      assert Agrees(hashfn, chains, m, k);
      LookupCut(hashfn, chains, i, n, k);
    }
  }

  lemma MovingFrom<K(!new), V>(hashfn: K -> bv32, chains: Chains<K, V>, n: nat, m: map<K, V>)
    requires n > 0 && Filed(hashfn, chains, m)
    ensures Halfway(hashfn, chains, Bare(n), m, Entries(chains))
  {
    TotalEmpty<Entry<K, V>>(Bare(n));
    forall k ensures AgreeTogether(hashfn, chains, Bare(n), m, k) {
      assert Agrees(hashfn, chains, m, k);
      BareAgrees<K, V>(hashfn, n, k);
    }
  }

  lemma MovingTo<K(!new), V>(hashfn: K -> bv32, src: Chains<K, V>, dst: Chains<K, V>, m: map<K, V>)
    requires Moving(hashfn, src, dst, m) && Total(src) + Total(dst) == |m|
    requires forall j | 0 <= j < |src| :: src[j] == []
    ensures Filed(hashfn, dst, m)
  {
    TotalEmpty(src);
    forall k ensures Agrees(hashfn, dst, m, k) {
      assert AgreeTogether(hashfn, src, dst, m, k);
    }
  }

  lemma PrimesAscend(i: nat, j: nat)
    requires i < |PRIMES| && j < |PRIMES|
    ensures i <= j <==> PRIMES[i] <= PRIMES[j]
  {
  }
}
