/** Whole runs of the cache: it refines a plain map exactly on keys whose blob
    files are distinct, and it recovers from a crash between any two file writes. */
module TurboRuns {
  import opened Basics
  import opened TurboRag

  // ---------------------------------------------------------------- runs

  datatype Op =
    | PutOp(e: Entry, blob: Blob, now: nat)
    | InvalidateOp(path: string, hash: nat)
    | ReopenOp

  function Exec(s: State, op: Op): State {
    match op
    case PutOp(e, blob, now) => Put(s, e, blob, now)
    case InvalidateOp(path, hash) => Invalidate(s, path, hash)
    case ReopenOp => Open(s.disk)
  }

  function Run(s: State, ops: seq<Op>): State {
    if ops == [] then s else Exec(Run(s, ops[..|ops| - 1]), ops[|ops| - 1])
  }

  /** A root directory nothing was ever written to. */
  const EmptyRoot: State := Open(Disk(None, map[]))

  // ---------------------------------------------------------------- the plain map

  datatype Item = Item(e: Entry, blob: Blob)

  type Plain = map<Key, Item>

  function PlainExec(m: Plain, op: Op): Plain {
    match op
    case PutOp(e, blob, _) => m[KeyOf(e) := Item(e, blob)]
    case InvalidateOp(path, hash) =>
      map k | k in m && !(m[k].e.sourcePath == path && m[k].e.sourceHash != hash) :: m[k]
    case ReopenOp => m
  }

  function PlainRun(ops: seq<Op>): Plain {
    if ops == [] then map[] else PlainExec(PlainRun(ops[..|ops| - 1]), ops[|ops| - 1])
  }

  function PlainGet(m: Plain, key: Key): Option<Blob> {
    if key in m then Some(m[key].blob) else None
  }

  function KeysPut(ops: seq<Op>): set<Key> {
    set i | 0 <= i < |ops| && ops[i].PutOp? :: KeyOf(ops[i].e)
  }

  /** No two of the keys share a blob file. */
  ghost predicate DistinctPaths(keys: set<Key>) {
    forall a, b :: a in keys && b in keys && PathOf(a) == PathOf(b) ==> a == b
  }

  // ---------------------------------------------------------------- the manifest lists

  ghost predicate UniqueKeys(mem: seq<Stored>) {
    forall i, j :: 0 <= i < j < |mem| ==> KeyOf(mem[i].entry) != KeyOf(mem[j].entry)
  }

  lemma {:induction false} OthersMembers(mem: seq<Stored>, key: Key)
    ensures forall x :: x in Others(mem, key) <==> x in mem && KeyOf(x.entry) != key
    decreases |mem|
  {
    if mem != [] {
      var n := |mem| - 1;
      OthersMembers(mem[..n], key);
      assert mem == mem[..n] + [mem[n]];
    }
  }

  lemma {:induction false} OthersUnique(mem: seq<Stored>, key: Key)
    requires UniqueKeys(mem)
    ensures UniqueKeys(Others(mem, key))
    decreases |mem|
  {
    if mem != [] {
      var n := |mem| - 1;
      OthersUnique(mem[..n], key);
      OthersMembers(mem[..n], key);
      AppendUnique(Others(mem[..n], key), mem[..n], mem[n]);
    }
  }

  /** Appending the next entry to a sublist of those before it keeps keys unique. */
  lemma AppendUnique(kept: seq<Stored>, before: seq<Stored>, x: Stored)
    requires UniqueKeys(kept) && UniqueKeys(before + [x]) && forall y :: y in kept ==> y in before
    ensures UniqueKeys(kept + [x])
  {
    var all := before + [x];
    forall i | 0 <= i < |kept|
      ensures KeyOf(kept[i].entry) != KeyOf(x.entry)
    {
      assert kept[i] in before;
      var j :| 0 <= j < |before| && before[j] == kept[i];
      assert all[j] == kept[i] && all[|before|] == x;
    }
  }

  lemma {:induction false} FreshMembers(mem: seq<Stored>, path: string, hash: nat)
    ensures forall x :: x in Fresh(mem, path, hash) <==> x in mem && !Stale(x, path, hash)
    decreases |mem|
  {
    if mem != [] {
      var n := |mem| - 1;
      FreshMembers(mem[..n], path, hash);
      assert mem == mem[..n] + [mem[n]];
    }
  }

  lemma {:induction false} FreshUnique(mem: seq<Stored>, path: string, hash: nat)
    requires UniqueKeys(mem)
    ensures UniqueKeys(Fresh(mem, path, hash))
    decreases |mem|
  {
    if mem != [] {
      var n := |mem| - 1;
      FreshUnique(mem[..n], path, hash);
      FreshMembers(mem[..n], path, hash);
      assert mem[..n] + [mem[n]] == mem;
      AppendUnique(Fresh(mem[..n], path, hash), mem[..n], mem[n]);
    }
  }

  lemma {:induction false} EvictedMembers(mem: seq<Stored>, path: string, hash: nat)
    ensures forall k :: k in Evicted(mem, path, hash) <==> exists x :: x in mem && Stale(x, path, hash) && KeyOf(x.entry) == k
    decreases |mem|
  {
    if mem != [] {
      var n := |mem| - 1;
      EvictedMembers(mem[..n], path, hash);
      assert mem == mem[..n] + [mem[n]];
    }
  }

  lemma {:induction false} RemoveBlobsLeaves(disk: Disk, keys: seq<Key>)
    ensures RemoveBlobs(disk, keys).manifest == disk.manifest
    ensures forall p :: p in RemoveBlobs(disk, keys).blobs
                        <==> p in disk.blobs && forall k :: k in keys ==> PathOf(k) != p
    ensures forall p :: p in RemoveBlobs(disk, keys).blobs ==> RemoveBlobs(disk, keys).blobs[p] == disk.blobs[p]
    decreases |keys|
  {
    if keys != [] {
      var n := |keys| - 1;
      RemoveBlobsLeaves(disk, keys[..n]);
      assert keys == keys[..n] + [keys[n]];
    }
  }

  // ---------------------------------------------------------------- refinement

  /** One manifest entry and its blob file, as the plain map has them. */
  ghost predicate Backed(s: State, m: Plain, x: Stored) {
    var k := KeyOf(x.entry);
    k in m && m[k].e == x.entry && PathOf(k) in s.disk.blobs && s.disk.blobs[PathOf(k)] == m[k].blob
  }

  /** The cache state stands for the plain map. */
  ghost predicate Refines(s: State, m: Plain) {
    && s.mem == Loaded(s.disk)
    && UniqueKeys(s.mem)
    && (forall x {:trigger Backed(s, m, x)} :: x in s.mem ==> Backed(s, m, x))
    && (forall k :: k in m ==> Has(s.mem, k))
  }

  lemma RefinesGet(s: State, m: Plain, key: Key)
    requires Refines(s, m)
    ensures Get(s, key) == PlainGet(m, key)
  {
    if Has(s.mem, key) {
      var i :| 0 <= i < |s.mem| && KeyOf(s.mem[i].entry) == key;
      assert Backed(s, m, s.mem[i]);
    }
  }

  lemma HasMember(mem: seq<Stored>, x: Stored)
    requires x in mem
    ensures Has(mem, KeyOf(x.entry))
  {
  }

  lemma PutRefines(s: State, m: Plain, e: Entry, blob: Blob, now: nat)
    requires Refines(s, m) && DistinctPaths(m.Keys + {KeyOf(e)})
    ensures Refines(Put(s, e, blob, now), m[KeyOf(e) := Item(e, blob)])
  {
    var key := KeyOf(e);
    var t, m1 := Put(s, e, blob, now), m[key := Item(e, blob)];
    OthersMembers(s.mem, key);
    OthersUnique(s.mem, key);
    assert t.mem == Others(s.mem, key) + [Stored(e, now)];
    forall i | 0 <= i < |Others(s.mem, key)|
      ensures KeyOf(t.mem[i].entry) != key
    {
      assert Others(s.mem, key)[i] in Others(s.mem, key);
    }
    assert UniqueKeys(t.mem);
    forall x | x in t.mem
      ensures Backed(t, m1, x)
    {
      if x in Others(s.mem, key) {
        assert Backed(s, m, x);
        assert KeyOf(x.entry) in m.Keys && PathOf(KeyOf(x.entry)) != PathOf(key);
      }
    }
    forall k | k in m1
      ensures Has(t.mem, k)
    {
      if k == key {
        assert t.mem[|t.mem| - 1] == Stored(e, now);
      } else {
        var i :| 0 <= i < |s.mem| && KeyOf(s.mem[i].entry) == k;
        assert s.mem[i] in s.mem && s.mem[i] in Others(s.mem, key);
        assert s.mem[i] in t.mem;
        HasMember(t.mem, s.mem[i]);
      }
    }
  }

  lemma InvalidateKeepsBacked(s: State, m: Plain, path: string, hash: nat, x: Stored)
    requires Refines(s, m) && DistinctPaths(m.Keys) && x in s.mem && !Stale(x, path, hash)
    ensures KeyOf(x.entry) in m && PathOf(KeyOf(x.entry)) in RemoveBlobs(s.disk, Evicted(s.mem, path, hash)).blobs
    ensures RemoveBlobs(s.disk, Evicted(s.mem, path, hash)).blobs[PathOf(KeyOf(x.entry))] == m[KeyOf(x.entry)].blob
  {
    var evicted := Evicted(s.mem, path, hash);
    EvictedMembers(s.mem, path, hash);
    RemoveBlobsLeaves(s.disk, evicted);
    assert Backed(s, m, x);
    forall k | k in evicted
      ensures PathOf(k) != PathOf(KeyOf(x.entry))
    {
      var y :| y in s.mem && Stale(y, path, hash) && KeyOf(y.entry) == k;
      assert Backed(s, m, y);
    }
  }

  lemma InvalidateRefines(s: State, m: Plain, path: string, hash: nat)
    requires Refines(s, m) && DistinctPaths(m.Keys)
    ensures Refines(Invalidate(s, path, hash), PlainExec(m, InvalidateOp(path, hash)))
  {
    var evicted := Evicted(s.mem, path, hash);
    var m1 := PlainExec(m, InvalidateOp(path, hash));
    var t := State(Fresh(s.mem, path, hash), WriteManifest(RemoveBlobs(s.disk, evicted), Fresh(s.mem, path, hash)));
    FreshMembers(s.mem, path, hash);
    FreshUnique(s.mem, path, hash);
    forall x | x in t.mem
      ensures Backed(t, m1, x)
    {
      assert Backed(s, m, x);
      InvalidateKeepsBacked(s, m, path, hash, x);
    }
    forall k | k in m1
      ensures Has(t.mem, k)
    {
      var i :| 0 <= i < |s.mem| && KeyOf(s.mem[i].entry) == k;
      assert s.mem[i] in s.mem && Backed(s, m, s.mem[i]);
      HasMember(t.mem, s.mem[i]);
    }
    assert Refines(t, m1);
    if evicted == [] {
      NothingStale(s.mem, path, hash);
      NothingToDrop(s, m, path, hash);
    }
  }

  lemma NothingToDrop(s: State, m: Plain, path: string, hash: nat)
    requires Refines(s, m) && forall i :: 0 <= i < |s.mem| ==> !Stale(s.mem[i], path, hash)
    ensures PlainExec(m, InvalidateOp(path, hash)) == m
  {
    forall k | k in m
      ensures !(m[k].e.sourcePath == path && m[k].e.sourceHash != hash)
    {
      var i :| 0 <= i < |s.mem| && KeyOf(s.mem[i].entry) == k;
      assert Backed(s, m, s.mem[i]);
    }
  }

  lemma {:induction false} PlainKeys(ops: seq<Op>)
    ensures PlainRun(ops).Keys <= KeysPut(ops)
    decreases |ops|
  {
    if ops != [] {
      PlainKeys(ops[..|ops| - 1]);
      KeysPutStep(ops);
    }
  }

  lemma KeysPutStep(ops: seq<Op>)
    requires ops != []
    ensures KeysPut(ops[..|ops| - 1]) <= KeysPut(ops)
    ensures ops[|ops| - 1].PutOp? ==> KeyOf(ops[|ops| - 1].e) in KeysPut(ops)
  {
  }

  /** Over any run from an empty root, on keys with distinct blob files, the cache
      state stands for the plain map; between operations the manifest on disk is
      the one in memory, and no key occurs twice in it. */
  lemma {:induction false} RunRefines(ops: seq<Op>)
    requires DistinctPaths(KeysPut(ops))
    ensures Refines(Run(EmptyRoot, ops), PlainRun(ops))
    decreases |ops|
  {
    if ops != [] {
      var n := |ops| - 1;
      KeysPutStep(ops);
      RunRefines(ops[..n]);
      PlainKeys(ops[..n]);
      var s, m := Run(EmptyRoot, ops[..n]), PlainRun(ops[..n]);
      match ops[n] {
        case PutOp(e, blob, now) => PutRefines(s, m, e, blob, now);
        case InvalidateOp(path, hash) => InvalidateRefines(s, m, path, hash);
        case ReopenOp => assert Open(s.disk) == s;
      }
    }
  }

  function KeySet(mem: seq<Stored>): set<Key> {
    set x | x in mem :: KeyOf(x.entry)
  }

  lemma KeySetStep(mem: seq<Stored>)
    requires mem != []
    ensures KeySet(mem) == KeySet(mem[..|mem| - 1]) + {KeyOf(mem[|mem| - 1].entry)}
  {
    assert mem == mem[..|mem| - 1] + [mem[|mem| - 1]];
  }

  lemma LastKeyIsNew(mem: seq<Stored>)
    requires mem != [] && UniqueKeys(mem)
    ensures KeyOf(mem[|mem| - 1].entry) !in KeySet(mem[..|mem| - 1])
  {
    var n := |mem| - 1;
    forall x | x in mem[..n]
      ensures KeyOf(x.entry) != KeyOf(mem[n].entry)
    {
      var i :| 0 <= i < n && mem[..n][i] == x;
      assert mem[i] == x;
    }
  }

  lemma {:induction false} UniqueKeysCount(mem: seq<Stored>)
    requires UniqueKeys(mem)
    ensures |KeySet(mem)| == |mem|
    decreases |mem|
  {
    if mem != [] {
      UniqueKeysCount(mem[..|mem| - 1]);
      KeySetStep(mem);
      LastKeyIsNew(mem);
    }
  }

  /** The number of entries is the size of the plain map. */
  lemma LenIsPlainSize(ops: seq<Op>)
    requires DistinctPaths(KeysPut(ops))
    ensures |Run(EmptyRoot, ops).mem| == |PlainRun(ops)|
  {
    var s, m := Run(EmptyRoot, ops), PlainRun(ops);
    RunRefines(ops);
    UniqueKeysCount(s.mem);
    forall x | x in s.mem
      ensures KeyOf(x.entry) in m
    {
      assert Backed(s, m, x);
    }
    forall k | k in m
      ensures k in KeySet(s.mem)
    {
      var i :| 0 <= i < |s.mem| && KeyOf(s.mem[i].entry) == k;
      assert s.mem[i] in s.mem;
    }
    assert KeySet(s.mem) == m.Keys;
  }

  /** `get` answers like the plain map after every run over these keys. */
  ghost predicate AgreesOnAllRuns(keys: set<Key>) {
    forall ops, key {:trigger KeysPut(ops), PathOf(key)} :: KeysPut(ops) <= keys ==>
      Get(Run(EmptyRoot, ops), key) == PlainGet(PlainRun(ops), key)
  }

  lemma RunTwo(s: State, a: Op, b: Op)
    ensures Run(s, [a, b]) == Exec(Exec(s, a), b)
    ensures PlainRun([a, b]) == PlainExec(PlainExec(map[], a), b)
  {
    assert [a, b][..1] == [a] && [a][..0] == [];
    assert Run(s, [a]) == Exec(s, a) && PlainRun([a]) == PlainExec(map[], a);
    assert [a, b][|[a, b]| - 1] == b;
  }

  lemma OneKeyEach(a: Op, b: Op)
    requires a.PutOp? && b.PutOp?
    ensures KeysPut([a, b]) == {KeyOf(a.e), KeyOf(b.e)}
  {
    var ops := [a, b];
    assert ops[0] == a && ops[1] == b;
  }

  /** A put under a second key with the same file changes what the first key reads. */
  lemma SecondPutShows(s: State, e: Entry, first: Blob, second: Blob, other: Entry)
    requires KeyOf(e) != KeyOf(other) && PathOf(KeyOf(e)) == PathOf(KeyOf(other))
    ensures Get(Put(Put(s, e, first, 0), other, second, 0), KeyOf(e)) == Some(second)
  {
    var mem := PutMem(s.mem, e, 0);
    assert mem[|mem| - 1] == Stored(e, 0);
    OthersMembers(mem, KeyOf(other));
    assert Stored(e, 0) in Others(mem, KeyOf(other));
    assert Stored(e, 0) in PutMem(mem, other, 0);
    HasMember(PutMem(mem, other, 0), Stored(e, 0));
  }

  /** Two puts to keys that share a file: the first key then reads the second blob. */
  lemma SharedFileDisagrees(a: Key, b: Key) returns (ops: seq<Op>)
    requires a != b && PathOf(a) == PathOf(b)
    ensures KeysPut(ops) == {a, b}
    ensures Get(Run(EmptyRoot, ops), a) != PlainGet(PlainRun(ops), a)
  {
    var ea, eb := Entry(a.chunkId, a.modelId, "", 0, 0), Entry(b.chunkId, b.modelId, "", 0, 0);
    var first, second := PutOp(ea, [0], 0), PutOp(eb, [1], 0);
    ops := [first, second];
    OneKeyEach(first, second);
    RunTwo(EmptyRoot, first, second);
    SecondPutShows(EmptyRoot, ea, [0], [1], eb);
    assert PlainRun(ops)[a] == Item(ea, [0]);
  }

  /** Distinct blob files are exactly what the plain-map reading needs. */
  lemma AgreesExactly(keys: set<Key>)
    ensures AgreesOnAllRuns(keys) <==> DistinctPaths(keys)
  {
    if DistinctPaths(keys) {
      forall ops, key | KeysPut(ops) <= keys
        ensures Get(Run(EmptyRoot, ops), key) == PlainGet(PlainRun(ops), key)
      {
        RunRefines(ops);
        RefinesGet(Run(EmptyRoot, ops), PlainRun(ops), key);
      }
    } else {
      var a, b :| a in keys && b in keys && PathOf(a) == PathOf(b) && a != b;
      var ops := SharedFileDisagrees(a, b);
      assert KeysPut(ops) <= keys;
    }
  }
}
