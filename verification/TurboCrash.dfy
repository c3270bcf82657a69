/** Crashes between two file writes of the cache, followed by reopening. */
module TurboCrash {
  import opened Basics
  import opened TurboRag
  import opened TurboRuns

  /** A crash after `step` file writes of an operation, and reopening. */
  function Crash(s: State, op: Op, step: nat): State {
    match op
    case PutOp(e, blob, now) => Open(PutDisk(s, e, blob, now, step))
    case InvalidateOp(path, hash) => Open(InvalidateDisk(s, path, hash, step))
    case ReopenOp => Open(s.disk)
  }

  /** The last step of an operation is the whole of it. */
  lemma FullStepIsExec(s: State, op: Op, step: nat)
    requires s.mem == Loaded(s.disk)
    requires op.PutOp? ==> step >= 2
    requires op.InvalidateOp? ==> step > |Evicted(s.mem, op.path, op.hash)|
    ensures Crash(s, op, step) == Exec(s, op)
  {
  }

  // ---------------------------------------------------------------- recovery of one operation

  /** The same, but for when entries were cached. */
  function Untimed(mem: seq<Stored>): seq<Entry> {
    seq(|mem|, i requires 0 <= i < |mem| => mem[i].entry)
  }

  ghost predicate SameButTime(a: State, b: State) {
    && Untimed(a.mem) == Untimed(b.mem)
    && a.disk.blobs == b.disk.blobs
    && (a.disk.manifest.None? <==> b.disk.manifest.None?)
    && (a.disk.manifest.Some? ==> Untimed(a.disk.manifest.value) == Untimed(b.disk.manifest.value))
  }

  /** The same call, possibly at another time. */
  ghost predicate SameCall(a: Op, b: Op) {
    match a
    case PutOp(e, blob, _) => b.PutOp? && b.e == e && b.blob == blob
    case _ => a == b
  }

  lemma UntimedAppend(mem: seq<Stored>, x: Stored)
    ensures Untimed(mem + [x]) == Untimed(mem) + [x.entry]
  {
  }

  lemma UntimedPrefix(a: seq<Stored>, b: seq<Stored>)
    requires a != [] && Untimed(a) == Untimed(b)
    ensures |a| == |b| && Untimed(a[..|a| - 1]) == Untimed(b[..|a| - 1]) && a[|a| - 1].entry == b[|a| - 1].entry
  {
    assert |Untimed(a)| == |Untimed(b)|;
    forall i | 0 <= i < |a|
      ensures a[i].entry == b[i].entry
    {
      assert Untimed(a)[i] == Untimed(b)[i];
    }
  }

  lemma {:induction false} OthersUntimed(a: seq<Stored>, b: seq<Stored>, key: Key)
    requires Untimed(a) == Untimed(b)
    ensures Untimed(Others(a, key)) == Untimed(Others(b, key))
    decreases |a|
  {
    assert |Untimed(a)| == |Untimed(b)|;
    if a != [] {
      var n := |a| - 1;
      UntimedPrefix(a, b);
      OthersUntimed(a[..n], b[..n], key);
      if KeyOf(a[n].entry) == key {
        assert Others(a, key) == Others(a[..n], key) && Others(b, key) == Others(b[..n], key);
      } else {
        UntimedAppend(Others(a[..n], key), a[n]);
        UntimedAppend(Others(b[..n], key), b[n]);
      }
    }
  }

  lemma {:induction false} FreshUntimed(a: seq<Stored>, b: seq<Stored>, path: string, hash: nat)
    requires Untimed(a) == Untimed(b)
    ensures Untimed(Fresh(a, path, hash)) == Untimed(Fresh(b, path, hash))
    ensures Evicted(a, path, hash) == Evicted(b, path, hash)
    decreases |a|
  {
    assert |Untimed(a)| == |Untimed(b)|;
    if a != [] {
      var n := |a| - 1;
      UntimedPrefix(a, b);
      FreshUntimed(a[..n], b[..n], path, hash);
      if Stale(a[n], path, hash) {
        assert Fresh(a, path, hash) == Fresh(a[..n], path, hash) && Fresh(b, path, hash) == Fresh(b[..n], path, hash);
      } else {
        UntimedAppend(Fresh(a[..n], path, hash), a[n]);
        UntimedAppend(Fresh(b[..n], path, hash), b[n]);
      }
    }
  }

  /** No operation looks at the times. */
  lemma ExecIgnoresTime(a: State, b: State, opa: Op, opb: Op)
    requires SameButTime(a, b) && SameCall(opa, opb)
    ensures SameButTime(Exec(a, opa), Exec(b, opb))
  {
    match opa {
      case PutOp(e, blob, now) =>
        OthersUntimed(a.mem, b.mem, KeyOf(e));
        UntimedAppend(Others(a.mem, KeyOf(e)), Stored(e, now));
        UntimedAppend(Others(b.mem, KeyOf(e)), Stored(e, opb.now));
      case InvalidateOp(path, hash) =>
        FreshUntimed(a.mem, b.mem, path, hash);
        SameRemovals(a.disk, b.disk, Evicted(a.mem, path, hash));
      case ReopenOp =>
    }
  }

  lemma SameRemovals(a: Disk, b: Disk, keys: seq<Key>)
    requires a.blobs == b.blobs
    ensures RemoveBlobs(a, keys).blobs == RemoveBlobs(b, keys).blobs
  {
  }

  lemma {:induction false} OthersOfOthers(mem: seq<Stored>, x: Stored)
    ensures Others(Others(mem, KeyOf(x.entry)) + [x], KeyOf(x.entry)) == Others(mem, KeyOf(x.entry))
  {
    var key := KeyOf(x.entry);
    var o := Others(mem, key);
    assert (o + [x])[..|o|] == o;
    OthersMembers(mem, key);
    OthersKeepsAll(o, key);
  }

  lemma {:induction false} OthersKeepsAll(mem: seq<Stored>, key: Key)
    requires forall x :: x in mem ==> KeyOf(x.entry) != key
    ensures Others(mem, key) == mem
    decreases |mem|
  {
    if mem != [] {
      var n := |mem| - 1;
      assert mem[n] in mem;
      OthersKeepsAll(mem[..n], key);
      assert mem == mem[..n] + [mem[n]];
    }
  }

  /** A put cut short, reopened and repeated ends where the uninterrupted put does. */
  lemma PutRecovers(s: State, e: Entry, blob: Blob, now: nat, again: nat, step: nat)
    requires s.mem == Loaded(s.disk)
    ensures SameButTime(Put(Open(PutDisk(s, e, blob, now, step)), e, blob, again), Put(s, e, blob, now))
  {
    var key := KeyOf(e);
    UntimedAppend(Others(s.mem, key), Stored(e, again));
    UntimedAppend(Others(s.mem, key), Stored(e, now));
    if step >= 2 {
      OthersOfOthers(s.mem, Stored(e, now));
    }
  }

  lemma RemoveTwice(disk: Disk, keys: seq<Key>, step: nat)
    requires step <= |keys|
    ensures RemoveBlobs(RemoveBlobs(disk, keys[..step]), keys) == RemoveBlobs(disk, keys)
  {
    var d := RemoveBlobs(disk, keys[..step]);
    forall k | k in keys[..step]
      ensures k in keys
    {
    }
    RemoveBlobsLeaves(disk, keys[..step]);
    RemoveBlobsLeaves(d, keys);
    RemoveBlobsLeaves(disk, keys);
    SameMap(RemoveBlobs(d, keys).blobs, RemoveBlobs(disk, keys).blobs);
  }

  lemma SameMap(a: map<BlobPath, Blob>, b: map<BlobPath, Blob>)
    requires forall p :: p in a <==> p in b
    requires forall p :: p in a ==> a[p] == b[p]
    ensures a == b
  {
  }

  lemma {:induction false} FreshHasNoneStale(mem: seq<Stored>, path: string, hash: nat)
    ensures Evicted(Fresh(mem, path, hash), path, hash) == []
  {
    var f := Fresh(mem, path, hash);
    FreshMembers(mem, path, hash);
    NothingStale(f, path, hash);
    forall i | 0 <= i < |f|
      ensures !Stale(f[i], path, hash)
    {
      assert f[i] in f;
    }
  }

  /** So does an invalidation. */
  lemma InvalidateRecovers(s: State, path: string, hash: nat, step: nat)
    requires s.mem == Loaded(s.disk)
    ensures Invalidate(Open(InvalidateDisk(s, path, hash, step)), path, hash) == Invalidate(s, path, hash)
  {
    var evicted := Evicted(s.mem, path, hash);
    if evicted != [] {
      if step <= |evicted| {
        RemoveBlobsLeaves(s.disk, evicted[..step]);
        RemoveTwice(s.disk, evicted, step);
      } else {
        FreshHasNoneStale(s.mem, path, hash);
      }
    }
  }

  lemma CrashRecovers(s: State, op: Op, step: nat, again: Op)
    requires s.mem == Loaded(s.disk) && SameCall(op, again)
    ensures SameButTime(Exec(Crash(s, op, step), again), Exec(s, op))
  {
    match op {
      case PutOp(e, blob, now) => PutRecovers(s, e, blob, now, again.now, step);
      case InvalidateOp(path, hash) => InvalidateRecovers(s, path, hash, step);
      case ReopenOp =>
    }
  }

  /** What `get` answers after a put was cut short: before the first write as
      ever; from then on the new blob for every listed key with that path, and
      for the put's own key only once it is listed. */
  lemma GetAfterPutCrash(s: State, e: Entry, blob: Blob, now: nat, step: nat, key: Key)
    requires s.mem == Loaded(s.disk)
    ensures var got := Get(Open(PutDisk(s, e, blob, now, step)), key);
            if step == 0 then got == Get(s, key)
            else if PathOf(key) == PathOf(KeyOf(e)) then
              got == (if Has(s.mem, key) || (step >= 2 && key == KeyOf(e)) then Some(blob) else None)
            else got == Get(s, key)
  {
    if step >= 2 {
      HasAfterPut(s.mem, e, now, key);
    }
  }

  lemma HasAfterPut(mem: seq<Stored>, e: Entry, now: nat, key: Key)
    ensures Has(PutMem(mem, e, now), key) <==> Has(mem, key) || key == KeyOf(e)
  {
    var o := Others(mem, KeyOf(e));
    OthersMembers(mem, KeyOf(e));
    assert (o + [Stored(e, now)])[|o|] == Stored(e, now);
    if Has(mem, key) && key != KeyOf(e) {
      var i :| 0 <= i < |mem| && KeyOf(mem[i].entry) == key;
      assert mem[i] in mem && mem[i] in o && mem[i] in PutMem(mem, e, now);
      HasMember(PutMem(mem, e, now), mem[i]);
    }
    if Has(PutMem(mem, e, now), key) && key != KeyOf(e) {
      var i :| 0 <= i < |PutMem(mem, e, now)| && KeyOf(PutMem(mem, e, now)[i].entry) == key;
      assert PutMem(mem, e, now)[i] in o;
      HasMember(mem, PutMem(mem, e, now)[i]);
    }
  }

  /** After an interrupted invalidation `get` answers as before, or nothing for a
      key whose file belongs to one that was being dropped. */
  lemma GetAfterInvalidateCrash(s: State, path: string, hash: nat, step: nat, key: Key)
    requires s.mem == Loaded(s.disk)
    ensures Get(Open(InvalidateDisk(s, path, hash, step)), key) in {Option<Blob>.None, Get(s, key)}
    ensures Get(Open(InvalidateDisk(s, path, hash, step)), key) != Get(s, key)
            ==> exists k :: k in Evicted(s.mem, path, hash) && PathOf(k) == PathOf(key)
  {
    var evicted := Evicted(s.mem, path, hash);
    if evicted != [] {
      RemoveBlobsLeaves(s.disk, evicted);
      if step <= |evicted| {
        RemoveBlobsLeaves(s.disk, evicted[..step]);
        forall k | k in evicted[..step]
          ensures k in evicted
        {
        }
      } else {
        HasAfterInvalidate(s.mem, path, hash, key);
      }
    }
  }

  lemma HasAfterInvalidate(mem: seq<Stored>, path: string, hash: nat, key: Key)
    ensures Has(Fresh(mem, path, hash), key) ==> Has(mem, key)
    ensures Has(mem, key) ==> Has(Fresh(mem, path, hash), key) || key in Evicted(mem, path, hash)
  {
    var f := Fresh(mem, path, hash);
    FreshMembers(mem, path, hash);
    EvictedMembers(mem, path, hash);
    if Has(f, key) {
      var i :| 0 <= i < |f| && KeyOf(f[i].entry) == key;
      assert f[i] in f;
      HasMember(mem, f[i]);
    }
    if Has(mem, key) {
      var i :| 0 <= i < |mem| && KeyOf(mem[i].entry) == key;
      assert mem[i] in mem;
      if !Stale(mem[i], path, hash) {
        assert mem[i] in f;
        HasMember(f, mem[i]);
      }
    }
  }

  // ---------------------------------------------------------------- every file state on the way

  /** What an operation writes, file by file, as the cache performs it. */
  function OpDisks(s: State, op: Op): seq<Disk> {
    match op
    case PutOp(e, blob, now) => PutDisks(s, e, blob, now)
    case InvalidateOp(path, hash) => InvalidateDisks(s, path, hash)
    case ReopenOp => []
  }

  lemma {:induction false} RemovalCount(disk: Disk, keys: seq<Key>)
    ensures |Removals(disk, keys)| == |keys|
    decreases |keys|
  {
    if keys != [] {
      RemovalCount(disk, keys[..|keys| - 1]);
    }
  }

  lemma {:induction false} RemovalAt(disk: Disk, keys: seq<Key>, i: nat)
    requires i < |keys|
    ensures |Removals(disk, keys)| == |keys| && Removals(disk, keys)[i] == RemoveBlobs(disk, keys[..i + 1])
    decreases |keys|
  {
    var n := |keys| - 1;
    RemovalCount(disk, keys);
    RemovalCount(disk, keys[..n]);
    if i < n {
      RemovalAt(disk, keys[..n], i);
      assert keys[..n][..i + 1] == keys[..i + 1];
    } else {
      assert keys[..i + 1] == keys;
    }
  }

  /** A crash after some file writes leaves the files as they were after the last
      of them. */
  lemma DiskAfterCrash(s: State, op: Op, i: nat)
    requires i < |OpDisks(s, op)|
    ensures Open(OpDisks(s, op)[i]) == Crash(s, op, i + 1)
  {
    match op {
      case PutOp(e, blob, now) =>
      case InvalidateOp(path, hash) =>
        var evicted := Evicted(s.mem, path, hash);
        RemovalCount(s.disk, evicted);
        if i < |evicted| {
          RemovalAt(s.disk, evicted, i);
        }
      case ReopenOp =>
    }
  }

  /** The last file state is that of the finished operation. */
  lemma LastDiskIsExec(s: State, op: Op)
    ensures var disks := OpDisks(s, op);
            Exec(s, op).disk == if disks == [] then s.disk else disks[|disks| - 1]
  {
  }

  /** From every file state an operation goes through, reopening and repeating the
      call ends where the uninterrupted call does. */
  lemma EveryDiskRecovers(s: State, op: Op, again: Op, d: Disk)
    requires s.mem == Loaded(s.disk) && SameCall(op, again) && d in OpDisks(s, op)
    ensures SameButTime(Exec(Open(d), again), Exec(s, op))
  {
    var i :| 0 <= i < |OpDisks(s, op)| && OpDisks(s, op)[i] == d;
    DiskAfterCrash(s, op, i);
    CrashRecovers(s, op, i + 1, again);
  }

  /** All file states a run goes through: what the cache leaves in the history of
      its root. */
  function HistoryOf(ops: seq<Op>): seq<Disk> {
    if ops == [] then []
    else HistoryOf(ops[..|ops| - 1]) + OpDisks(Run(EmptyRoot, ops[..|ops| - 1]), ops[|ops| - 1])
  }

  lemma {:induction false} RunKeepsLoaded(ops: seq<Op>)
    ensures Run(EmptyRoot, ops).mem == Loaded(Run(EmptyRoot, ops).disk)
    decreases |ops|
  {
    if ops != [] {
      RunKeepsLoaded(ops[..|ops| - 1]);
      ExecKeepsLoaded(Run(EmptyRoot, ops[..|ops| - 1]), ops[|ops| - 1]);
    }
  }

  lemma RunStep(ops: seq<Op>, n: nat)
    requires n < |ops|
    ensures Run(EmptyRoot, ops[..n + 1]) == Exec(Run(EmptyRoot, ops[..n]), ops[n])
  {
    assert ops[..n + 1] == ops[..n] + [ops[n]];
    RunAppend(EmptyRoot, ops[..n], ops[n]);
  }

  lemma {:induction false} CallOf(ops: seq<Op>, d: Disk) returns (n: nat)
    requires d in HistoryOf(ops)
    ensures n < |ops| && d in OpDisks(Run(EmptyRoot, ops[..n]), ops[n])
    decreases |ops|
  {
    var last := |ops| - 1;
    if d in HistoryOf(ops[..last]) {
      n := CallOf(ops[..last], d);
      assert ops[..last][..n] == ops[..n];
    } else {
      n := last;
    }
  }

  /** Every file state in the history belongs to some call, and reopening there and
      repeating that call gets the run on: no blob stays behind for good. */
  lemma HistoryRecovers(ops: seq<Op>, d: Disk) returns (n: nat)
    requires d in HistoryOf(ops)
    ensures n < |ops| && d in OpDisks(Run(EmptyRoot, ops[..n]), ops[n])
    ensures SameButTime(Exec(Open(d), ops[n]), Run(EmptyRoot, ops[..n + 1]))
  {
    n := CallOf(ops, d);
    RunKeepsLoaded(ops[..n]);
    RunStep(ops, n);
    EveryDiskRecovers(Run(EmptyRoot, ops[..n]), ops[n], ops[n], d);
  }

  // ---------------------------------------------------------------- a put cut between its two writes

  /** Some manifest entry does not belong to the blob in its file. */
  ghost predicate SomeUnbacked(s: State, m: Plain) {
    exists x {:trigger Backed(s, m, x)} :: x in s.mem && !Backed(s, m, x)
  }

  /** Between the two writes an old entry lies over a new blob exactly when a key
      with that file was listed and had another blob. */
  lemma TornEntryExactly(s: State, m: Plain, e: Entry, blob: Blob, now: nat)
    requires Refines(s, m)
    ensures SomeUnbacked(Open(PutDisk(s, e, blob, now, 1)), m)
            <==> exists k :: k in m && PathOf(k) == PathOf(KeyOf(e)) && m[k].blob != blob
  {
    var t := Open(PutDisk(s, e, blob, now, 1));
    assert t.mem == s.mem;
    if k :| k in m && PathOf(k) == PathOf(KeyOf(e)) && m[k].blob != blob {
      var i :| 0 <= i < |s.mem| && KeyOf(s.mem[i].entry) == k;
      assert s.mem[i] in t.mem && !Backed(t, m, s.mem[i]);
    }
    if x :| x in t.mem && !Backed(t, m, x) {
      assert Backed(s, m, x);
      assert PathOf(KeyOf(x.entry)) == PathOf(KeyOf(e)) && m[KeyOf(x.entry)].blob != blob;
    }
  }

  /** Under distinct blob files, it still stands for the map before the put exactly
      when the put's key was not listed or had this blob already. */
  lemma StillBeforeExactly(s: State, m: Plain, e: Entry, blob: Blob, now: nat)
    requires Refines(s, m) && DistinctPaths(m.Keys + {KeyOf(e)})
    ensures Refines(Open(PutDisk(s, e, blob, now, 1)), m) <==> (KeyOf(e) in m ==> m[KeyOf(e)].blob == blob)
  {
    var t, key := Open(PutDisk(s, e, blob, now, 1)), KeyOf(e);
    TornEntryExactly(s, m, e, blob, now);
    assert t.mem == s.mem;
    assert Refines(t, m) <==> !SomeUnbacked(t, m);
    assert forall k :: k in m.Keys && PathOf(k) == PathOf(key) ==> k == key;
  }

  /** It stands for the map after the put already, exactly when the very same entry
      was listed. */
  lemma AlreadyAfterExactly(s: State, m: Plain, e: Entry, blob: Blob, now: nat)
    requires Refines(s, m) && DistinctPaths(m.Keys + {KeyOf(e)})
    ensures Refines(Open(PutDisk(s, e, blob, now, 1)), m[KeyOf(e) := Item(e, blob)]) <==> KeyOf(e) in m && m[KeyOf(e)].e == e
  {
    var t, key := Open(PutDisk(s, e, blob, now, 1)), KeyOf(e);
    var m1 := m[key := Item(e, blob)];
    assert t.mem == s.mem;
    if Has(s.mem, key) {
      var i :| 0 <= i < |s.mem| && KeyOf(s.mem[i].entry) == key;
      assert Backed(s, m, s.mem[i]);
      assert Backed(t, m1, s.mem[i]) <==> m[key].e == e;
    }
    if key in m && m[key].e == e {
      forall x | x in t.mem
        ensures Backed(t, m1, x)
      {
        assert Backed(s, m, x);
        assert KeyOf(x.entry) in m.Keys;
      }
      assert Refines(t, m1);
    }
  }

  /** So it stands for neither exactly when the key was listed and the put changes
      both its entry and its blob. */
  lemma TornExactly(s: State, m: Plain, e: Entry, blob: Blob, now: nat)
    requires Refines(s, m) && DistinctPaths(m.Keys + {KeyOf(e)})
    ensures var t := Open(PutDisk(s, e, blob, now, 1));
            !Refines(t, m) && !Refines(t, m[KeyOf(e) := Item(e, blob)])
            <==> KeyOf(e) in m && m[KeyOf(e)].blob != blob && m[KeyOf(e)].e != e
  {
    StillBeforeExactly(s, m, e, blob, now);
    AlreadyAfterExactly(s, m, e, blob, now);
  }

  /** The old source hash then vouches for the new blob: one entry is listed, its
      hash is the old one, `get` yields the new blob, and telling the cache that
      the source still has the old hash drops nothing. */
  lemma OldHashNewBlob(e: Entry, hash: nat)
    requires hash != e.sourceHash
    ensures var s := Put(EmptyRoot, e, [0], 0);
            var t := Open(PutDisk(s, e.(sourceHash := hash), [1], 0, 1));
            && t.mem == [Stored(e, 0)]
            && Get(t, KeyOf(e)) == Some([1])
            && Invalidate(t, e.sourcePath, e.sourceHash) == t
  {
    var s := Put(EmptyRoot, e, [0], 0);
    var t := Open(PutDisk(s, e.(sourceHash := hash), [1], 0, 1));
    assert t.mem == [Stored(e, 0)];
    HasMember(t.mem, Stored(e, 0));
    NothingStale(t.mem, e.sourcePath, e.sourceHash);
  }

  // ---------------------------------------------------------------- runs with crashes

  /** A call that is interrupted, reopened and repeated any number of times, each
      time at some time of its own, until it goes through. */
  datatype Attempt = Attempt(op: Op, crashes: seq<(nat, nat)>)

  function AtTime(op: Op, now: nat): Op {
    match op case PutOp(e, blob, _) => PutOp(e, blob, now) case _ => op
  }

  function Crashes(s: State, op: Op, crashes: seq<(nat, nat)>): State {
    if crashes == [] then s
    else
      var n := |crashes| - 1;
      Crash(Crashes(s, op, crashes[..n]), AtTime(op, crashes[n].1), crashes[n].0)
  }

  function RunAttempts(s: State, attempts: seq<Attempt>): State {
    if attempts == [] then s
    else
      var n := |attempts| - 1;
      Exec(Crashes(RunAttempts(s, attempts[..n]), attempts[n].op, attempts[n].crashes), attempts[n].op)
  }

  function OpsOf(attempts: seq<Attempt>): seq<Op> {
    if attempts == [] then [] else OpsOf(attempts[..|attempts| - 1]) + [attempts[|attempts| - 1].op]
  }

  lemma SameTrans(a: State, b: State, c: State)
    requires SameButTime(a, b) && SameButTime(b, c)
    ensures SameButTime(a, c)
  {
  }

  lemma ExecKeepsLoaded(s: State, op: Op)
    requires s.mem == Loaded(s.disk)
    ensures Exec(s, op).mem == Loaded(Exec(s, op).disk)
  {
  }

  /** However often a call was interrupted, repeating it gets there. */
  lemma {:induction false} CrashesRecover(s: State, op: Op, crashes: seq<(nat, nat)>)
    requires s.mem == Loaded(s.disk)
    ensures var t := Crashes(s, op, crashes);
            t.mem == Loaded(t.disk) && SameButTime(Exec(t, op), Exec(s, op))
    decreases |crashes|
  {
    if crashes != [] {
      var n := |crashes| - 1;
      var t, cut := Crashes(s, op, crashes[..n]), AtTime(op, crashes[n].1);
      CrashesRecover(s, op, crashes[..n]);
      CrashRecovers(t, cut, crashes[n].0, op);
      ExecIgnoresTime(t, t, cut, op);
      SameTrans(Exec(Crash(t, cut, crashes[n].0), op), Exec(t, cut), Exec(t, op));
      SameTrans(Exec(Crash(t, cut, crashes[n].0), op), Exec(t, op), Exec(s, op));
    }
  }

  /** One call, interrupted and repeated, from states that differ in times only. */
  lemma AttemptStep(s: State, r: State, op: Op, crashes: seq<(nat, nat)>)
    requires s.mem == Loaded(s.disk) && SameButTime(s, r)
    ensures var t := Exec(Crashes(s, op, crashes), op);
            t.mem == Loaded(t.disk) && SameButTime(t, Exec(r, op))
  {
    CrashesRecover(s, op, crashes);
    ExecKeepsLoaded(Crashes(s, op, crashes), op);
    ExecIgnoresTime(s, r, op, op);
    SameTrans(Exec(Crashes(s, op, crashes), op), Exec(s, op), Exec(r, op));
  }

  /** A run in which every interrupted call is repeated ends in the same files
      and the same answers as the run without interruptions. */
  lemma {:induction false} InterruptedRunIsRun(attempts: seq<Attempt>)
    ensures var s := RunAttempts(EmptyRoot, attempts);
            s.mem == Loaded(s.disk) && SameButTime(s, Run(EmptyRoot, OpsOf(attempts)))
    decreases |attempts|
  {
    if attempts != [] {
      var n := |attempts| - 1;
      var op, ops := attempts[n].op, OpsOf(attempts[..n]);
      InterruptedRunIsRun(attempts[..n]);
      AttemptStep(RunAttempts(EmptyRoot, attempts[..n]), Run(EmptyRoot, ops), op, attempts[n].crashes);
      RunAppend(EmptyRoot, ops, op);
    }
  }

  lemma RunAppend(s: State, ops: seq<Op>, op: Op)
    ensures Run(s, ops + [op]) == Exec(Run(s, ops), op)
  {
  }

  lemma GetIgnoresTime(a: State, b: State, key: Key)
    requires SameButTime(a, b)
    ensures Get(a, key) == Get(b, key)
  {
    HasUntimed(a.mem, b.mem, key);
    HasUntimed(b.mem, a.mem, key);
  }

  lemma HasUntimed(a: seq<Stored>, b: seq<Stored>, key: Key)
    requires Untimed(a) == Untimed(b)
    ensures Has(a, key) ==> Has(b, key)
  {
    if Has(a, key) {
      var i :| 0 <= i < |a| && KeyOf(a[i].entry) == key;
      assert |Untimed(a)| == |Untimed(b)|;
      assert Untimed(a)[i] == Untimed(b)[i];
      assert KeyOf(b[i].entry) == key;
    }
  }

  /** So after any interrupted run over keys with distinct blob files, `get`
      still answers like the plain map. */
  lemma InterruptedRunAgrees(attempts: seq<Attempt>, key: Key)
    requires DistinctPaths(KeysPut(OpsOf(attempts)))
    ensures Get(RunAttempts(EmptyRoot, attempts), key) == PlainGet(PlainRun(OpsOf(attempts)), key)
  {
    var ops := OpsOf(attempts);
    InterruptedRunIsRun(attempts);
    RunRefines(ops);
    RefinesGet(Run(EmptyRoot, ops), PlainRun(ops), key);
    GetIgnoresTime(RunAttempts(EmptyRoot, attempts), Run(EmptyRoot, ops), key);
  }

  // ---------------------------------------------------------------- only written blobs are read

  /** A step of a run that may crash and need not repeat what was interrupted. */
  datatype Event = Done(op: Op) | Crashed(op: Op, step: nat)

  function Happen(s: State, ev: Event): State {
    match ev case Done(op) => Exec(s, op) case Crashed(op, step) => Crash(s, op, step)
  }

  function Happens(events: seq<Event>): State {
    if events == [] then EmptyRoot else Happen(Happens(events[..|events| - 1]), events[|events| - 1])
  }

  /** A put to this path that got past its first write, whether it finished or not. */
  predicate Writes(ev: Event, path: BlobPath) {
    ev.op.PutOp? && PathOf(KeyOf(ev.op.e)) == path && (ev.Crashed? ==> ev.step > 0)
  }

  /** The blob of the latest such put. */
  function LastWritten(events: seq<Event>, path: BlobPath): Option<Blob> {
    if events == [] then None
    else if Writes(events[|events| - 1], path) then Some(events[|events| - 1].op.blob)
    else LastWritten(events[..|events| - 1], path)
  }

  lemma HappenBlobs(s: State, ev: Event, path: BlobPath)
    requires path in Happen(s, ev).disk.blobs
    ensures Writes(ev, path) ==> Happen(s, ev).disk.blobs[path] == ev.op.blob
    ensures !Writes(ev, path) ==> path in s.disk.blobs && Happen(s, ev).disk.blobs[path] == s.disk.blobs[path]
  {
    match ev.op {
      case PutOp(e, blob, now) =>
      case InvalidateOp(p, hash) =>
        var evicted := Evicted(s.mem, p, hash);
        RemoveBlobsLeaves(s.disk, evicted);
        if ev.Crashed? && ev.step <= |evicted| {
          RemoveBlobsLeaves(s.disk, evicted[..ev.step]);
        }
      case ReopenOp =>
    }
  }

  lemma {:induction false} BlobsAreLatest(events: seq<Event>, path: BlobPath)
    requires path in Happens(events).disk.blobs
    ensures LastWritten(events, path) == Some(Happens(events).disk.blobs[path])
    decreases |events|
  {
    if events != [] {
      var n := |events| - 1;
      HappenBlobs(Happens(events[..n]), events[n], path);
      if !Writes(events[n], path) {
        BlobsAreLatest(events[..n], path);
      }
    }
  }

  /** At every point of every run, crashes included, `get` yields nothing or the
      blob that was written to that path last. */
  lemma GetYieldsLatest(events: seq<Event>, key: Key)
    ensures Get(Happens(events), key) in {Option<Blob>.None, LastWritten(events, PathOf(key))}
  {
    if PathOf(key) in Happens(events).disk.blobs {
      BlobsAreLatest(events, PathOf(key));
    }
  }

  /** The same from every file state in the middle of the next operation. */
  lemma GetYieldsLatestMidway(events: seq<Event>, op: Op, i: nat, key: Key)
    requires i < |OpDisks(Happens(events), op)|
    ensures Get(Open(OpDisks(Happens(events), op)[i]), key)
            in {Option<Blob>.None, LastWritten(events + [Crashed(op, i + 1)], PathOf(key))}
  {
    var longer := events + [Crashed(op, i + 1)];
    assert longer[..|longer| - 1] == events;
    DiskAfterCrash(Happens(events), op, i);
    GetYieldsLatest(longer, key);
  }
}
