/** The persisted retrieval cache: a manifest file, one blob file per key, and
    the in-memory copy of the manifest.

    A root directory is the manifest file and the blob files; every file write
    or removal is one step. */
module TurboRag {
  import opened Basics
  import opened Sublists

  type Byte = x: nat | x < 256

  type Blob = seq<Byte>

  datatype Entry = Entry(chunkId: string, modelId: string, sourcePath: string, sourceHash: nat, tokenCount: nat)

  datatype Stored = Stored(entry: Entry, cachedAt: nat)

  datatype Key = Key(modelId: string, chunkId: string)

  function KeyOf(e: Entry): Key {
    Key(e.modelId, e.chunkId)
  }

  // ---------------------------------------------------------------- blob paths

  predicate Unsafe(c: char) {
    c in "/\\:?*\"<>|"
  }

  function Safe(c: char): char {
    if Unsafe(c) then '_' else c
  }

  function Sanitize(s: string): string {
    seq(|s|, i requires 0 <= i < |s| => Safe(s[i]))
  }

  /** A path below `blobs`; the directory names "" and "." are the same place. */
  datatype BlobPath = BlobPath(dir: string, file: string)

  function DirName(s: string): string {
    if s == "" then "." else s
  }

  function PathOf(key: Key): BlobPath {
    BlobPath(DirName(Sanitize(key.modelId)), Sanitize(key.chunkId) + ".bin")
  }

  /** The two names differ at most where both are unsafe or an underscore. */
  predicate Alike(a: string, b: string) {
    |a| == |b| && forall i :: 0 <= i < |a| ==> a[i] == b[i] || ((Unsafe(a[i]) || a[i] == '_') && (Unsafe(b[i]) || b[i] == '_'))
  }

  lemma SanitizeMerges(a: string, b: string)
    ensures Sanitize(a) == Sanitize(b) <==> Alike(a, b)
  {
    if Sanitize(a) == Sanitize(b) {
      assert |a| == |Sanitize(a)| && |b| == |Sanitize(b)|;
      forall i | 0 <= i < |a|
        ensures Safe(a[i]) == Safe(b[i])
      {
        assert Sanitize(a)[i] == Sanitize(b)[i];
      }
    }
  }

  /** Exactly these nine characters become underscores; all others stay. */
  lemma SanitizeMeaning(s: string)
    ensures |Sanitize(s)| == |s|
    ensures forall i :: 0 <= i < |s| ==>
              Sanitize(s)[i] == (if s[i] in {'/', '\\', ':', '?', '*', '\"', '<', '>', '|'} then '_' else s[i])
  {
    forall i | 0 <= i < |s|
      ensures Unsafe(s[i]) <==> s[i] in {'/', '\\', ':', '?', '*', '\"', '<', '>', '|'}
    {
      UnsafeMeaning(s[i]);
    }
  }

  lemma UnsafeMeaning(c: char)
    ensures Unsafe(c) <==> c in {'/', '\\', ':', '?', '*', '\"', '<', '>', '|'}
  {
    var bad := "/\\:?*\"<>|";
    assert bad[0] == '/' && bad[1] == '\\' && bad[2] == ':' && bad[3] == '?' && bad[4] == '*';
    assert bad[5] == '\"' && bad[6] == '<' && bad[7] == '>' && bad[8] == '|';
  }

  /** The directory is the sanitized model id, the file the sanitized chunk id. */
  lemma PathMeaning(key: Key)
    ensures var n := |key.chunkId|;
            && |PathOf(key).file| == n + 4 && PathOf(key).file[..n] == Sanitize(key.chunkId) && PathOf(key).file[n..] == ".bin"
    ensures key.modelId != "" ==> PathOf(key).dir == Sanitize(key.modelId)
    ensures key.modelId == "" ==> PathOf(key) == PathOf(key.(modelId := "."))
  {
    DirNames(key.modelId);
    DirNames(".");
    assert Sanitize(".") == ".";
  }

  /** Sanitizing leaves nothing unsafe, and a sanitized name alone. */
  lemma SanitizeIsSafe(s: string)
    ensures |Sanitize(s)| == |s| && forall i :: 0 <= i < |s| ==> !Unsafe(Sanitize(s)[i])
    ensures Sanitize(Sanitize(s)) == Sanitize(s)
  {
  }

  /** Exactly which keys share a blob file. */
  lemma SharedPath(a: Key, b: Key)
    ensures PathOf(a) == PathOf(b)
            <==> Alike(a.chunkId, b.chunkId)
                 && (Alike(a.modelId, b.modelId) || (a.modelId in {"", "."} && b.modelId in {"", "."}))
  {
    SanitizeMerges(a.chunkId, b.chunkId);
    SanitizeMerges(a.modelId, b.modelId);
    DirNames(a.modelId);
    DirNames(b.modelId);
    var x, y := Sanitize(a.chunkId), Sanitize(b.chunkId);
    if x + ".bin" == y + ".bin" {
      assert |x| == |y|;
      assert x == (x + ".bin")[..|x|] == (y + ".bin")[..|y|] == y;
    }
  }

  lemma DirNames(s: string)
    ensures Sanitize(s) == "" <==> s == ""
    ensures Sanitize(s) == "." <==> s == "."
  {
  }

  // ---------------------------------------------------------------- the operations on values

  datatype Disk = Disk(manifest: Option<seq<Stored>>, blobs: map<BlobPath, Blob>)

  /** An open cache over a root directory. */
  datatype State = State(mem: seq<Stored>, disk: Disk)

  /** What opening reads; a missing manifest is an empty one. */
  function Loaded(disk: Disk): seq<Stored> {
    match disk.manifest case None => [] case Some(m) => m
  }

  function Open(disk: Disk): State {
    State(Loaded(disk), disk)
  }

  predicate Has(mem: seq<Stored>, key: Key) {
    exists i :: 0 <= i < |mem| && KeyOf(mem[i].entry) == key
  }

  function Get(s: State, key: Key): Option<Blob> {
    if Has(s.mem, key) && PathOf(key) in s.disk.blobs then Some(s.disk.blobs[PathOf(key)]) else None
  }

  /** The entries of all other keys, in order. */
  function Others(mem: seq<Stored>, key: Key): seq<Stored> {
    if mem == [] then []
    else Others(mem[..|mem| - 1], key) + (if KeyOf(mem[|mem| - 1].entry) == key then [] else [mem[|mem| - 1]])
  }

  function PutMem(mem: seq<Stored>, e: Entry, now: nat): seq<Stored> {
    Others(mem, KeyOf(e)) + [Stored(e, now)]
  }

  function WriteBlob(disk: Disk, path: BlobPath, blob: Blob): Disk {
    disk.(blobs := disk.blobs[path := blob])
  }

  function WriteManifest(disk: Disk, mem: seq<Stored>): Disk {
    disk.(manifest := Some(mem))
  }

  function Put(s: State, e: Entry, blob: Blob, now: nat): State {
    var mem := PutMem(s.mem, e, now);
    State(mem, WriteManifest(WriteBlob(s.disk, PathOf(KeyOf(e)), blob), mem))
  }

  predicate Stale(x: Stored, path: string, hash: nat) {
    x.entry.sourcePath == path && x.entry.sourceHash != hash
  }

  function Fresh(mem: seq<Stored>, path: string, hash: nat): seq<Stored> {
    if mem == [] then []
    else Fresh(mem[..|mem| - 1], path, hash) + (if Stale(mem[|mem| - 1], path, hash) then [] else [mem[|mem| - 1]])
  }

  function Evicted(mem: seq<Stored>, path: string, hash: nat): seq<Key> {
    if mem == [] then []
    else Evicted(mem[..|mem| - 1], path, hash)
         + (if Stale(mem[|mem| - 1], path, hash) then [KeyOf(mem[|mem| - 1].entry)] else [])
  }

  /** The blob files of the keys removed, in order; a missing one is ignored. */
  function RemoveBlobs(disk: Disk, keys: seq<Key>): Disk {
    if keys == [] then disk
    else
      var d := RemoveBlobs(disk, keys[..|keys| - 1]);
      d.(blobs := d.blobs - {PathOf(keys[|keys| - 1])})
  }

  function Invalidate(s: State, path: string, hash: nat): State {
    var evicted := Evicted(s.mem, path, hash);
    if evicted == [] then s
    else
      var mem := Fresh(s.mem, path, hash);
      State(mem, WriteManifest(RemoveBlobs(s.disk, evicted), mem))
  }

  // ---------------------------------------------------------------- what the manifest lists

  ghost function OthersAt(mem: seq<Stored>, key: Key): set<nat> {
    set i: nat | i < |mem| && KeyOf(mem[i].entry) != key
  }

  ghost function StaleAt(mem: seq<Stored>, path: string, hash: nat): set<nat> {
    set i: nat | i < |mem| && mem[i].entry.sourcePath == path && mem[i].entry.sourceHash != hash
  }

  ghost function FreshAt(mem: seq<Stored>, path: string, hash: nat): set<nat> {
    set i: nat | i < |mem| && (mem[i].entry.sourcePath != path || mem[i].entry.sourceHash == hash)
  }

  lemma {:induction false} OthersInOrder(mem: seq<Stored>, key: Key)
    ensures Sublist(Others(mem, key), mem, OthersAt(mem, key))
    decreases |mem|
  {
    if mem == [] {
      SublistEmpty<Stored>();
      assert OthersAt(mem, key) == {};
    } else {
      var n := |mem| - 1;
      OthersInOrder(mem[..n], key);
      var more := if KeyOf(mem[n].entry) == key then [] else [mem[n]];
      assert OthersAt(mem, key) == OthersAt(mem[..n], key) + (if more == [] then {} else {n});
      SublistStep(Others(mem[..n], key), mem, OthersAt(mem[..n], key), more, OthersAt(mem, key));
    }
  }

  /** After a put the manifest lists the entries of all other keys as before, and
      then the new entry with its time. */
  lemma PutLists(s: State, e: Entry, blob: Blob, now: nat)
    ensures var mem := Put(s, e, blob, now).mem;
            && mem != [] && mem[|mem| - 1] == Stored(e, now)
            && Sublist(mem[..|mem| - 1], s.mem, OthersAt(s.mem, KeyOf(e)))
  {
    OthersInOrder(s.mem, KeyOf(e));
    assert PutMem(s.mem, e, now)[..|Others(s.mem, KeyOf(e))|] == Others(s.mem, KeyOf(e));
  }

  lemma {:induction false} FreshInOrder(mem: seq<Stored>, path: string, hash: nat)
    ensures Sublist(Fresh(mem, path, hash), mem, FreshAt(mem, path, hash))
    decreases |mem|
  {
    if mem == [] {
      SublistEmpty<Stored>();
      assert FreshAt(mem, path, hash) == {};
    } else {
      var n := |mem| - 1;
      FreshInOrder(mem[..n], path, hash);
      var more := if Stale(mem[n], path, hash) then [] else [mem[n]];
      assert FreshAt(mem, path, hash) == FreshAt(mem[..n], path, hash) + (if more == [] then {} else {n});
      SublistStep(Fresh(mem[..n], path, hash), mem, FreshAt(mem[..n], path, hash), more, FreshAt(mem, path, hash));
    }
  }

  ghost function Keys(mem: seq<Stored>): seq<Key> {
    seq(|mem|, i requires 0 <= i < |mem| => KeyOf(mem[i].entry))
  }

  lemma {:induction false} EvictedInOrder(mem: seq<Stored>, path: string, hash: nat)
    ensures Sublist(Evicted(mem, path, hash), Keys(mem), StaleAt(mem, path, hash))
    decreases |mem|
  {
    if mem == [] {
      SublistEmpty<Key>();
      assert StaleAt(mem, path, hash) == {} && Keys(mem) == [];
    } else {
      var n := |mem| - 1;
      EvictedInOrder(mem[..n], path, hash);
      assert Keys(mem)[..n] == Keys(mem[..n]);
      var more := if Stale(mem[n], path, hash) then [KeyOf(mem[n].entry)] else [];
      assert StaleAt(mem, path, hash) == StaleAt(mem[..n], path, hash) + (if more == [] then {} else {n});
      SublistStep(Evicted(mem[..n], path, hash), Keys(mem), StaleAt(mem[..n], path, hash), more, StaleAt(mem, path, hash));
    }
  }

  /** An invalidation leaves the entries that are not stale as they were listed,
      and evicts the keys of the stale ones in the order they were listed. */
  lemma InvalidateLists(s: State, path: string, hash: nat)
    ensures Sublist(Invalidate(s, path, hash).mem, s.mem, FreshAt(s.mem, path, hash))
    ensures Sublist(Evicted(s.mem, path, hash), Keys(s.mem), StaleAt(s.mem, path, hash))
  {
    FreshInOrder(s.mem, path, hash);
    EvictedInOrder(s.mem, path, hash);
    NothingStale(s.mem, path, hash);
  }

  // ---------------------------------------------------------------- one file write at a time

  /** The files after `step` of the writes of a put: the blob, then the manifest. */
  function PutDisk(s: State, e: Entry, blob: Blob, now: nat, step: nat): Disk {
    if step == 0 then s.disk
    else
      var d := WriteBlob(s.disk, PathOf(KeyOf(e)), blob);
      if step == 1 then d else WriteManifest(d, PutMem(s.mem, e, now))
  }

  /** The files after `step` of the writes of an invalidation: each evicted blob
      removed in order, then the manifest. */
  function InvalidateDisk(s: State, path: string, hash: nat, step: nat): Disk {
    var evicted := Evicted(s.mem, path, hash);
    if evicted == [] then s.disk
    else if step <= |evicted| then RemoveBlobs(s.disk, evicted[..step])
    else WriteManifest(RemoveBlobs(s.disk, evicted), Fresh(s.mem, path, hash))
  }

  /** The files after each write of a put, in turn. */
  function PutDisks(s: State, e: Entry, blob: Blob, now: nat): seq<Disk> {
    [PutDisk(s, e, blob, now, 1), PutDisk(s, e, blob, now, 2)]
  }

  /** The files after each removal. */
  function Removals(disk: Disk, keys: seq<Key>): seq<Disk> {
    if keys == [] then [] else Removals(disk, keys[..|keys| - 1]) + [RemoveBlobs(disk, keys)]
  }

  /** The files after each removal and the last write of an invalidation; there
      is none if nothing is stale. */
  function InvalidateDisks(s: State, path: string, hash: nat): seq<Disk> {
    var evicted := Evicted(s.mem, path, hash);
    if evicted == [] then [] else Removals(s.disk, evicted) + [Invalidate(s, path, hash).disk]
  }

  lemma RemovalsStep(disk: Disk, keys: seq<Key>, i: nat)
    requires i < |keys|
    ensures RemoveBlobs(disk, keys[..i + 1])
            == Disk(disk.manifest, RemoveBlobs(disk, keys[..i]).blobs - {PathOf(keys[i])})
    ensures Removals(disk, keys[..i + 1]) == Removals(disk, keys[..i]) + [RemoveBlobs(disk, keys[..i + 1])]
  {
    assert keys[..i + 1][..i] == keys[..i];
    KeepsManifest(disk, keys[..i]);
  }

  lemma KeepsManifest(disk: Disk, keys: seq<Key>)
    ensures RemoveBlobs(disk, keys).manifest == disk.manifest
  {
  }

  // ---------------------------------------------------------------- the cache object

  /** The files under one root, and what they were after every write so far. */
  class Root {
    var manifest: Option<seq<Stored>>
    var blobs: map<BlobPath, Blob>
    ghost var history: seq<Disk>

    constructor ()
      ensures Files() == Disk(None, map[]) && history == []
    {
      manifest, blobs, history := None, map[], [];
    }

    function Files(): Disk
      reads this
    {
      Disk(manifest, blobs)
    }

    method PutBlob(path: BlobPath, blob: Blob)
      modifies this
      ensures Files() == WriteBlob(old(Files()), path, blob) && history == old(history) + [Files()]
    {
      blobs := blobs[path := blob];
      history := history + [Files()];
    }

    method DropBlob(path: BlobPath)
      modifies this
      ensures Files() == Disk(old(manifest), old(blobs) - {path}) && history == old(history) + [Files()]
    {
      blobs := blobs - {path};
      history := history + [Files()];
    }

    method PutManifest(mem: seq<Stored>)
      modifies this
      ensures Files() == WriteManifest(old(Files()), mem) && history == old(history) + [Files()]
    {
      manifest := Some(mem);
      history := history + [Files()];
    }
  }

  class Cache {
    const root: Root
    var entries: seq<Stored>

    function Now(): State
      reads this, root
    {
      State(entries, root.Files())
    }

    constructor OpenAt(r: Root)
      ensures root == r && Now() == Open(r.Files())
    {
      root := r;
      entries := match r.manifest case None => [] case Some(m) => m;
    }

    method Lookup(modelId: string, chunkId: string) returns (blob: Option<Blob>)
      ensures blob == Get(Now(), Key(modelId, chunkId))
    {
      if !exists i :: 0 <= i < |entries| && entries[i].entry.modelId == modelId && entries[i].entry.chunkId == chunkId {
        assert !Has(entries, Key(modelId, chunkId));
        return None;
      }
      assert Has(entries, Key(modelId, chunkId));
      var path := PathOf(Key(modelId, chunkId));
      if path !in root.blobs {
        return None;
      }
      blob := Some(root.blobs[path]);
    }

    method Store(e: Entry, blob: Blob, now: nat)
      modifies this, root
      ensures Now() == Put(old(Now()), e, blob, now)
      ensures root.history == old(root.history) + PutDisks(old(Now()), e, blob, now)
    {
      root.PutBlob(PathOf(KeyOf(e)), blob);
      var kept: seq<Stored> := [];
      for i := 0 to |entries|
        invariant kept == Others(entries[..i], KeyOf(e))
        invariant entries == old(entries)
        invariant root.Files() == WriteBlob(old(root.Files()), PathOf(KeyOf(e)), blob)
        invariant root.history == old(root.history) + [root.Files()]
      {
        assert entries[..i + 1][..i] == entries[..i];
        if !(entries[i].entry.modelId == e.modelId && entries[i].entry.chunkId == e.chunkId) {
          kept := kept + [entries[i]];
        }
      }
      assert entries[..|entries|] == entries;
      entries := kept + [Stored(e, now)];
      root.PutManifest(entries);
    }

    /** Divide the entries into those that stay and the keys of those that go. */
    method Partition(sourcePath: string, currentHash: nat) returns (kept: seq<Stored>, evicted: seq<Key>)
      ensures kept == Fresh(entries, sourcePath, currentHash)
      ensures evicted == Evicted(entries, sourcePath, currentHash)
      ensures |kept| + |evicted| == |entries|
    {
      kept, evicted := [], [];
      for i := 0 to |entries|
        invariant kept == Fresh(entries[..i], sourcePath, currentHash)
        invariant evicted == Evicted(entries[..i], sourcePath, currentHash)
        invariant |kept| + |evicted| == i
      {
        assert entries[..i + 1][..i] == entries[..i];
        if entries[i].entry.sourcePath == sourcePath && entries[i].entry.sourceHash != currentHash {
          evicted := evicted + [KeyOf(entries[i].entry)];
        } else {
          kept := kept + [entries[i]];
        }
      }
      assert entries[..|entries|] == entries;
    }

    /** Remove the blob files of the keys, one after the other. */
    method DropBlobs(keys: seq<Key>)
      modifies root
      ensures root.Files() == RemoveBlobs(old(root.Files()), keys)
      ensures root.history == old(root.history) + Removals(old(root.Files()), keys)
    {
      ghost var disk := root.Files();
      for i := 0 to |keys|
        invariant root.Files() == RemoveBlobs(disk, keys[..i])
        invariant root.history == old(root.history) + Removals(disk, keys[..i])
      {
        RemovalsStep(disk, keys, i);
        KeepsManifest(disk, keys[..i]);
        root.DropBlob(PathOf(keys[i]));
      }
      assert keys[..|keys|] == keys;
    }

    method InvalidateStale(sourcePath: string, currentHash: nat) returns (count: nat)
      modifies this, root
      ensures Now() == Invalidate(old(Now()), sourcePath, currentHash)
      ensures root.history == old(root.history) + InvalidateDisks(old(Now()), sourcePath, currentHash)
      ensures count == |old(entries)| - |entries| == |Evicted(old(entries), sourcePath, currentHash)|
    {
      ghost var s, h := Now(), root.history;
      var kept, evicted := Partition(sourcePath, currentHash);
      NothingStale(entries, sourcePath, currentHash);
      var before := |entries|;
      entries := kept;
      DropBlobs(evicted);
      ghost var removals := Removals(s.disk, evicted);
      count := before - |entries|;
      if count > 0 {
        root.PutManifest(entries);
        assert (h + removals) + [root.Files()] == h + (removals + [root.Files()]);
      } else {
        assert h + removals == h;
      }
    }

    method Len() returns (n: nat)
      ensures n == |entries|
    {
      n := |entries|;
    }
  }

  lemma {:induction false} NothingStale(mem: seq<Stored>, path: string, hash: nat)
    ensures Evicted(mem, path, hash) == [] ==> Fresh(mem, path, hash) == mem
    ensures Evicted(mem, path, hash) == [] <==> forall i :: 0 <= i < |mem| ==> !Stale(mem[i], path, hash)
    decreases |mem|
  {
    if mem != [] {
      var n := |mem| - 1;
      NothingStale(mem[..n], path, hash);
      assert mem == mem[..n] + [mem[n]];
      assert forall i :: 0 <= i < n ==> mem[..n][i] == mem[i];
    }
  }
}
