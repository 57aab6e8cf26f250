/**
  The HTTP server's two-tier response cache: a memory tier holding response
  bytes and a disk tier holding the names of files that hold them, each with
  a capacity and a running usage counter (Go's uint, 64 bits).

  Responses are their serialised bytes. The file system is an object of its
  own (a map from file names to contents); whether creating or writing a file
  succeeds is a parameter of the disk insertion.
*/
module Cache {
  import opened Wrappers
  import opened Text

  const Uint64Limit: int := 0x1_0000_0000_0000_0000

  /** Go's int(u) for a uint u on a 64-bit platform: values of 2^63 and more become negative. */
  function Int64OfUint64(u: nat): (r: int)
    requires u < Uint64Limit
    ensures -0x8000_0000_0000_0000 <= r < 0x8000_0000_0000_0000
    ensures r >= 0 ==> r == u
    ensures r < 0 ==> r == u - Uint64Limit
  {
    if u < 0x8000_0000_0000_0000 then u else u - Uint64Limit
  }

  /** Total number of bytes of the stored responses. */
  ghost function TotalSize(m: map<string, seq<byte>>): nat
    decreases m.Keys
  {
    if m == map[] then 0
    else
      var k :| k in m;
      |m[k]| + TotalSize(m - {k})
  }

  type byte = bv8

  /** The size of a map is the size of any one entry plus the size of the rest. */
  lemma {:induction false} TotalSizeRemove(m: map<string, seq<byte>>, k: string)
    requires k in m
    ensures TotalSize(m) == |m[k]| + TotalSize(m - {k})
    decreases m.Keys
  {
    assert m != map[];
    var j :| j in m && TotalSize(m) == |m[j]| + TotalSize(m - {j});
    if j != k {
      var mj, mk := m - {j}, m - {k};
      assert k in mj && mj[k] == m[k];
      assert j in mk && mk[j] == m[j];
      TotalSizeRemove(mj, k);
      TotalSizeRemove(mk, j);
      assert mj - {k} == mk - {j};
    }
  }

  /** A tier's usage counter is the total size of what it stores and stays within its capacity. */
  ghost predicate Accounted(current: nat, capacity: nat, m: map<string, seq<byte>>)
  {
    current == TotalSize(m) <= capacity
  }

  /** Storing a new entry that fits keeps the counter accurate once the entry's length is added to it. */
  lemma AccountedAdd(current: nat, capacity: nat, m: map<string, seq<byte>>, k: string, v: seq<byte>)
    requires Accounted(current, capacity, m) && k !in m && |v| <= capacity - current
    ensures Accounted(current + |v|, capacity, m[k := v])
  {
    TotalSizeAdd(m, k, v);
  }

  /** Adding an entry for a new key adds its length to the size. */
  lemma TotalSizeAdd(m: map<string, seq<byte>>, k: string, v: seq<byte>)
    requires k !in m
    ensures TotalSize(m[k := v]) == TotalSize(m) + |v|
  {
    TotalSizeRemove(m[k := v], k);
    assert m[k := v] - {k} == m;
  }

  // ---------------------------------------------------------------------------
  // Cache file names
  // ---------------------------------------------------------------------------

  /** The file name the server code uses: every '/' of the path becomes '_'. */
  function CacheFileNameAsWritten(path: string): (name: string)
    ensures |name| == |path| + 13 && HasPrefix(name, ".cache/") && name[|name| - 6..] == ".cache"
    ensures '/' !in name[7..|name| - 6]
    ensures forall k | 0 <= k < |path| :: name[7 + k] == (if path[k] == '/' then '_' else path[k])
  {
    ".cache/" + ReplaceAll(path, '/', '_') + ".cache"
  }

  /** Two different request paths, both Wikipedia articles, share one cache file under that naming. */
  lemma AsWrittenFileNamesCollide()
    ensures "/wiki/ac/dc" != "/wiki/ac_dc"
    ensures CacheFileNameAsWritten("/wiki/ac/dc") == CacheFileNameAsWritten("/wiki/ac_dc")
  {
    var p, q := "/wiki/ac/dc", "/wiki/ac_dc";
    assert p[8] != q[8];
    var rp, rq := ReplaceAll(p, '/', '_'), ReplaceAll(q, '/', '_');
    assert forall k | 0 <= k < |p| :: rp[k] == rq[k];
    assert rp == rq;
  }

  /**
    The disk insertion of the server code on values, once the path is new and
    fits: the path records its file, and creating and writing that file
    replaces whatever it held.
  */
  function StoreOnDiskAsWritten(diskCache: map<string, string>, files: map<string, seq<byte>>, path: string, resp: seq<byte>)
    : (map<string, string>, map<string, seq<byte>>)
  {
    (diskCache[path := CacheFileNameAsWritten(path)], files[CacheFileNameAsWritten(path) := resp])
  }

  /** The disk lookup of the server code on values: the contents of the file the path records, if it exists. */
  function ReadFromDiskAsWritten(diskCache: map<string, string>, files: map<string, seq<byte>>, path: string): Option<seq<byte>>
  {
    if path in diskCache && diskCache[path] in files then Some(files[diskCache[path]]) else None
  }

  /**
    Under that naming, storing "/wiki/ac_dc" after "/wiki/ac/dc" overwrites the
    file of "/wiki/ac/dc": the first path is then served the second path's
    response.
  */
  lemma AsWrittenLookupOverwritten(files: map<string, seq<byte>>, a: seq<byte>, b: seq<byte>)
    ensures var (d1, f1) := StoreOnDiskAsWritten(map[], files, "/wiki/ac/dc", a);
      var (d2, f2) := StoreOnDiskAsWritten(d1, f1, "/wiki/ac_dc", b);
      && "/wiki/ac_dc" !in d1
      && ReadFromDiskAsWritten(d1, f1, "/wiki/ac/dc") == Some(a)
      && ReadFromDiskAsWritten(d2, f2, "/wiki/ac/dc") == Some(b)
  {
    AsWrittenFileNamesCollide();
    CollidingStoreOverwrites(files, "/wiki/ac/dc", "/wiki/ac_dc", a, b);
  }

  /** Two distinct paths with one file name: storing the second makes the first read the second's response. */
  lemma CollidingStoreOverwrites(files: map<string, seq<byte>>, p: string, q: string, a: seq<byte>, b: seq<byte>)
    requires p != q && CacheFileNameAsWritten(p) == CacheFileNameAsWritten(q)
    ensures var (d1, f1) := StoreOnDiskAsWritten(map[], files, p, a);
      var (d2, f2) := StoreOnDiskAsWritten(d1, f1, q, b);
      && q !in d1
      && ReadFromDiskAsWritten(d1, f1, p) == Some(a)
      && ReadFromDiskAsWritten(d2, f2, p) == Some(b)
  {
  }

  /** A path as a flat file name: '%' becomes "%25" and '/' becomes "%2F"; everything else is kept. */
  function Escape(path: string): (e: string)
    ensures '/' !in e
    ensures |e| >= |path|
    decreases |path|
  {
    if |path| == 0 then []
    else
      (if path[0] == '%' then "%25" else if path[0] == '/' then "%2F" else [path[0]])
      + Escape(path[1..])
  }

  /** The inverse of Escape. */
  function Unescape(e: string): string
    decreases |e|
  {
    if |e| == 0 then []
    else if |e| >= 3 && e[..3] == "%25" then ['%'] + Unescape(e[3..])
    else if |e| >= 3 && e[..3] == "%2F" then ['/'] + Unescape(e[3..])
    else [e[0]] + Unescape(e[1..])
  }

  /** Unescaping an escaped path gives the path back. */
  lemma {:induction false} UnescapeEscape(path: string)
    ensures Unescape(Escape(path)) == path
    decreases |path|
  {
    if |path| > 0 {
      var head := if path[0] == '%' then "%25" else if path[0] == '/' then "%2F" else [path[0]];
      var e := Escape(path);
      assert e == head + Escape(path[1..]);
      UnescapeEscape(path[1..]);
      if path[0] == '%' || path[0] == '/' {
        assert e[..3] == head;
        assert e[3..] == Escape(path[1..]);
      } else {
        assert e[0] == path[0];
        assert e[1..] == Escape(path[1..]);
      }
      assert path == [path[0]] + path[1..];
    }
  }

  /** The file that holds the response for a path, directly inside the .cache directory. */
  function CacheFileName(path: string): (name: string)
    ensures |name| >= 13 && HasPrefix(name, ".cache/") && '/' !in name[7..|name| - 6]
  {
    ".cache/" + Escape(path) + ".cache"
  }

  /** Different paths get different files. */
  lemma CacheFileNameInjective(p: string, q: string)
    requires CacheFileName(p) == CacheFileName(q)
    ensures p == q
  {
    var n := CacheFileName(p);
    assert Escape(p) == n[7..|n| - 6];
    assert Escape(q) == n[7..|n| - 6];
    UnescapeEscape(p);
    UnescapeEscape(q);
  }

  /**
    The disk tier agrees with the files: every path it records names its own
    file, which exists and holds the response the path was stored with.
  */
  ghost predicate FilesMatch(diskCache: map<string, string>, contents: map<string, seq<byte>>, files: map<string, seq<byte>>)
  {
    && diskCache.Keys == contents.Keys
    && forall p | p in diskCache ::
         diskCache[p] == CacheFileName(p) && diskCache[p] in files && files[diskCache[p]] == contents[p]
  }

  /** A path not yet in the disk tier owns no file the tier records. */
  lemma FileNameUnused(diskCache: map<string, string>, contents: map<string, seq<byte>>, files: map<string, seq<byte>>, path: string)
    requires FilesMatch(diskCache, contents, files) && path !in diskCache
    ensures forall p | p in diskCache :: diskCache[p] != CacheFileName(path)
  {
    forall p | p in diskCache
      ensures diskCache[p] != CacheFileName(path)
    {
      if diskCache[p] == CacheFileName(path) {
        CacheFileNameInjective(p, path);
      }
    }
  }

  /** Writing a new path's file and recording it keeps the disk tier in agreement with the files. */
  lemma FilesMatchInsert(diskCache: map<string, string>, contents: map<string, seq<byte>>, files: map<string, seq<byte>>,
                         path: string, resp: seq<byte>)
    requires FilesMatch(diskCache, contents, files) && path !in diskCache
    ensures FilesMatch(diskCache[path := CacheFileName(path)], contents[path := resp], files[CacheFileName(path) := resp])
  {
    FileNameUnused(diskCache, contents, files, path);
  }

  /** Removing the file of a path the disk tier does not hold keeps the agreement. */
  lemma FilesMatchRemove(diskCache: map<string, string>, contents: map<string, seq<byte>>, files: map<string, seq<byte>>,
                         path: string)
    requires FilesMatch(diskCache, contents, files) && path !in diskCache
    ensures FilesMatch(diskCache, contents, files - {CacheFileName(path)})
  {
    FileNameUnused(diskCache, contents, files, path);
  }

  /** The response stored for a key in a memory tier and a disk tier, looked up in memory first. */
  function Lookup(mem: map<string, seq<byte>>, disk: map<string, seq<byte>>, key: string): Option<seq<byte>>
  {
    if key in mem then Some(mem[key])
    else if key in disk then Some(disk[key])
    else None
  }

  /** Storing a response for a key held by neither tier, in either one, makes it the key's response and changes no other key's. */
  lemma LookupAfterInsert(mem: map<string, seq<byte>>, disk: map<string, seq<byte>>, key: string, resp: seq<byte>)
    requires key !in mem && key !in disk
    ensures Lookup(mem[key := resp], disk, key) == Some(resp)
    ensures Lookup(mem, disk[key := resp], key) == Some(resp)
    ensures forall q | q != key :: Lookup(mem[key := resp], disk, q) == Lookup(mem, disk, q)
    ensures forall q | q != key :: Lookup(mem, disk[key := resp], q) == Lookup(mem, disk, q)
  {
  }

  // ---------------------------------------------------------------------------
  // The file system and the cache
  // ---------------------------------------------------------------------------

  /** The files the server can create, write, remove and open: name to contents. */
  class FileStore {
    var files: map<string, seq<byte>>

    constructor (files: map<string, seq<byte>>)
      ensures this.files == files
    {
      this.files := files;
    }
  }

  /** What creating and writing a cache file comes to. */
  datatype FileWrite = Written | CreateFailed | WriteFailed

  datatype CacheError = NotCached | OpenFailed

  class Cache {
    var memCacheSize: nat
    var diskCacheSize: nat
    var currentMemCacheSize: nat
    var currentDiskCacheSize: nat
    var memCache: map<string, seq<byte>>
    /** Path to the name of the file that holds its response. */
    var diskCache: map<string, string>
    var built: bool
    /** The response each disk-tier path was stored with. */
    ghost var diskContents: map<string, seq<byte>>

    /**
      The accounting invariant: each tier's usage is the total size of what it
      stores and stays within its capacity (so the unsigned subtractions of
      the source never wrap), and every disk-tier path names its own file,
      which holds the response it was stored with.
    */
    ghost predicate Valid(fs: FileStore)
      reads this, fs
    {
      && memCacheSize < Uint64Limit && diskCacheSize < Uint64Limit
      && Accounted(currentMemCacheSize, memCacheSize, memCache)
      && Accounted(currentDiskCacheSize, diskCacheSize, diskContents)
      && FilesMatch(diskCache, diskContents, fs.files)
    }

    /** Keys are lower-case and no path is in both tiers. */
    ghost predicate Normalized()
      reads this
    {
      && (forall p | p in memCache :: ToLower(p) == p)
      && (forall p | p in diskCache :: ToLower(p) == p)
      && (forall p | p in memCache :: p !in diskCache)
    }

    /** The response stored for a (lower-case) path in either tier. */
    ghost function Stored(path: string): Option<seq<byte>>
      reads this
    {
      Lookup(memCache, diskContents, path)
    }

    /** Empty tiers with the given capacities, no usage, not yet built. */
    constructor Init(memCacheSize: nat, diskCacheSize: nat, ghost fs: FileStore)
      requires memCacheSize < Uint64Limit && diskCacheSize < Uint64Limit
      ensures Valid(fs) && Normalized()
      ensures this.memCacheSize == memCacheSize && this.diskCacheSize == diskCacheSize
      ensures currentMemCacheSize == 0 && currentDiskCacheSize == 0
      ensures memCache == map[] && diskCache == map[] && !built
    {
      this.memCacheSize := memCacheSize;
      this.diskCacheSize := diskCacheSize;
      currentMemCacheSize := 0;
      currentDiskCacheSize := 0;
      memCache := map[];
      diskCache := map[];
      built := false;
      diskContents := map[];
    }

    /** Room left in a tier as the source compares it: the unsigned difference converted to int. */
    function MemRoom(): int
      requires currentMemCacheSize <= memCacheSize < Uint64Limit
      reads this
    {
      Int64OfUint64(memCacheSize - currentMemCacheSize)
    }

    function DiskRoom(): int
      requires currentDiskCacheSize <= diskCacheSize < Uint64Limit
      reads this
    {
      Int64OfUint64(diskCacheSize - currentDiskCacheSize)
    }

    /** Stores resp in memory unless the path is there already or resp does not fit. */
    method AddToMemCache(path: string, resp: seq<byte>, ghost fs: FileStore) returns (ok: bool)
      requires Valid(fs)
      modifies this
      ensures Valid(fs)
      ensures ok <==> path !in old(memCache) && |resp| <= old(MemRoom())
      ensures ok ==> memCache == old(memCache)[path := resp] && currentMemCacheSize == old(currentMemCacheSize) + |resp|
      ensures !ok ==> memCache == old(memCache) && currentMemCacheSize == old(currentMemCacheSize)
      ensures diskCache == old(diskCache) && diskContents == old(diskContents)
      ensures currentDiskCacheSize == old(currentDiskCacheSize) && built == old(built)
      ensures memCacheSize == old(memCacheSize) && diskCacheSize == old(diskCacheSize)
    {
      if path in memCache || |resp| > Int64OfUint64(memCacheSize - currentMemCacheSize) {
        return false;
      }
      AccountedAdd(currentMemCacheSize, memCacheSize, memCache, path, resp);
      memCache := memCache[path := resp];
      currentMemCacheSize := currentMemCacheSize + |resp|;
      ok := true;
    }

    /**
      Writes resp to the path's own file and records it in the disk tier,
      unless the path is there already, resp does not fit, or the file cannot
      be created or written (a file that was created but not written is
      removed again).
    */
    method AddToDiskCache(path: string, resp: seq<byte>, fs: FileStore, write: FileWrite) returns (ok: bool)
      requires Valid(fs)
      modifies this, fs
      ensures Valid(fs)
      ensures ok <==> path !in old(diskCache) && |resp| <= old(DiskRoom()) && write == Written
      ensures ok ==>
        && diskCache == old(diskCache)[path := CacheFileName(path)]
        && diskContents == old(diskContents)[path := resp]
        && currentDiskCacheSize == old(currentDiskCacheSize) + |resp|
        && fs.files == old(fs.files)[CacheFileName(path) := resp]
      ensures !ok ==>
        && diskCache == old(diskCache) && diskContents == old(diskContents)
        && currentDiskCacheSize == old(currentDiskCacheSize)
        && fs.files == (if path !in old(diskCache) && |resp| <= old(DiskRoom()) && write == WriteFailed
                        then old(fs.files) - {CacheFileName(path)} else old(fs.files))
      ensures memCache == old(memCache) && currentMemCacheSize == old(currentMemCacheSize) && built == old(built)
      ensures memCacheSize == old(memCacheSize) && diskCacheSize == old(diskCacheSize)
    {
      var respLength := |resp|;
      if path in diskCache || respLength > Int64OfUint64(diskCacheSize - currentDiskCacheSize) {
        return false;
      }
      var fileName := CacheFileName(path);
      if write == CreateFailed {
        return false;
      }
      if write == WriteFailed {
        FilesMatchRemove(diskCache, diskContents, fs.files, path);
        fs.files := fs.files - {fileName};
        return false;
      }
      FilesMatchInsert(diskCache, diskContents, fs.files, path, resp);
      AccountedAdd(currentDiskCacheSize, diskCacheSize, diskContents, path, resp);
      fs.files := fs.files[fileName := resp];
      diskCache := diskCache[path := fileName];
      diskContents := diskContents[path := resp];
      currentDiskCacheSize := currentDiskCacheSize + respLength;
      ok := true;
    }

    /** The lower-cased path is a key of either tier. */
    predicate ContainsPath(path: string)
      reads this
    {
      var key := ToLower(path);
      key in memCache || key in diskCache
    }

    /**
      Caches resp under the lower-cased path: refused when the path is cached
      already; otherwise in memory when it fits there, else on disk.
    */
    method AddToCache(path: string, resp: seq<byte>, fs: FileStore, write: FileWrite) returns (ok: bool)
      requires Valid(fs) && Normalized()
      modifies this, fs
      ensures Valid(fs) && Normalized()
      ensures ok <==> (!old(ContainsPath(path))
        && (|resp| <= old(MemRoom()) || (|resp| <= old(DiskRoom()) && write == Written)))
      ensures ok ==> Stored(ToLower(path)) == Some(resp)
      ensures forall q | q != ToLower(path) :: Stored(q) == old(Stored(q))
      ensures ok && |resp| <= old(MemRoom()) ==>
        memCache == old(memCache)[ToLower(path) := resp] && diskCache == old(diskCache) && diskContents == old(diskContents)
      ensures ok && |resp| <= old(MemRoom()) ==> fs.files == old(fs.files)
      ensures ok && |resp| > old(MemRoom()) ==>
        && memCache == old(memCache)
        && diskCache == old(diskCache)[ToLower(path) := CacheFileName(ToLower(path))]
        && diskContents == old(diskContents)[ToLower(path) := resp]
        && fs.files == old(fs.files)[CacheFileName(ToLower(path)) := resp]
      ensures !ok ==> memCache == old(memCache) && diskCache == old(diskCache) && diskContents == old(diskContents)
      ensures !ok ==>
        fs.files == (if !old(ContainsPath(path)) && |resp| <= old(DiskRoom()) && write == WriteFailed
                     then old(fs.files) - {CacheFileName(ToLower(path))} else old(fs.files))
      ensures memCacheSize == old(memCacheSize) && diskCacheSize == old(diskCacheSize) && built == old(built)
    {
      var key := ToLower(path);
      ToLowerIdempotent(path);
      if ContainsPath(key) {
        return false;
      }
      ghost var mem, disk := memCache, diskContents;
      LookupAfterInsert(mem, disk, key, resp);
      ok := AddToMemCache(key, resp, fs);
      if !ok {
        ok := AddToDiskCache(key, resp, fs, write);
      }
    }

    /**
      The response cached for the lower-cased path: from memory when it is
      there, else read from its file; an error when the path is not cached or
      the file cannot be opened.
    */
    method GetFromCache(path: string, fs: FileStore) returns (r: Result<seq<byte>, CacheError>)
      ensures !ContainsPath(path) ==> r == Err(NotCached)
      ensures ToLower(path) in memCache ==> r == Ok(memCache[ToLower(path)])
      ensures Valid(fs) ==> r == (if Stored(ToLower(path)).Some? then Ok(Stored(ToLower(path)).value) else Err(NotCached))
    {
      var key := ToLower(path);
      ToLowerIdempotent(path);
      if !ContainsPath(key) {
        return Err(NotCached);
      }
      if key in memCache {
        return Ok(memCache[key]);
      }
      var fileName := diskCache[key];
      if fileName !in fs.files {
        return Err(OpenFailed);
      }
      r := Ok(fs.files[fileName]);
    }
  }

  /** For a consistent cache, a path is contained exactly when a response is stored for it, whatever its case. */
  lemma ContainsPathIffStored(c: Cache, fs: FileStore, path: string)
    requires c.Valid(fs)
    ensures c.ContainsPath(path) <==> c.Stored(ToLower(path)).Some?
    ensures c.ContainsPath(path) == c.ContainsPath(ToLower(path))
  {
    ToLowerIdempotent(path);
  }
}
