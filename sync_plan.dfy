/**
 * `upyt/sync.py`, `sync_to_device`: the version bump, the choice of what
 * to update, and the bookkeeping of the host-side cache.
 *
 * The cache of one device is a `Tree` of paths relative to its directory
 * `.upyt_cache/<device id>`; `caches` maps each device id to its cache.
 * The device is the `Device` class of the `Sync` module.
 */
module SyncPlan {
  import opened Common
  import opened PyText
  import opened Sync

  /** The id file's place inside a cache directory. */
  const ID_PATH: Path := [UPYT_ID_FILENAME]

  // =====================================================================
  // Paths

  /**
   * Host paths as the enumeration yields them: entries of the host tree
   * every proper ancestor of which is a directory that was yielded too.
   */
  predicate HostFiles(host: Tree, hostFiles: set<Path>)
  {
    forall q :: q in hostFiles ==> q in host && q != [] && ParentDirs(q, host, hostFiles)
  }

  /** Every proper prefix of `q` is among the host paths and is a directory. */
  predicate ParentDirs(q: Path, host: Tree, hostFiles: set<Path>)
  {
    forall k :: 1 <= k < |q| ==> q[..k] in hostFiles && q[..k] in host && host[q[..k]].Dir?
  }

  /** What the enumeration yields is a set of host paths in that sense. */
  lemma EnumeratedHostFiles(tree: Tree, listing: map<Path, seq<Path>>, excluded: set<Path>, yielded: seq<Path>)
    requires HostValid(tree, listing)
    requires Enumerated(tree, listing, excluded, yielded)
    ensures HostFiles(tree, set p | p in yielded)
  {
    forall q | q in yielded
      ensures q in tree && q != []
      ensures forall k :: 1 <= k < |q| ==> q[..k] in yielded && q[..k] in tree && tree[q[..k]].Dir?
    {
      EnumerationSound(tree, listing, excluded, yielded, q);
    }
  }

  /** `f"{device_dir}/{'/'.join(path.parts)}"`. */
  function DevicePath(deviceDir: string, path: Path): string
  {
    deviceDir + "/" + Join(path, '/')
  }

  /** A path as `pathlib` gives its parts: at least one, none empty, none holding a slash. */
  predicate PlainPath(p: Path)
  {
    p != [] && forall i :: 0 <= i < |p| ==> p[i] != [] && '/' !in p[i]
  }

  /** Every path of a host tree is plain. */
  predicate PlainTree(host: Tree)
  {
    forall p :: p in host ==> PlainPath(p)
  }

  /**
   * The device path of a plain path does not end in a slash, is longer
   * than the device directory, and lies in the device path of its parent
   * (the device directory itself for a top-level path).
   */
  lemma DevicePathShape(deviceDir: string, p: Path)
    requires PlainPath(p)
    ensures Stripped(DevicePath(deviceDir, p)) && |DevicePath(deviceDir, p)| > |deviceDir|
    ensures DirName(DevicePath(deviceDir, p)) == if |p| == 1 then deviceDir else DevicePath(deviceDir, Parent(p))
  {
    var last := p[|p| - 1];
    var above := if |p| == 1 then deviceDir else DevicePath(deviceDir, Parent(p));
    assert DevicePath(deviceDir, p) == above + "/" + last;
    DirNameAfter(above, last);
  }

  /** Distinct plain paths have distinct device paths. */
  lemma DevicePathInjective(deviceDir: string, p: Path, q: Path)
    requires PlainPath(p) && PlainPath(q)
    requires DevicePath(deviceDir, p) == DevicePath(deviceDir, q)
    ensures p == q
  {
    var prefix := deviceDir + "/";
    assert DevicePath(deviceDir, p)[|prefix|..] == Join(p, '/');
    assert DevicePath(deviceDir, q)[|prefix|..] == Join(q, '/');
    SplitJoin(p, '/');
    SplitJoin(q, '/');
  }

  /** A plain path whose device path lies within another's extends that path. */
  lemma DevicePathWithin(deviceDir: string, p: Path, q: Path)
    requires PlainPath(p) && PlainPath(q)
    requires Within(DevicePath(deviceDir, q), DevicePath(deviceDir, p))
    ensures p <= q
  {
    if DevicePath(deviceDir, q) == DevicePath(deviceDir, p) {
      DevicePathInjective(deviceDir, p, q);
    } else {
      var prefix := deviceDir + "/";
      var jp := Join(p, '/');
      var jq := Join(q, '/');
      var w := DevicePath(deviceDir, p) + "/";
      assert DevicePath(deviceDir, q)[..|w|] == w;
      assert jq[..|jp| + 1] == DevicePath(deviceDir, q)[|prefix|..|w|] == w[|prefix|..] == jp + "/";
      var rest := jq[|jp| + 1..];
      assert jq == jp + "/" + rest;
      SplitJoin(p, '/');
      SplitJoin(q, '/');
      SplitAround(jp, rest, '/');
      assert q[..|p|] == p;
    }
  }

  /** Joining two or more parts puts a separator in. */
  lemma JoinSeveral(parts: seq<string>, sep: char)
    requires |parts| >= 2
    ensures sep in Join(parts, sep)
  {
    var init := Join(parts[..|parts| - 1], sep);
    assert Join(parts, sep)[|init|] == sep;
  }

  /** Only the id file's own path reaches the device's id file. */
  lemma IdFileApart(deviceDir: string, path: Path)
    requires path != ID_PATH
    ensures !Within(IdPath(deviceDir), DevicePath(deviceDir, path))
  {
    var name := Join(path, '/');
    var prefix := deviceDir + "/";
    assert '/' !in UPYT_ID_FILENAME;
    if |path| >= 2 {
      JoinSeveral(path, '/');
    } else if |path| == 1 {
      assert path == [path[0]];
    }
    assert name != UPYT_ID_FILENAME;
    assert (prefix + name)[|prefix|..] == name;
    assert (prefix + UPYT_ID_FILENAME)[|prefix|..] == UPYT_ID_FILENAME;
    if |name| < |UPYT_ID_FILENAME| {
      assert IdPath(deviceDir)[|prefix| + |name|] == UPYT_ID_FILENAME[|name|] != '/';
      assert (DevicePath(deviceDir, path) + "/")[|prefix| + |name|] == '/';
    }
  }

  // =====================================================================
  // Cache versions and the choice of what to update

  /** The cache of a device, created empty when missing. */
  function CacheOf(caches: map<string, Tree>, deviceId: string): Tree
  {
    if deviceId in caches then caches[deviceId] else map[]
  }

  /** The version in a cache's id file; `None` when it cannot be read or decoded. */
  function CacheVersion(cache: Tree): Option<int>
  {
    if ID_PATH in cache && cache[ID_PATH].File? then
      match DecodeUpytId(cache[ID_PATH].content)
      case Ok(pair) => Some(pair.0)
      case Err(_) => None
    else None
  }

  /** `is_file()` of a path in a tree: false for a directory and for a missing path. */
  predicate IsFileIn(t: Tree, p: Path)
  {
    p in t && t[p].File?
  }

  /**
   * `to_update`: every host path when the cache is not to be used;
   * otherwise those not in the cache, those that changed between file and
   * directory, and files whose bytes changed.
   */
  function ToUpdate(hostFiles: set<Path>, host: Tree, cache: Tree, useAll: bool): set<Path>
  {
    if useAll then hostFiles
    else set p | p in hostFiles
                 && (|| p !in cache
                     || IsFileIn(host, p) != IsFileIn(cache, p)
                     || (IsFileIn(host, p) && IsFileIn(cache, p) && host[p].content != cache[p].content))
  }

  /**
   * Using the cache, a host path is updated exactly when its cache entry is
   * missing or is not the same entry as on the host.
   */
  lemma ToUpdateCases(hostFiles: set<Path>, host: Tree, cache: Tree, useAll: bool, p: Path)
    requires forall q :: q in hostFiles ==> q in host
    ensures useAll ==> ToUpdate(hostFiles, host, cache, useAll) == hostFiles
    ensures !useAll ==> (p in ToUpdate(hostFiles, host, cache, useAll) <==> p in hostFiles && (p !in cache || cache[p] != host[p]))
  {
    if !useAll && p in hostFiles && p in cache && cache[p] != host[p] {
      if host[p].File? && cache[p].File? {
        assert host[p].content != cache[p].content;
      }
    }
  }

  // =====================================================================
  // The cache

  /** `shutil.rmtree`: `path` and everything beneath it go. */
  function RemoveBelow(cache: Tree, path: Path): Tree
  {
    map q | q in cache && !(path <= q) :: cache[q]
  }

  /** The host paths, each with its host entry. */
  function HostCopy(host: Tree, hostFiles: set<Path>): Tree
  {
    map q | q in hostFiles && q in host :: host[q]
  }

  /** Every ancestor of a host path is a host path. */
  predicate AncestorClosed(hostFiles: set<Path>)
  {
    forall q, k :: q in hostFiles && 1 <= k < |q| ==> q[..k] in hostFiles
  }

  /** Removing a stale directory keeps the host paths and the id file. */
  lemma RemoveStaleKeeps(cache: Tree, path: Path, hostFiles: set<Path>, q: Path)
    requires AncestorClosed(hostFiles)
    requires path !in hostFiles && path != [] && path != ID_PATH
    requires q in cache && (q in hostFiles || q == ID_PATH)
    ensures q in RemoveBelow(cache, path)
  {
    if |path| < |q| {
      assert q[..|path|] in hostFiles;
      assert q[..|path|] != path;
    } else {
      assert path != q;
    }
  }

  /**
   * The flush of stale cache entries: every entry that is neither a host
   * path nor the id file is removed, a directory with everything beneath
   * it; the host paths and the id file stay as they were.
   */
  method FlushCache(cache: Tree, hostFiles: set<Path>) returns (flushed: Tree)
    requires AncestorClosed(hostFiles)
    requires [] !in cache
    ensures flushed == map q | q in cache && (q in hostFiles || q == ID_PATH) :: cache[q]
  {
    flushed := cache;
    var stale := cache.Keys - hostFiles;
    while stale != {}
      invariant forall q :: q in flushed ==> q in cache && flushed[q] == cache[q]
      invariant forall q :: q in cache && (q in hostFiles || q == ID_PATH) ==> q in flushed
      invariant forall q :: q in flushed ==> q in hostFiles || q == ID_PATH || q in stale
      invariant stale <= cache.Keys - hostFiles
      decreases stale
    {
      var path :| path in stale;
      stale := stale - {path};
      if path == ID_PATH {
        continue;
      }
      if path in flushed && flushed[path].Dir? {
        forall q | q in cache && (q in hostFiles || q == ID_PATH)
          ensures q in RemoveBelow(flushed, path)
        {
          RemoveStaleKeeps(flushed, path, hostFiles, q);
        }
        flushed := RemoveBelow(flushed, path);
      } else if path in flushed && flushed[path].File? {
        flushed := flushed - {path};
      }
    }
  }

  // =====================================================================
  // The device passes

  /** Every file update among `actions` uses the safety setting `safe`. */
  predicate UpdatesUse(actions: seq<Action>, safe: bool)
  {
    forall i :: 0 <= i < |actions| ==> actions[i].UpdateFile? ==> actions[i].safe == safe
  }

  /** `actions` update no file. */
  predicate NoUpdates(actions: seq<Action>)
  {
    forall i :: 0 <= i < |actions| ==> !actions[i].UpdateFile?
  }

  lemma UpdatesUseAppend(a: seq<Action>, b: seq<Action>, safe: bool)
    requires UpdatesUse(a, safe) && UpdatesUse(b, safe)
    ensures UpdatesUse(a + b, safe)
  {
    forall i | 0 <= i < |a + b|
      ensures (a + b)[i].UpdateFile? ==> (a + b)[i].safe == safe
    {
      if i >= |a| {
        assert (a + b)[i] == b[i - |a|];
      }
    }
  }

  lemma NoUpdatesAppend(a: seq<Action>, b: seq<Action>)
    requires NoUpdates(a) && NoUpdates(b)
    ensures NoUpdates(a + b)
  {
    forall i | 0 <= i < |a + b|
      ensures !(a + b)[i].UpdateFile?
    {
      if i >= |a| {
        assert (a + b)[i] == b[i - |a|];
      }
    }
  }

  lemma NoUpdatesUse(actions: seq<Action>, safe: bool)
    requires NoUpdates(actions)
    ensures UpdatesUse(actions, safe)
  {
  }

  /** No device path of `paths` is `s` or lies above it. */
  predicate Untouched(s: string, deviceDir: string, paths: set<Path>)
  {
    forall p :: p in paths ==> !Within(s, DevicePath(deviceDir, p))
  }

  /** The entries of `before` outside `devicePath` are unchanged in `after`. */
  predicate OutsideKept(before: map<string, Entry>, after: map<string, Entry>, devicePath: string)
  {
    forall s :: s in before && !Within(s, devicePath) ==> s in after && after[s] == before[s]
  }

  /** Outside `devicePath`, `after` has exactly the entries of `before`. */
  ghost predicate OutsideSame(before: map<string, Entry>, after: map<string, Entry>, devicePath: string)
  {
    forall s :: !Within(s, devicePath) ==> (s in after <==> s in before) && (s in before ==> after[s] == before[s])
  }

  /** The entries of `before` outside the device paths of `paths` are unchanged in `after`. */
  predicate Preserved(before: map<string, Entry>, after: map<string, Entry>, deviceDir: string, paths: set<Path>)
  {
    forall s :: s in before && Untouched(s, deviceDir, paths) ==> s in after && after[s] == before[s]
  }

  /** Outside the device paths of `paths`, `after` has exactly the entries of `before`. */
  ghost predicate Agree(before: map<string, Entry>, after: map<string, Entry>, deviceDir: string, paths: set<Path>)
  {
    forall s :: Untouched(s, deviceDir, paths) ==> (s in after <==> s in before) && (s in before ==> after[s] == before[s])
  }

  lemma PreservedStep(e0: map<string, Entry>, e1: map<string, Entry>, e2: map<string, Entry>,
                      deviceDir: string, done: set<Path>, path: Path)
    requires Preserved(e0, e1, deviceDir, done)
    requires OutsideKept(e1, e2, DevicePath(deviceDir, path))
    ensures Preserved(e0, e2, deviceDir, done + {path})
  {
    forall s | s in e0 && Untouched(s, deviceDir, done + {path})
      ensures s in e2 && e2[s] == e0[s]
    {
      assert !Within(s, DevicePath(deviceDir, path));
      assert Untouched(s, deviceDir, done);
    }
  }

  lemma AgreeStep(e0: map<string, Entry>, e1: map<string, Entry>, e2: map<string, Entry>,
                  deviceDir: string, done: set<Path>, path: Path)
    requires Agree(e0, e1, deviceDir, done)
    requires OutsideSame(e1, e2, DevicePath(deviceDir, path))
    ensures Agree(e0, e2, deviceDir, done + {path})
  {
    forall s | Untouched(s, deviceDir, done + {path})
      ensures (s in e2 <==> s in e0) && (s in e0 ==> e2[s] == e0[s])
    {
      assert !Within(s, DevicePath(deviceDir, path));
      assert Untouched(s, deviceDir, done);
    }
  }

  /** Fewer paths touch fewer entries. */
  lemma PreservedFewer(e0: map<string, Entry>, e1: map<string, Entry>, deviceDir: string, fewer: set<Path>, paths: set<Path>)
    requires Preserved(e0, e1, deviceDir, fewer) && fewer <= paths
    ensures Preserved(e0, e1, deviceDir, paths)
  {
  }

  lemma PreservedCompose(e0: map<string, Entry>, e1: map<string, Entry>, e2: map<string, Entry>, deviceDir: string, paths: set<Path>)
    requires Preserved(e0, e1, deviceDir, paths) && Preserved(e1, e2, deviceDir, paths)
    ensures Preserved(e0, e2, deviceDir, paths)
  {
  }

  /** The device directory lies above every device path, so no path touches it. */
  lemma DeviceDirUntouched(deviceDir: string, paths: set<Path>)
    ensures Untouched(deviceDir, deviceDir, paths)
  {
  }

  /** The host files of `paths`. */
  function FilesAmong(host: Tree, paths: set<Path>): set<Path>
  {
    set p | p in paths && p in host && host[p].File?
  }

  /**
   * No host file lies above another host path, so the device path of a
   * host path is untouched by the host files other than itself.
   */
  lemma HostPathUntouched(deviceDir: string, host: Tree, hostFiles: set<Path>, files: set<Path>, q: Path)
    requires PlainTree(host) && HostFiles(host, hostFiles)
    requires q in hostFiles && q !in files
    requires forall f :: f in files ==> f in hostFiles && host[f].File?
    ensures Untouched(DevicePath(deviceDir, q), deviceDir, files)
  {
    forall f | f in files
      ensures !Within(DevicePath(deviceDir, q), DevicePath(deviceDir, f))
    {
      assert f != q && f != [] && q[..|q|] == q;
      if |f| < |q| {
        assert host[q[..|f|]].Dir? && q[..|f|] != f;
      }
      assert !(f <= q);
      if Within(DevicePath(deviceDir, q), DevicePath(deviceDir, f)) {
        DevicePathWithin(deviceDir, f, q);
        assert false;
      }
    }
  }

  /** `s` is none of the device paths of the host directories among `paths`. */
  predicate NoDirAt(s: string, deviceDir: string, host: Tree, paths: set<Path>)
  {
    forall p :: p in paths && p in host && host[p].Dir? ==> s != DevicePath(deviceDir, p)
  }

  /** Away from the device paths of the host directories among `paths`, `after` has exactly the entries of `before`. */
  ghost predicate DirsKept(before: map<string, Entry>, after: map<string, Entry>, deviceDir: string, host: Tree, paths: set<Path>)
  {
    forall s :: NoDirAt(s, deviceDir, host, paths) ==> (s in after <==> s in before) && (s in before ==> after[s] == before[s])
  }

  /** A plain path's device path is that of no other host path. */
  lemma NoDirAtOther(deviceDir: string, host: Tree, paths: set<Path>, q: Path)
    requires PlainTree(host) && q in host && (q !in paths || !host[q].Dir?)
    ensures NoDirAt(DevicePath(deviceDir, q), deviceDir, host, paths)
  {
    forall p | p in paths && p in host && host[p].Dir?
      ensures DevicePath(deviceDir, q) != DevicePath(deviceDir, p)
    {
      if DevicePath(deviceDir, q) == DevicePath(deviceDir, p) {
        DevicePathInjective(deviceDir, p, q);
      }
    }
  }

  /** The device directory is no device path. */
  lemma NoDirAtDeviceDir(deviceDir: string, host: Tree, paths: set<Path>)
    ensures NoDirAt(deviceDir, deviceDir, host, paths)
  {
  }

  /** The device directory is the root or a directory. */
  predicate DirReady(entries: map<string, Entry>, deviceDir: string)
  {
    IsRoot(deviceDir) || (deviceDir in entries && entries[deviceDir].Dir?)
  }

  /** The device holds the host entry of `q` at its device path. */
  predicate Mirrored(entries: map<string, Entry>, deviceDir: string, host: Tree, q: Path)
  {
    q in host && DevicePath(deviceDir, q) in entries && entries[DevicePath(deviceDir, q)] == host[q]
  }

  /** A file standing at `path` is removed; nothing else is. */
  method ClearFile(device: Device, path: string) returns (ghost actions: seq<Action>)
    requires device.Valid()
    modifies device
    ensures device.Valid()
    ensures device.log == old(device.log) + actions && NoUpdates(actions)
    ensures device.entries == if path in old(device.entries) && old(device.entries)[path].File?
                              then old(device.entries) - {path} else old(device.entries)
  {
    actions := [];
    var t := device.GetType(path);
    if t == FileType {
      RemoveFile(device.entries, path);
      device.RemoveRecursive(path);
      actions := [RemoveTree(path)];
    }
  }

  /**
   * One directory of the directories pass: a file standing at the device
   * path is removed, then the directory is made (`exist_ok=True`, no
   * parents). Where the path does not end in a slash, the directory is
   * there afterwards exactly when the directory holding it was, and
   * nothing else changes.
   */
  method MakeDeviceDirectory(device: Device, devicePath: string) returns (ghost actions: seq<Action>)
    requires device.Valid()
    modifies device
    ensures device.Valid()
    ensures device.log == old(device.log) + actions && NoUpdates(actions)
    ensures forall s :: s in old(device.entries) && s != devicePath ==> s in device.entries && device.entries[s] == old(device.entries)[s]
    ensures Stripped(devicePath) ==>
              device.entries == if ParentPresent(old(device.entries), devicePath)
                                then old(device.entries)[devicePath := Dir] else old(device.entries)
  {
    actions := ClearFile(device, devicePath);
    ghost var cleared := device.entries;
    var _ := device.Mkdir(devicePath, false, true);
    actions := actions + [MakeDir(devicePath)];
    MkdirNoParents(cleared, devicePath);
    if Stripped(devicePath) {
      StrippedShape(devicePath);
    }
    MadeDirectory(old(device.entries), cleared, device.entries, devicePath, RStripSlashes(devicePath));
  }

  /** `mkdir` without parents makes at most the path without its trailing slashes. */
  lemma MkdirNoParents(e: map<string, Entry>, path: string)
    ensures var x := RStripSlashes(path);
            MakeDirs(e, MkdirTargets(path, false)) == if CanMake(e, x) then e[x := Dir] else e
  {
    var x := RStripSlashes(path);
    assert ParentTargets(x, false) == [];
    MakeDirsSnoc(e, [], x);
    assert [] + [x] == [x];
  }

  /**
   * Making the directory `x` after a file at `path` was removed keeps the
   * other entries; where `path` does not end in a slash (so `x` is `path`),
   * the directory is there exactly when the directory holding it is.
   */
  lemma MadeDirectory(e: map<string, Entry>, cleared: map<string, Entry>, made: map<string, Entry>, path: string, x: string)
    requires WellFormed(e)
    requires cleared == if path in e && e[path].File? then e - {path} else e
    requires made == if CanMake(cleared, x) then cleared[x := Dir] else cleared
    requires Stripped(path) ==> x == path
    ensures forall s :: s in e && s != path ==> s in made && made[s] == e[s]
    ensures Stripped(path) ==> made == if ParentPresent(e, path) then e[path := Dir] else e
  {
    if Stripped(path) {
      StrippedShape(path);
      assert DirName(path) != path;
      MadeAtPath(e, cleared, made, path);
    }
  }

  /** The case of `MadeDirectory` where `x` is `path` itself. */
  lemma MadeAtPath(e: map<string, Entry>, cleared: map<string, Entry>, made: map<string, Entry>, path: string)
    requires path in e ==> ParentPresent(e, path)
    requires DirName(path) != path && !IsRoot(path)
    requires cleared == if path in e && e[path].File? then e - {path} else e
    requires made == if CanMake(cleared, path) then cleared[path := Dir] else cleared
    ensures made == if ParentPresent(e, path) then e[path := Dir] else e
  {
    if path !in e {
      assert cleared == e;
    } else if e[path].Dir? {
      assert made == cleared == e;
      assert e[path := Dir] == e;
    } else {
      var d := DirName(path);
      assert d in cleared <==> d in e;
      assert d in e ==> cleared[d] == e[d];
      assert CanMake(cleared, path);
      assert (e - {path})[path := Dir] == e[path := Dir];
    }
  }

  /** The entry `SendFile` leaves: the host's bytes, unless an unchecked patch ran on a file without the cached bytes. */
  function SentEntry(was: map<string, Entry>, devicePath: string, cached: Option<Bytes>, content: Bytes, safe: bool,
                     matcher: Matcher): Entry
  {
    if !safe && cached.Some? && devicePath in was && was[devicePath].File? && was[devicePath].content != cached.value
    then File(Patched(matcher, was[devicePath].content, cached.value, content))
    else File(content)
  }

  /**
   * Clearing the device path and then putting the file there: the put
   * succeeds where a directory was cleared, and otherwise where the file
   * can be written; a stripped path can be written exactly when its parent
   * is there.
   */
  lemma SendOutcome(was: map<string, Entry>, cleared: map<string, Entry>, final: map<string, Entry>, devicePath: string,
                    cached: Option<Bytes>, content: Bytes, safe: bool, matcher: Matcher, ok: bool)
    requires !(devicePath in was && was[devicePath].Dir?) ==> cleared == was
    requires devicePath in was && was[devicePath].Dir? ==>
               devicePath !in cleared && !IsRoot(devicePath) && ParentPresent(cleared, devicePath)
    requires OutsideSame(was, cleared, devicePath)
    requires ok <==> CanWrite(cleared, devicePath)
    requires ok ==> final == cleared[devicePath := SentEntry(cleared, devicePath, cached, content, safe, matcher)]
    requires !ok ==> final == cleared
    ensures Stripped(devicePath) ==> (ok <==> ParentPresent(was, devicePath))
    ensures ok ==> devicePath in final && final[devicePath] == SentEntry(was, devicePath, cached, content, safe, matcher)
    ensures !ok ==> final == was
    ensures OutsideSame(was, final, devicePath)
  {
    if devicePath in was && was[devicePath].Dir? {
      assert CanWrite(cleared, devicePath) && ParentPresent(was, devicePath);
    }
    SentAfterClear(was, cleared, devicePath, cached, content, safe, matcher);
    if Stripped(devicePath) {
      StrippedShape(devicePath);
    }
  }

  /** Clearing a directory from the device path leaves the same entry to send. */
  lemma SentAfterClear(was: map<string, Entry>, cleared: map<string, Entry>, devicePath: string, cached: Option<Bytes>,
                       content: Bytes, safe: bool, matcher: Matcher)
    requires cleared == was || (devicePath in was && was[devicePath].Dir? && devicePath !in cleared)
    ensures SentEntry(cleared, devicePath, cached, content, safe, matcher) == SentEntry(was, devicePath, cached, content, safe, matcher)
  {
  }

  /**
   * One file of the files pass: a directory standing at the device path is
   * removed; the file is then patched from the cached copy, or written
   * whole when there is no cached copy or the update fails. `ok` is false
   * when that write raises `OSError`, which leaves the device as it was.
   * Where the path does not end in a slash, the write succeeds exactly
   * when the directory holding it exists.
   */
  method SendFile(device: Device, devicePath: string, cached: Option<Bytes>, content: Bytes, safe: bool)
    returns (ok: bool, ghost actions: seq<Action>)
    requires device.Valid()
    modifies device
    ensures device.Valid()
    ensures device.log == old(device.log) + actions && UpdatesUse(actions, safe)
    ensures Stripped(devicePath) ==> (ok <==> ParentPresent(old(device.entries), devicePath))
    ensures ok ==> devicePath in device.entries
                   && device.entries[devicePath] == SentEntry(old(device.entries), devicePath, cached, content, safe, device.matcher)
    ensures !ok ==> device.entries == old(device.entries)
    ensures OutsideSame(old(device.entries), device.entries, devicePath)
  {
    ghost var was := device.entries;
    actions := ClearDirectory(device, devicePath);
    ghost var cleared := device.entries;
    ghost var more;
    ok, more := PutFile(device, devicePath, cached, content, safe);
    SendOutcome(was, cleared, device.entries, devicePath, cached, content, safe, device.matcher, ok);
    NoUpdatesUse(actions, safe);
    UpdatesUseAppend(actions, more, safe);
    actions := actions + more;
  }

  /**
   * A directory standing at `path` is removed with everything beneath it;
   * it had a parent, which is still there. Nothing else changes.
   */
  method ClearDirectory(device: Device, path: string) returns (ghost actions: seq<Action>)
    requires device.Valid()
    modifies device
    ensures device.Valid()
    ensures device.log == old(device.log) + actions && NoUpdates(actions)
    ensures !(path in device.entries && device.entries[path].Dir?)
    ensures !(path in old(device.entries) && old(device.entries)[path].Dir?) ==> device.entries == old(device.entries)
    ensures path in old(device.entries) && old(device.entries)[path].Dir? ==>
              path !in device.entries && !IsRoot(path) && ParentPresent(device.entries, path)
    ensures OutsideSame(old(device.entries), device.entries, path)
  {
    actions := [];
    var t := device.GetType(path);
    if t == DirType {
      device.RemoveRecursive(path);
      actions := [RemoveTree(path)];
      assert IsRoot(DirName(path)) || |DirName(path)| < |path|;
    }
  }

  /**
   * The file at `path`, which is no directory, is patched from `cached`,
   * or written whole when there is nothing cached or the patch fails.
   * `ok` is false when the write raises, which leaves the device as it
   * was; the write succeeds exactly where `open` can create the file.
   */
  method PutFile(device: Device, path: string, cached: Option<Bytes>, content: Bytes, safe: bool)
    returns (ok: bool, ghost actions: seq<Action>)
    requires device.Valid() && !(path in device.entries && device.entries[path].Dir?)
    modifies device
    ensures device.Valid()
    ensures device.log == old(device.log) + actions && UpdatesUse(actions, safe)
    ensures ok <==> CanWrite(old(device.entries), path)
    ensures ok ==> device.entries == old(device.entries)[path := SentEntry(old(device.entries), path, cached, content, safe, device.matcher)]
    ensures !ok ==> device.entries == old(device.entries)
  {
    actions := [];
    ok := false;
    if cached.Some? {
      var r := device.UpdateFile(path, cached.value, content, safe);
      actions := [Action.UpdateFile(path, cached.value, content, safe)];
      ok := r.Ok?;
    }
    if !ok {
      ok := device.WriteFile(path, content);
      actions := actions + [Action.WriteFile(path, content)];
    }
  }

  /** The cache after the directories pass: each host directory among `paths` is a directory. */
  function WithDirs(cache: Tree, host: Tree, paths: set<Path>): Tree
  {
    cache + map p | p in paths && p in host && host[p].Dir? :: Dir
  }

  lemma WithDirsInsert(cache: Tree, host: Tree, paths: set<Path>, path: Path)
    ensures WithDirs(cache, host, paths + {path})
         == if path in host && host[path].Dir? then WithDirs(cache, host, paths)[path := Dir] else WithDirs(cache, host, paths)
  {
  }

  /** `p` is no longer than any path of `paths`. */
  predicate Shortest(p: Path, paths: set<Path>)
  {
    forall q :: q in paths ==> |p| <= |q|
  }

  lemma {:induction false} ShortestExists(paths: set<Path>)
    requires paths != {}
    ensures exists p :: p in paths && Shortest(p, paths)
    decreases |paths|
  {
    var x :| x in paths;
    if paths != {x} {
      ShortestExists(paths - {x});
      var y :| y in paths - {x} && Shortest(y, paths - {x});
      if |x| < |y| {
        assert Shortest(x, paths);
      } else {
        assert Shortest(y, paths);
      }
    } else {
      assert Shortest(x, paths);
    }
  }

  /** The host directories among `paths` are mirrored on the device. */
  predicate DirsMirrored(entries: map<string, Entry>, deviceDir: string, host: Tree, paths: set<Path>)
  {
    forall q :: q in paths && q in host && host[q].Dir? ==> Mirrored(entries, deviceDir, host, q)
  }

  /**
   * What the directories pass needs of the device to mirror the host: the
   * device directory exists, and the host directories it does not visit
   * are there already.
   */
  predicate DirsReady(entries: map<string, Entry>, deviceDir: string, host: Tree, hostFiles: set<Path>, toUpdate: set<Path>)
  {
    DirReady(entries, deviceDir) && DirsMirrored(entries, deviceDir, host, hostFiles - toUpdate)
  }

  /** What the directories pass keeps between paths. */
  ghost predicate DirsPass(e0: map<string, Entry>, e: map<string, Entry>, deviceDir: string, host: Tree,
                           hostFiles: set<Path>, toUpdate: set<Path>, done: set<Path>, actions: seq<Action>)
  {
    && NoUpdates(actions)
    && Preserved(e0, e, deviceDir, done)
    && (PlainTree(host) ==> DirsKept(e0, e, deviceDir, host, done))
    && (PlainTree(host) && DirsReady(e0, deviceDir, host, hostFiles, toUpdate) ==> DirsMirrored(e, deviceDir, host, done))
  }

  /** The directory holding the device path of a host directory about to be made is there. */
  lemma DirsParentPresent(e0: map<string, Entry>, e: map<string, Entry>, deviceDir: string, host: Tree,
                          hostFiles: set<Path>, toUpdate: set<Path>, done: set<Path>, path: Path)
    requires PlainTree(host) && HostFiles(host, hostFiles) && toUpdate <= hostFiles
    requires path in toUpdate && path !in done
    requires |path| > 1 && Parent(path) in toUpdate ==> Parent(path) in done
    requires DirsKept(e0, e, deviceDir, host, done) && done <= toUpdate
    requires DirsReady(e0, deviceDir, host, hostFiles, toUpdate) && DirsMirrored(e, deviceDir, host, done)
    ensures ParentPresent(e, DevicePath(deviceDir, path))
  {
    DevicePathShape(deviceDir, path);
    if |path| == 1 {
      NoDirAtDeviceDir(deviceDir, host, done);
    } else {
      var up := Parent(path);
      assert up == path[..|path| - 1];
      assert up in hostFiles && host[up].Dir?;
      if up !in toUpdate {
        assert Mirrored(e0, deviceDir, host, up);
        NoDirAtOther(deviceDir, host, done, up);
      }
    }
  }

  lemma DirsPassStep(e0: map<string, Entry>, e1: map<string, Entry>, e2: map<string, Entry>, deviceDir: string,
                     host: Tree, hostFiles: set<Path>, toUpdate: set<Path>, done: set<Path>, path: Path,
                     actions: seq<Action>, more: seq<Action>)
    requires HostFiles(host, hostFiles) && toUpdate <= hostFiles && done <= toUpdate
    requires path in toUpdate && path !in done
    requires |path| > 1 && Parent(path) in toUpdate ==> Parent(path) in done
    requires DirsPass(e0, e1, deviceDir, host, hostFiles, toUpdate, done, actions)
    requires NoUpdates(more)
    requires !(path in host && host[path].Dir?) ==> e2 == e1
    requires path in host && host[path].Dir? ==>
               && (forall s :: s in e1 && s != DevicePath(deviceDir, path) ==> s in e2 && e2[s] == e1[s])
               && (Stripped(DevicePath(deviceDir, path)) ==>
                     e2 == if ParentPresent(e1, DevicePath(deviceDir, path)) then e1[DevicePath(deviceDir, path) := Dir] else e1)
    ensures DirsPass(e0, e2, deviceDir, host, hostFiles, toUpdate, done + {path}, actions + more)
  {
    NoUpdatesAppend(actions, more);
    var dp := DevicePath(deviceDir, path);
    var isDir := path in host && host[path].Dir?;
    forall s | s in e0 && Untouched(s, deviceDir, done + {path})
      ensures s in e2 && e2[s] == e0[s]
    {
      assert Untouched(s, deviceDir, done);
      assert !Within(s, dp);
    }
    if PlainTree(host) {
      DevicePathShape(deviceDir, path);
      forall s | NoDirAt(s, deviceDir, host, done + {path})
        ensures (s in e2 <==> s in e0) && (s in e0 ==> e2[s] == e0[s])
      {
        assert NoDirAt(s, deviceDir, host, done);
      }
      if DirsReady(e0, deviceDir, host, hostFiles, toUpdate) {
        if isDir {
          DirsParentPresent(e0, e1, deviceDir, host, hostFiles, toUpdate, done, path);
          forall q | q in done && q in host && host[q].Dir?
            ensures Mirrored(e2, deviceDir, host, q)
          {
            assert Mirrored(e1, deviceDir, host, q);
            NoDirAtOther(deviceDir, host, {path}, q);
          }
        }
      }
    }
  }

  /**
   * The directories pass over `to_update`, shortest path first: each host
   * directory is made on the device, replacing a file that stands there,
   * and is made a directory in the cache. No file is updated; the device
   * entries outside the paths of `to_update` are left alone and, for plain
   * host paths, nothing changes but the device paths of those directories.
   * Shorter paths first puts every parent before its children, as
   * `sorted` does: when the device directory exists and the host
   * directories outside `to_update` are on the device already, every host
   * directory is on the device afterwards.
   */
  method UpdateDirectories(device: Device, deviceDir: string, host: Tree, ghost hostFiles: set<Path>,
                           toUpdate: set<Path>, cache: Tree)
    returns (cache': Tree, ghost actions: seq<Action>)
    requires device.Valid()
    requires HostFiles(host, hostFiles) && toUpdate <= hostFiles
    modifies device
    ensures device.Valid()
    ensures cache' == WithDirs(cache, host, toUpdate)
    ensures device.log == old(device.log) + actions && NoUpdates(actions)
    ensures Preserved(old(device.entries), device.entries, deviceDir, toUpdate)
    ensures PlainTree(host) ==> DirsKept(old(device.entries), device.entries, deviceDir, host, toUpdate)
    ensures PlainTree(host) && DirsReady(old(device.entries), deviceDir, host, hostFiles, toUpdate) ==>
              DirsMirrored(device.entries, deviceDir, host, hostFiles)
  {
    cache' := cache;
    actions := [];
    var todo := toUpdate;
    while todo != {}
      invariant todo <= toUpdate && device.Valid()
      invariant cache' == WithDirs(cache, host, toUpdate - todo)
      invariant DirsPass(old(device.entries), device.entries, deviceDir, host, hostFiles, toUpdate, toUpdate - todo, actions)
      invariant device.log == old(device.log) + actions
      decreases todo
    {
      ShortestExists(todo);
      var path :| path in todo && Shortest(path, todo);
      ghost var done := toUpdate - todo;
      ghost var before := device.entries;
      ghost var more: seq<Action> := [];
      WithDirsInsert(cache, host, done, path);
      if path in host && host[path].Dir? {
        more := MakeDeviceDirectory(device, DevicePath(deviceDir, path));
        cache' := cache'[path := Dir];
      }
      assert |path| > 1 ==> Parent(path) !in todo;
      DirsPassStep(old(device.entries), before, device.entries, deviceDir, host, hostFiles, toUpdate, done, path, actions, more);
      AppendAssoc(old(device.log), actions, more);
      actions := actions + more;
      todo := todo - {path};
      assert toUpdate - todo == done + {path};
    }
    assert toUpdate - todo == toUpdate;
    if PlainTree(host) && DirsReady(old(device.entries), deviceDir, host, hostFiles, toUpdate) {
      forall q | q in hostFiles - toUpdate && q in host && host[q].Dir?
        ensures Mirrored(device.entries, deviceDir, host, q)
      {
        NoDirAtOther(deviceDir, host, toUpdate, q);
      }
    }
  }

  /** `write_bytes` of a host file into the cache, a directory standing there removed first. */
  function WithFile(cache: Tree, path: Path, content: Bytes): Tree
  {
    (if path in cache && cache[path].Dir? then RemoveBelow(cache, path) else cache)[path := File(content)]
  }

  /**
   * The cache once the files pass has written the host files among
   * `done`: those hold their host entries, the other host paths and the id
   * file keep their entries, and nothing else was added.
   */
  predicate FilesCached(cache: Tree, cache': Tree, host: Tree, hostFiles: set<Path>, done: set<Path>)
  {
    && (forall p :: p in done && p in host && host[p].File? ==> p in cache' && cache'[p] == host[p])
    && (forall p :: p in cache' ==> p in cache || (p in done && p in host && host[p].File?))
    && (forall p :: p in cache && (p in hostFiles || p == ID_PATH) && !(p in done && p in host && host[p].File?) ==>
          p in cache' && cache'[p] == cache[p])
  }

  /** Writing a host file removes no other host path: none lies beneath a file. */
  lemma WithFileKeeps(cache: Tree, path: Path, content: Bytes, host: Tree, hostFiles: set<Path>, p: Path)
    requires HostFiles(host, hostFiles)
    requires path in hostFiles && host[path].File?
    requires p in cache && (p in hostFiles || p == ID_PATH) && p != path
    ensures p in WithFile(cache, path, content) && WithFile(cache, path, content)[p] == cache[p]
  {
    if |path| < |p| && p in hostFiles {
      assert p[..|path|] in host && host[p[..|path|]].Dir?;
      assert p[..|path|] != path;
    }
  }

  lemma FilesCachedStep(cache: Tree, cache': Tree, host: Tree, hostFiles: set<Path>, done: set<Path>, path: Path)
    requires HostFiles(host, hostFiles)
    requires path in hostFiles && host[path].File? && done <= hostFiles
    requires FilesCached(cache, cache', host, hostFiles, done)
    ensures FilesCached(cache, WithFile(cache', path, host[path].content), host, hostFiles, done + {path})
  {
    var next := WithFile(cache', path, host[path].content);
    forall p | p in cache && (p in hostFiles || p == ID_PATH) && !(p in done + {path} && p in host && host[p].File?)
      ensures p in next && next[p] == cache[p]
    {
      WithFileKeeps(cache', path, host[path].content, host, hostFiles, p);
    }
    forall p | p in done && p in host && host[p].File? && p != path
      ensures p in next && next[p] == host[p]
    {
      WithFileKeeps(cache', path, host[path].content, host, hostFiles, p);
    }
  }

  /** The cached bytes of `p`: `read_bytes` of the cache, `None` for its `OSError`. */
  function CachedBytes(cache: Tree, p: Path): Option<Bytes>
  {
    if p in cache && cache[p].File? then Some(cache[p].content) else None
  }

  /** What the files pass leaves at the device path of the host file `p`, from the device and cache it started with. */
  predicate FileSent(e0: map<string, Entry>, e: map<string, Entry>, deviceDir: string, host: Tree, cache: Tree,
                     p: Path, safe: bool, matcher: Matcher)
    requires p in host && host[p].File?
  {
    var dp := DevicePath(deviceDir, p);
    dp in e && e[dp] == SentEntry(e0, dp, CachedBytes(cache, p), host[p].content, safe, matcher)
  }

  /** The host files among `paths` have been sent. */
  predicate FilesSent(e0: map<string, Entry>, e: map<string, Entry>, deviceDir: string, host: Tree, cache: Tree,
                      paths: set<Path>, safe: bool, matcher: Matcher)
  {
    forall p :: p in paths && p in host && host[p].File? ==> FileSent(e0, e, deviceDir, host, cache, p, safe, matcher)
  }

  /** The directory holding the device path of every host file among `paths` exists. */
  predicate FilesReady(entries: map<string, Entry>, deviceDir: string, host: Tree, paths: set<Path>)
  {
    forall p :: p in paths && p in host && host[p].File? ==> ParentPresent(entries, DevicePath(deviceDir, p))
  }

  /**
   * One path of the files pass: a host file is sent to the device and,
   * unless that raised, written into the cache; a directory is passed over.
   */
  method UpdateFile(device: Device, deviceDir: string, host: Tree, ghost hostFiles: set<Path>, ghost cache: Tree,
                    current: Tree, ghost done: set<Path>, path: Path, safe: bool)
    returns (ok: bool, next: Tree, ghost actions: seq<Action>)
    requires device.Valid()
    requires HostFiles(host, hostFiles) && path in hostFiles && done <= hostFiles
    requires FilesCached(cache, current, host, hostFiles, done)
    modifies device
    ensures device.Valid()
    ensures ok ==> FilesCached(cache, next, host, hostFiles, done + {path})
    ensures device.log == old(device.log) + actions && UpdatesUse(actions, safe)
    ensures host[path].Dir? ==> ok && device.entries == old(device.entries)
    ensures !ok ==> device.entries == old(device.entries)
    ensures OutsideSame(old(device.entries), device.entries, DevicePath(deviceDir, path))
    ensures host[path].File? && Stripped(DevicePath(deviceDir, path)) ==>
              (ok <==> ParentPresent(old(device.entries), DevicePath(deviceDir, path)))
    ensures host[path].File? && ok ==> var dp := DevicePath(deviceDir, path);
              dp in device.entries
              && device.entries[dp] == SentEntry(old(device.entries), dp, CachedBytes(current, path), host[path].content,
                                                 safe, device.matcher)
  {
    if host[path].Dir? {
      return true, current, [];
    }
    next := current;
    ok, actions := SendFile(device, DevicePath(deviceDir, path), CachedBytes(current, path), host[path].content, safe);
    if ok {
      FilesCachedStep(cache, current, host, hostFiles, done, path);
      next := WithFile(current, path, host[path].content);
    }
  }

  /** What the files pass keeps between paths. */
  ghost predicate FilesPass(cache: Tree, cache': Tree, host: Tree, hostFiles: set<Path>, done: set<Path>,
                            e0: map<string, Entry>, e: map<string, Entry>, deviceDir: string,
                            actions: seq<Action>, safe: bool, matcher: Matcher)
  {
    && FilesCached(cache, cache', host, hostFiles, done)
    && UpdatesUse(actions, safe)
    && Agree(e0, e, deviceDir, FilesAmong(host, done))
    && (PlainTree(host) ==> FilesSent(e0, e, deviceDir, host, cache, done, safe, matcher))
  }

  /** The file about to be sent finds the device and the cache as they were before the pass. */
  lemma FilesPassBefore(cache: Tree, cache': Tree, host: Tree, hostFiles: set<Path>, done: set<Path>,
                        e0: map<string, Entry>, e: map<string, Entry>, deviceDir: string, path: Path)
    requires PlainTree(host) && HostFiles(host, hostFiles) && done <= hostFiles
    requires path in hostFiles && path !in done && host[path].File?
    requires FilesCached(cache, cache', host, hostFiles, done)
    requires Agree(e0, e, deviceDir, FilesAmong(host, done))
    ensures CachedBytes(cache', path) == CachedBytes(cache, path)
    ensures var dp := DevicePath(deviceDir, path);
            (dp in e <==> dp in e0) && (dp in e0 ==> e[dp] == e0[dp])
    ensures ParentPresent(e0, DevicePath(deviceDir, path)) ==> ParentPresent(e, DevicePath(deviceDir, path))
  {
    var files := FilesAmong(host, done);
    HostPathUntouched(deviceDir, host, hostFiles, files, path);
    DevicePathShape(deviceDir, path);
    if |path| == 1 {
      DeviceDirUntouched(deviceDir, files);
    } else {
      var up := Parent(path);
      assert up == path[..|path| - 1];
      HostPathUntouched(deviceDir, host, hostFiles, files, up);
    }
  }

  /** Sending one more file keeps the files sent before. */
  lemma FilesSentKept(e0: map<string, Entry>, e1: map<string, Entry>, e2: map<string, Entry>, deviceDir: string,
                      host: Tree, hostFiles: set<Path>, cache: Tree, done: set<Path>, path: Path, safe: bool,
                      matcher: Matcher)
    requires PlainTree(host) && HostFiles(host, hostFiles) && done <= hostFiles
    requires path in hostFiles && path !in done && host[path].File?
    requires FilesSent(e0, e1, deviceDir, host, cache, done, safe, matcher)
    requires OutsideSame(e1, e2, DevicePath(deviceDir, path))
    ensures FilesSent(e0, e2, deviceDir, host, cache, done, safe, matcher)
  {
    forall q | q in done && q in host && host[q].File?
      ensures FileSent(e0, e2, deviceDir, host, cache, q, safe, matcher)
    {
      assert FileSent(e0, e1, deviceDir, host, cache, q, safe, matcher);
      HostPathUntouched(deviceDir, host, hostFiles, {path}, q);
    }
  }

  lemma FilesPassStep(cache: Tree, c1: Tree, c2: Tree, host: Tree, hostFiles: set<Path>, done: set<Path>, path: Path,
                      e0: map<string, Entry>, e1: map<string, Entry>, e2: map<string, Entry>, deviceDir: string,
                      actions: seq<Action>, more: seq<Action>, safe: bool, matcher: Matcher)
    requires HostFiles(host, hostFiles) && done <= hostFiles && path in hostFiles && path !in done
    requires FilesPass(cache, c1, host, hostFiles, done, e0, e1, deviceDir, actions, safe, matcher)
    requires FilesCached(cache, c2, host, hostFiles, done + {path})
    requires UpdatesUse(more, safe)
    requires host[path].Dir? ==> e2 == e1
    requires OutsideSame(e1, e2, DevicePath(deviceDir, path))
    requires host[path].File? ==> var dp := DevicePath(deviceDir, path);
               dp in e2 && e2[dp] == SentEntry(e1, dp, CachedBytes(c1, path), host[path].content, safe, matcher)
    ensures FilesPass(cache, c2, host, hostFiles, done + {path}, e0, e2, deviceDir, actions + more, safe, matcher)
  {
    UpdatesUseAppend(actions, more, safe);
    var files := FilesAmong(host, done);
    if host[path].File? {
      assert FilesAmong(host, done + {path}) == files + {path};
      AgreeStep(e0, e1, e2, deviceDir, files, path);
      if PlainTree(host) {
        FilesPassBefore(cache, c1, host, hostFiles, done, e0, e1, deviceDir, path);
        FilesSentKept(e0, e1, e2, deviceDir, host, hostFiles, cache, done, path, safe, matcher);
      }
    } else {
      assert FilesAmong(host, done + {path}) == files;
    }
  }

  /**
   * The files pass over `to_update`: each host file is sent to the device
   * with the given safety setting and written into the cache. `ok` is false
   * when a write raised `OSError`, which ends the pass; `done` is what was
   * handled before. Outside the device paths of the files handled, the
   * device is unchanged; for plain host paths, each file handled is as
   * `SentEntry` describes, and when the directory holding every file's
   * device path exists the pass does not raise.
   */
  method UpdateFiles(device: Device, deviceDir: string, host: Tree, hostFiles: set<Path>, toUpdate: set<Path>,
                     cache: Tree, safe: bool)
    returns (ok: bool, cache': Tree, ghost done: set<Path>, ghost actions: seq<Action>)
    requires device.Valid()
    requires HostFiles(host, hostFiles) && toUpdate <= hostFiles
    modifies device
    ensures device.Valid()
    ensures done <= toUpdate && (ok ==> done == toUpdate)
    ensures FilesCached(cache, cache', host, hostFiles, done)
    ensures device.log == old(device.log) + actions && UpdatesUse(actions, safe)
    ensures Agree(old(device.entries), device.entries, deviceDir, FilesAmong(host, done))
    ensures PlainTree(host) ==> FilesSent(old(device.entries), device.entries, deviceDir, host, cache, done, safe, device.matcher)
    ensures PlainTree(host) && FilesReady(old(device.entries), deviceDir, host, toUpdate) ==> ok
  {
    cache' := cache;
    actions := [];
    done := {};
    ok := true;
    assert FilesAmong(host, done) == {};
    var todo := toUpdate;
    while todo != {}
      invariant todo <= toUpdate && done == toUpdate - todo && device.Valid()
      invariant FilesPass(cache, cache', host, hostFiles, done, old(device.entries), device.entries,
                          deviceDir, actions, safe, device.matcher)
      invariant device.log == old(device.log) + actions && ok
      decreases todo
    {
      var path :| path in todo;
      ghost var before := device.entries;
      ghost var current := cache';
      ghost var more: seq<Action>;
      var next;
      ghost var ready := PlainTree(host) && FilesReady(old(device.entries), deviceDir, host, toUpdate);
      if PlainTree(host) && host[path].File? {
        FilesPassBefore(cache, cache', host, hostFiles, done, old(device.entries), device.entries, deviceDir, path);
        DevicePathShape(deviceDir, path);
        assert ready ==> ParentPresent(before, DevicePath(deviceDir, path));
      }
      ok, next, more := UpdateFile(device, deviceDir, host, hostFiles, cache, cache', done, path, safe);
      AppendAssoc(old(device.log), actions, more);
      if !ok {
        UpdatesUseAppend(actions, more, safe);
        actions := actions + more;
        assert !ready;
        return;
      }
      cache' := next;
      FilesPassStep(cache, current, cache', host, hostFiles, done, path, old(device.entries), before, device.entries,
                    deviceDir, actions, more, safe, device.matcher);
      actions := actions + more;
      TakeOne(toUpdate, todo, path);
      todo := todo - {path};
      done := done + {path};
    }
  }

  /** Moving `x` from what is left to do to what is done. */
  lemma TakeOne<T>(all: set<T>, todo: set<T>, x: T)
    requires x in todo && todo <= all
    ensures all - (todo - {x}) == (all - todo) + {x}
  {
  }

  /**
   * The cache after the flush and both passes holds exactly the host paths
   * with their host entries, apart from the id file.
   */
  lemma CacheAfterPasses(host: Tree, hostFiles: set<Path>, cache: Tree, useAll: bool,
                         flushed: Tree, withDirs: Tree, withFiles: Tree)
    requires HostFiles(host, hostFiles)
    requires flushed == map q | q in cache && (q in hostFiles || q == ID_PATH) :: cache[q]
    requires withDirs == WithDirs(flushed, host, ToUpdate(hostFiles, host, cache, useAll))
    requires FilesCached(withDirs, withFiles, host, hostFiles, ToUpdate(hostFiles, host, cache, useAll))
    ensures withFiles - {ID_PATH} == HostCopy(host, hostFiles) - {ID_PATH}
    ensures ID_PATH in hostFiles ==> ID_PATH in withFiles && withFiles[ID_PATH] == host[ID_PATH]
  {
    ToUpdateCases(hostFiles, host, cache, useAll, ID_PATH);
    var left := withFiles - {ID_PATH};
    var right := HostCopy(host, hostFiles) - {ID_PATH};
    forall q
      ensures q in left <==> q in right
      ensures q in left ==> left[q] == right[q]
    {
      ToUpdateCases(hostFiles, host, cache, useAll, q);
    }
    assert left.Keys == right.Keys;
  }

  /** Outside the device paths of `paths`, `after` has kept the entries of `before`. */
  lemma AgreePreserved(before: map<string, Entry>, after: map<string, Entry>, deviceDir: string, paths: set<Path>)
    requires Agree(before, after, deviceDir, paths)
    ensures Preserved(before, after, deviceDir, paths)
  {
  }

  /**
   * What the plan needs of the device to mirror the host: the device
   * directory exists, and the host paths outside `to_update` are on the
   * device already.
   */
  predicate PlanReady(entries: map<string, Entry>, deviceDir: string, host: Tree, hostFiles: set<Path>, toUpdate: set<Path>)
  {
    DirReady(entries, deviceDir) && forall q :: q in hostFiles - toUpdate ==> Mirrored(entries, deviceDir, host, q)
  }

  /**
   * The device after a run at the host path `q`: a directory is there, and
   * a file is as `SentEntry` describes from the device and cache the run
   * started with.
   */
  predicate Synced(e0: map<string, Entry>, e: map<string, Entry>, deviceDir: string, host: Tree, cache: Tree,
                   q: Path, safe: bool, matcher: Matcher)
    requires q in host
  {
    if host[q].File? then FileSent(e0, e, deviceDir, host, cache, q, safe, matcher) else Mirrored(e, deviceDir, host, q)
  }

  /** Once the host directories are on the device, so is the directory holding every host file. */
  lemma PlanFilesReady(e0: map<string, Entry>, e1: map<string, Entry>, deviceDir: string, host: Tree,
                       hostFiles: set<Path>, toUpdate: set<Path>)
    requires PlainTree(host) && HostFiles(host, hostFiles) && toUpdate <= hostFiles
    requires DirReady(e0, deviceDir) && DirsKept(e0, e1, deviceDir, host, toUpdate)
    requires DirsMirrored(e1, deviceDir, host, hostFiles)
    ensures FilesReady(e1, deviceDir, host, toUpdate)
  {
    NoDirAtDeviceDir(deviceDir, host, toUpdate);
    forall p | p in toUpdate && p in host && host[p].File?
      ensures ParentPresent(e1, DevicePath(deviceDir, p))
    {
      DevicePathShape(deviceDir, p);
      if |p| > 1 {
        assert Parent(p) == p[..|p| - 1];
        assert Mirrored(e1, deviceDir, host, Parent(p));
      }
    }
  }

  /** After both passes each host path is synced, whether it was updated or already on the device. */
  lemma PlanSynced(e0: map<string, Entry>, e1: map<string, Entry>, e2: map<string, Entry>, deviceDir: string,
                   host: Tree, hostFiles: set<Path>, cache: Tree, withDirs: Tree, useAll: bool, toUpdate: set<Path>,
                   safe: bool, matcher: Matcher, q: Path)
    requires PlainTree(host) && HostFiles(host, hostFiles)
    requires toUpdate == ToUpdate(hostFiles, host, cache, useAll)
    requires withDirs == WithDirs(map p | p in cache && (p in hostFiles || p == ID_PATH) :: cache[p], host, toUpdate)
    requires PlanReady(e0, deviceDir, host, hostFiles, toUpdate)
    requires DirsKept(e0, e1, deviceDir, host, toUpdate) && DirsMirrored(e1, deviceDir, host, hostFiles)
    requires Agree(e1, e2, deviceDir, FilesAmong(host, toUpdate))
    requires FilesSent(e1, e2, deviceDir, host, withDirs, toUpdate, safe, matcher)
    requires q in hostFiles
    ensures Synced(e0, e2, deviceDir, host, cache, q, safe, matcher)
  {
    var dp := DevicePath(deviceDir, q);
    if host[q].Dir? {
      HostPathUntouched(deviceDir, host, hostFiles, FilesAmong(host, toUpdate), q);
    } else {
      NoDirAtOther(deviceDir, host, toUpdate, q);
      HostPathUntouched(deviceDir, host, hostFiles, FilesAmong(host, toUpdate) - {q}, q);
      if q in toUpdate {
        assert FileSent(e1, e2, deviceDir, host, withDirs, q, safe, matcher);
        assert CachedBytes(withDirs, q) == CachedBytes(cache, q);
      } else {
        ToUpdateCases(hostFiles, host, cache, useAll, q);
        assert Mirrored(e0, deviceDir, host, q);
        assert Untouched(dp, deviceDir, FilesAmong(host, toUpdate));
      }
    }
  }

  /**
   * The flush and the two passes of `sync_to_device` over the cache of the
   * device. `ok` is false when a write raised `OSError`. Every file update
   * uses `safe`; the device entries outside the paths of `to_update` are
   * left alone; the cache's id file is kept unless a host path is the id
   * file, and when no write raised the cache holds exactly the host paths
   * with their host entries besides. For plain host paths, when the device
   * directory exists and the host paths outside `to_update` are on the
   * device already, no write raises and every host path is synced.
   */
  method ApplyPlan(device: Device, deviceDir: string, host: Tree, hostFiles: set<Path>, cache: Tree,
                   ghost useAll: bool, toUpdate: set<Path>, safe: bool)
    returns (ok: bool, cache': Tree, ghost actions: seq<Action>)
    requires device.Valid()
    requires HostFiles(host, hostFiles) && [] !in cache
    requires toUpdate == ToUpdate(hostFiles, host, cache, useAll)
    modifies device
    ensures device.Valid()
    ensures ok ==> cache' - {ID_PATH} == HostCopy(host, hostFiles) - {ID_PATH}
    ensures ok && ID_PATH in hostFiles ==> ID_PATH in cache' && cache'[ID_PATH] == host[ID_PATH]
    ensures ID_PATH !in hostFiles ==>
              (ID_PATH in cache' <==> ID_PATH in cache) && (ID_PATH in cache ==> cache'[ID_PATH] == cache[ID_PATH])
    ensures device.log == old(device.log) + actions && UpdatesUse(actions, safe)
    ensures Preserved(old(device.entries), device.entries, deviceDir, toUpdate)
    ensures PlainTree(host) && PlanReady(old(device.entries), deviceDir, host, hostFiles, toUpdate) ==>
              ok && forall q :: q in hostFiles ==> Synced(old(device.entries), device.entries, deviceDir, host, cache, q,
                                                          safe, device.matcher)
  {
    assert AncestorClosed(hostFiles);
    ghost var e0 := device.entries;
    var flushed := FlushCache(cache, hostFiles);
    var withDirs, dirActions := UpdateDirectories(device, deviceDir, host, hostFiles, toUpdate, flushed);
    ghost var e1 := device.entries;
    ghost var fileActions: seq<Action>;
    ghost var done: set<Path>;
    ok, cache', done, fileActions := UpdateFiles(device, deviceDir, host, hostFiles, toUpdate, withDirs, safe);
    if ok {
      CacheAfterPasses(host, hostFiles, cache, useAll, flushed, withDirs, cache');
    }
    NoUpdatesUse(dirActions, safe);
    UpdatesUseAppend(dirActions, fileActions, safe);
    actions := dirActions + fileActions;
    AgreePreserved(e1, device.entries, deviceDir, FilesAmong(host, done));
    PreservedFewer(e1, device.entries, deviceDir, FilesAmong(host, done), toUpdate);
    PreservedCompose(e0, e1, device.entries, deviceDir, toUpdate);
    if PlainTree(host) && PlanReady(e0, deviceDir, host, hostFiles, toUpdate) {
      assert DirsReady(e0, deviceDir, host, hostFiles, toUpdate);
      PlanFilesReady(e0, e1, deviceDir, host, hostFiles, toUpdate);
      forall q | q in hostFiles
        ensures Synced(e0, device.entries, deviceDir, host, cache, q, safe, device.matcher)
      {
        PlanSynced(e0, e1, device.entries, deviceDir, host, hostFiles, cache, withDirs, useAll, toUpdate, safe,
                   device.matcher, q);
      }
    }
  }

  // =====================================================================
  // sync_to_device

  /** The exclusions of a run: the caller's, and the cache directory at the root. */
  function WithCacheExcluded(tree: Tree, excluded: set<Path>): set<Path>
  {
    var cacheDir := [UPYT_CACHE_DIRNAME];
    if cacheDir in tree && tree[cacheDir].Dir? then excluded + {cacheDir} else excluded
  }

  /** The id file content after the bump: the next version of the device. */
  function BumpedId(id: (int, string)): (r: Bytes)
    requires IsAscii(id.1) && ' ' !in id.1
    ensures DecodeUpytId(r) == Ok((id.0 + 1, id.1))
  {
    UpytIdRoundTrip(id.0 + 1, id.1);
    EncodeUpytId(id.0 + 1, id.1).value
  }

  /** A cache that agrees with the host on every host path leaves nothing to update. */
  lemma UpToDateCache(host: Tree, hostFiles: set<Path>, cache: Tree)
    requires forall q :: q in hostFiles ==> q in host
    requires forall q :: q in hostFiles ==> q in cache && cache[q] == host[q]
    ensures ToUpdate(hostFiles, host, cache, false) == {}
  {
    forall p | p in hostFiles
      ensures p !in ToUpdate(hostFiles, host, cache, false)
    {
      ToUpdateCases(hostFiles, host, cache, false, p);
    }
  }

  /** The version of a cache whose id file holds `content`. */
  lemma CacheVersionOf(cache: Tree, content: Bytes)
    requires ID_PATH in cache && cache[ID_PATH] == File(content)
    ensures CacheVersion(cache) == if DecodeUpytId(content).Ok? then Some(DecodeUpytId(content).value.0) else None
  {
  }

  /**
   * A second run against the unchanged host, reading back the id file the
   * first run left on the device and in the cache, finds the cache up to
   * date and sends nothing.
   */
  lemma SecondRunUpdatesNothing(host: Tree, hostFiles: set<Path>, idFile: Bytes, id: (int, string))
    requires DecodeUpytId(idFile) == Ok(id)
    requires forall q :: q in hostFiles ==> q in host
    requires ID_PATH !in hostFiles
    ensures var cache := HostCopy(host, hostFiles)[ID_PATH := File(idFile)];
            && CacheVersion(cache) == Some(id.0)
            && ToUpdate(hostFiles, host, cache, false) == {}
  {
    var cache := HostCopy(host, hostFiles)[ID_PATH := File(idFile)];
    assert forall q :: q in hostFiles ==> q in cache && cache[q] == host[q];
    UpToDateCache(host, hostFiles, cache);
    CacheVersionOf(cache, idFile);
  }

  /**
   * The device log of a run: what `get_upyt_id` did (create the device
   * directory, write a new id file), then the bumped id file before
   * anything else; every file update after that uses the setting `safe`.
   */
  ghost predicate BumpedFirst(before: seq<Action>, after: seq<Action>, deviceDir: string, bumped: Bytes, safe: bool)
  {
    exists setup: seq<Action>, rest: seq<Action> ::
      && after == before + setup + [Action.WriteFile(IdPath(deviceDir), bumped)] + rest
      && IdSetup(setup, deviceDir)
      && UpdatesUse(rest, safe)
  }

  /** What `get_upyt_id` may do before the run proper: make the directory and write the id file. */
  ghost predicate IdSetup(setup: seq<Action>, deviceDir: string)
  {
    forall i :: 0 <= i < |setup| ==> setup[i] == MakeDir(deviceDir) || (setup[i].WriteFile? && setup[i].path == IdPath(deviceDir))
  }

  /** `get_upyt_id` either logs nothing or creates the directory and writes a fresh id file. */
  lemma IdSetupOf(before: seq<Action>, after: seq<Action>, deviceDir: string, content: Bytes)
    returns (setup: seq<Action>)
    requires after == before || after == before + [MakeDir(deviceDir), Action.WriteFile(IdPath(deviceDir), content)]
    ensures IdSetup(setup, deviceDir) && after == before + setup
  {
    if after == before {
      setup := [];
      assert after == before + setup;
    } else {
      setup := [MakeDir(deviceDir), Action.WriteFile(IdPath(deviceDir), content)];
    }
  }

  /** The log of a run has the bumped id file right after `get_upyt_id`'s actions. */
  lemma SyncLog(before: seq<Action>, setup: seq<Action>, after: seq<Action>, deviceDir: string,
                bumped: Bytes, rest: seq<Action>, safe: bool)
    requires IdSetup(setup, deviceDir)
    requires after == before + setup + [Action.WriteFile(IdPath(deviceDir), bumped)] + rest
    requires UpdatesUse(rest, safe)
    ensures BumpedFirst(before, after, deviceDir, bumped, safe)
  {
  }

  /**
   * Over a run, a device entry other than the id file changes only beneath
   * an updated path; the id file keeps the bumped version unless a host
   * path is itself the id file.
   */
  lemma SyncFrame(e0: map<string, Entry>, e1: map<string, Entry>, e2: map<string, Entry>,
                  deviceDir: string, hostFiles: set<Path>, toUpdate: set<Path>, bumped: Bytes)
    requires forall s :: s in e0 && s != IdPath(deviceDir) ==> s in e1 && e1[s] == e0[s]
    requires IdPath(deviceDir) in e1 && e1[IdPath(deviceDir)] == File(bumped)
    requires Preserved(e1, e2, deviceDir, toUpdate)
    requires toUpdate <= hostFiles
    ensures forall s :: s in e0 && s != IdPath(deviceDir) && Untouched(s, deviceDir, toUpdate) ==> s in e2 && e2[s] == e0[s]
    ensures ID_PATH !in hostFiles ==> IdPath(deviceDir) in e2 && e2[IdPath(deviceDir)] == File(bumped)
  {
    if ID_PATH !in hostFiles {
      forall p | p in toUpdate
        ensures !Within(IdPath(deviceDir), DevicePath(deviceDir, p))
      {
        IdFileApart(deviceDir, p);
      }
      assert Untouched(IdPath(deviceDir), deviceDir, toUpdate);
    }
  }

  /** Writing the id file into two trees that agree elsewhere makes them equal. */
  lemma SameBesideId(a: Tree, b: Tree, idFile: Bytes)
    requires a - {ID_PATH} == b - {ID_PATH}
    ensures a[ID_PATH := File(idFile)] == b[ID_PATH := File(idFile)]
  {
    var left := a[ID_PATH := File(idFile)];
    var right := b[ID_PATH := File(idFile)];
    forall q | q != ID_PATH
      ensures (q in left <==> q in right) && (q in left ==> left[q] == right[q])
    {
      assert q in a <==> q in a - {ID_PATH};
      assert q in b <==> q in b - {ID_PATH};
    }
    assert left.Keys == right.Keys;
  }

  /**
   * `get_upyt_id` and the bumped id file change the device only at the id
   * file and by adding directories, so the device directory exists and the
   * host paths that were on the device are on it still.
   */
  lemma PlanReadyAfterSetup(e0: map<string, Entry>, eb: map<string, Entry>, deviceDir: string, host: Tree,
                            hostFiles: set<Path>, toUpdate: set<Path>)
    requires forall s :: s in e0 && s != IdPath(deviceDir) ==> s in eb && eb[s] == e0[s]
    requires WellFormed(eb) && IdPath(deviceDir) in eb
    requires ID_PATH !in hostFiles
    requires forall q :: q in hostFiles - toUpdate ==> Mirrored(e0, deviceDir, host, q)
    ensures PlanReady(eb, deviceDir, host, hostFiles, toUpdate)
  {
    IdPathDir(deviceDir);
    forall q | q in hostFiles - toUpdate
      ensures Mirrored(eb, deviceDir, host, q)
    {
      IdFileApart(deviceDir, q);
    }
  }

  /**
   * A host path other than the id file is synced from the device as it was
   * before `get_upyt_id` once it is synced from the device after it: the
   * only entries that differ there are the id file and new directories,
   * and `SentEntry` looks at files only.
   */
  lemma SyncedAfterSetup(e0: map<string, Entry>, eb: map<string, Entry>, e: map<string, Entry>, deviceDir: string,
                         host: Tree, cache: Tree, q: Path, safe: bool, matcher: Matcher)
    requires forall s :: s in e0 && s != IdPath(deviceDir) ==> s in eb && eb[s] == e0[s]
    requires forall s :: s in eb && s !in e0 && s != IdPath(deviceDir) ==> eb[s] == Dir
    requires q in host && q != ID_PATH
    requires Synced(eb, e, deviceDir, host, cache, q, safe, matcher)
    ensures Synced(e0, e, deviceDir, host, cache, q, safe, matcher)
  {
    IdFileApart(deviceDir, q);
    var dp := DevicePath(deviceDir, q);
    if host[q].File? {
      assert (dp in eb && eb[dp].File?) <==> (dp in e0 && e0[dp].File?);
    }
  }

  /**
   * Whether a directory stands at the cache's id file once the passes are
   * through: a host directory of that name, or, when the host has no such
   * path, one the cache held already (the flush keeps the id path). The
   * final write of the id file then raises `IsADirectoryError`.
   */
  predicate IdBlocked(host: Tree, hostFiles: set<Path>, cache: Tree)
  {
    if ID_PATH in hostFiles then ID_PATH in host && host[ID_PATH].Dir? else ID_PATH in cache && cache[ID_PATH].Dir?
  }

  /**
   * The last step of a run: the bumped id is written into the cache
   * directory the passes left, unless a write raised already; a directory
   * standing at the id file makes that write raise.
   */
  function FinishCache(caches: map<string, Tree>, key: string, synced: Tree, ok: bool, bumped: Bytes): (bool, map<string, Tree>)
  {
    var raised := !ok || (ID_PATH in synced && synced[ID_PATH].Dir?);
    (raised, caches[key := if raised then synced else synced[ID_PATH := File(bumped)]])
  }

  /**
   * After the passes of `ApplyPlan`, the end of the run raises where
   * `IdBlocked` says or a pass raised; otherwise the cache is the host copy
   * with the bumped id, and when it raises, the other caches and the
   * recorded version are kept.
   */
  lemma FinishCacheAfterPasses(host: Tree, hostFiles: set<Path>, caches: map<string, Tree>, key: string, synced: Tree,
                               ok: bool, bumped: Bytes, raised: bool, caches': map<string, Tree>)
    requires HostFiles(host, hostFiles)
    requires ok ==> synced - {ID_PATH} == HostCopy(host, hostFiles) - {ID_PATH}
    requires ok && ID_PATH in hostFiles ==> ID_PATH in synced && synced[ID_PATH] == host[ID_PATH]
    requires ID_PATH !in hostFiles ==> (ID_PATH in synced <==> ID_PATH in CacheOf(caches, key))
                                       && (ID_PATH in CacheOf(caches, key) ==> synced[ID_PATH] == CacheOf(caches, key)[ID_PATH])
    requires (raised, caches') == FinishCache(caches, key, synced, ok, bumped)
    ensures !raised ==> caches' == caches[key := HostCopy(host, hostFiles)[ID_PATH := File(bumped)]]
    ensures IdBlocked(host, hostFiles, CacheOf(caches, key)) ==> raised
    ensures ok && !IdBlocked(host, hostFiles, CacheOf(caches, key)) ==> !raised
    ensures raised ==> caches'.Keys == caches.Keys + {key} && forall d :: d in caches && d != key ==> caches'[d] == caches[d]
    ensures raised && ID_PATH !in hostFiles ==> CacheVersion(caches'[key]) == CacheVersion(CacheOf(caches, key))
  {
    if !raised {
      SameBesideId(synced, HostCopy(host, hostFiles), bumped);
    }
  }

  /**
   * The passes of a run, on a device that holds the bumped id file, and
   * the cache written at the end: the bumped id goes into the cache only
   * when no write raised, and writing it raises where a directory stands
   * at the cache's id file. `e0` is the device before `get_upyt_id`, which
   * differs only at the id file and by new directories.
   */
  method RunPlan(device: Device, deviceDir: string, host: Tree, hostFiles: set<Path>, caches: map<string, Tree>,
                 key: string, useAll: bool, toUpdate: set<Path>, safe: bool, bumped: Bytes, ghost e0: map<string, Entry>)
    returns (raised: bool, caches': map<string, Tree>, ghost actions: seq<Action>)
    requires device.Valid()
    requires HostFiles(host, hostFiles) && [] !in CacheOf(caches, key)
    requires toUpdate == ToUpdate(hostFiles, host, CacheOf(caches, key), useAll)
    requires IdPath(deviceDir) in device.entries && device.entries[IdPath(deviceDir)] == File(bumped)
    requires forall s :: s in e0 && s != IdPath(deviceDir) ==> s in device.entries && device.entries[s] == e0[s]
    requires forall s :: s in device.entries && s !in e0 && s != IdPath(deviceDir) ==> device.entries[s] == Dir
    modifies device
    ensures device.Valid()
    ensures device.log == old(device.log) + actions && UpdatesUse(actions, safe)
    ensures !raised ==> caches' == caches[key := HostCopy(host, hostFiles)[ID_PATH := File(bumped)]]
    ensures IdBlocked(host, hostFiles, CacheOf(caches, key)) ==> raised
    ensures raised ==> caches'.Keys == caches.Keys + {key} && forall d :: d in caches && d != key ==> caches'[d] == caches[d]
    ensures raised && ID_PATH !in hostFiles ==> CacheVersion(caches'[key]) == CacheVersion(CacheOf(caches, key))
    ensures forall s :: s in e0 && s != IdPath(deviceDir) && Untouched(s, deviceDir, toUpdate) ==>
              s in device.entries && device.entries[s] == e0[s]
    ensures ID_PATH !in hostFiles ==> IdPath(deviceDir) in device.entries && device.entries[IdPath(deviceDir)] == File(bumped)
    ensures PlainTree(host) && ID_PATH !in hostFiles && (forall q :: q in hostFiles - toUpdate ==> Mirrored(e0, deviceDir, host, q)) ==>
              (!raised <==> !IdBlocked(host, hostFiles, CacheOf(caches, key))) && forall q :: q in hostFiles ==>
                           Synced(e0, device.entries, deviceDir, host, CacheOf(caches, key), q, safe, device.matcher)
  {
    var cache := CacheOf(caches, key);
    ghost var eb := device.entries;
    ghost var ready := PlainTree(host) && ID_PATH !in hostFiles
                       && (forall q :: q in hostFiles - toUpdate ==> Mirrored(e0, deviceDir, host, q));
    if ready {
      PlanReadyAfterSetup(e0, eb, deviceDir, host, hostFiles, toUpdate);
    }
    var ok, synced;
    ok, synced, actions := ApplyPlan(device, deviceDir, host, hostFiles, cache, useAll, toUpdate, safe);
    // The id file goes to the cache only at the end, and not past a directory.
    raised, caches' := FinishCache(caches, key, synced, ok, bumped).0, FinishCache(caches, key, synced, ok, bumped).1;
    FinishCacheAfterPasses(host, hostFiles, caches, key, synced, ok, bumped, raised, caches');
    SyncFrame(e0, eb, device.entries, deviceDir, hostFiles, toUpdate, bumped);
    if ready {
      forall q | q in hostFiles
        ensures Synced(e0, device.entries, deviceDir, host, cache, q, safe, device.matcher)
      {
        SyncedAfterSetup(e0, eb, device.entries, deviceDir, host, cache, q, safe, device.matcher);
      }
    }
  }

  /**
   * The bumped id file replaces the one `get_upyt_id` found or wrote, so
   * the write succeeds and changes nothing else.
   */
  method WriteBumpedId(device: Device, deviceDir: string, bumped: Bytes, ghost e0: map<string, Entry>)
    requires device.Valid()
    requires IdPath(deviceDir) in device.entries && device.entries[IdPath(deviceDir)].File?
    requires forall s :: s in e0 && s != IdPath(deviceDir) ==> s in device.entries && device.entries[s] == e0[s]
    requires forall s :: s in device.entries && s !in e0 && s != IdPath(deviceDir) ==> device.entries[s] == Dir
    modifies device
    ensures device.Valid()
    ensures device.log == old(device.log) + [Action.WriteFile(IdPath(deviceDir), bumped)]
    ensures device.entries == old(device.entries)[IdPath(deviceDir) := File(bumped)]
    ensures forall s :: s in e0 && s != IdPath(deviceDir) ==> s in device.entries && device.entries[s] == e0[s]
    ensures forall s :: s in device.entries && s !in e0 && s != IdPath(deviceDir) ==> device.entries[s] == Dir
  {
    IdPathDir(deviceDir);
    var _ := device.WriteFile(IdPath(deviceDir), bumped);
  }

  /**
   * `sync_to_device` once `get_upyt_id` has answered `(version, deviceId)`:
   * the bumped version is written to the device first, then the host is
   * enumerated, `to_update` chosen, and the cache and the device brought
   * up to date; the id file goes to the cache last. `raised` is the
   * `OSError` of a write in the passes, or of that last write where a
   * directory stands at the id file, and leaves the cache directory as far
   * as the passes got and without the new id file.
   */
  method SyncWithId(device: Device, deviceDir: string, tree: Tree, listing: map<Path, seq<Path>>, excluded: set<Path>,
                    caches: map<string, Tree>, id: (int, string), forceEnumerate: bool, forceSafe: bool,
                    ghost before: seq<Action>, ghost setup: seq<Action>, ghost e0: map<string, Entry>)
    returns (raised: bool, outOfDate: bool, hostFiles: set<Path>, toUpdate: set<Path>, caches': map<string, Tree>)
    requires device.Valid()
    requires IsAscii(id.1) && ' ' !in id.1
    requires HostValid(tree, listing)
    requires forall d :: d in caches ==> [] !in caches[d]
    requires IdSetup(setup, deviceDir)
    requires device.log == before + setup
    requires IdPath(deviceDir) in device.entries && device.entries[IdPath(deviceDir)].File?
    requires forall s :: s in e0 && s != IdPath(deviceDir) ==> s in device.entries && device.entries[s] == e0[s]
    requires forall s :: s in device.entries && s !in e0 && s != IdPath(deviceDir) ==> device.entries[s] == Dir
    modifies device
    ensures device.Valid()
    ensures outOfDate == (CacheVersion(CacheOf(caches, id.1)) != Some(id.0))
    ensures exists yielded :: Enumerated(tree, listing, WithCacheExcluded(tree, excluded), yielded) && hostFiles == set p | p in yielded
    ensures HostFiles(tree, hostFiles)
    ensures toUpdate == ToUpdate(hostFiles, tree, CacheOf(caches, id.1), outOfDate || forceEnumerate)
    ensures BumpedFirst(before, device.log, deviceDir, BumpedId(id), outOfDate || forceSafe)
    ensures !raised ==> caches' == caches[id.1 := HostCopy(tree, hostFiles)[ID_PATH := File(BumpedId(id))]]
    ensures IdBlocked(tree, hostFiles, CacheOf(caches, id.1)) ==> raised
    ensures raised ==> caches'.Keys == caches.Keys + {id.1} && forall d :: d in caches && d != id.1 ==> caches'[d] == caches[d]
    ensures raised && ID_PATH !in hostFiles ==> CacheVersion(caches'[id.1]) == CacheVersion(CacheOf(caches, id.1))
    ensures forall s :: s in e0 && s != IdPath(deviceDir) && Untouched(s, deviceDir, toUpdate) ==> s in device.entries && device.entries[s] == e0[s]
    ensures ID_PATH !in hostFiles ==> IdPath(deviceDir) in device.entries && device.entries[IdPath(deviceDir)] == File(BumpedId(id))
    ensures PlainTree(tree) && ID_PATH !in hostFiles && (forall q :: q in hostFiles - toUpdate ==> Mirrored(e0, deviceDir, tree, q)) ==>
              (!raised <==> !IdBlocked(tree, hostFiles, CacheOf(caches, id.1))) && forall q :: q in hostFiles ==>
                           Synced(e0, device.entries, deviceDir, tree, CacheOf(caches, id.1), q, outOfDate || forceSafe, device.matcher)
  {
    var cache := CacheOf(caches, id.1);
    outOfDate := CacheVersion(cache) != Some(id.0);

    // The new version goes to the device before anything else; the id file
    // is there already, so the write succeeds.
    var bumped := BumpedId(id);
    WriteBumpedId(device, deviceDir, bumped, e0);

    var yielded := EnumerateLocalFiles(tree, listing, WithCacheExcluded(tree, excluded));
    hostFiles := set p | p in yielded;
    EnumeratedHostFiles(tree, listing, WithCacheExcluded(tree, excluded), yielded);
    toUpdate := ToUpdate(hostFiles, tree, cache, outOfDate || forceEnumerate);

    ghost var rest;
    raised, caches', rest := RunPlan(device, deviceDir, tree, hostFiles, caches, id.1, outOfDate || forceEnumerate, toUpdate,
                                     outOfDate || forceSafe, bumped, e0);
    SyncLog(before, setup, device.log, deviceDir, bumped, rest, outOfDate || forceSafe);
  }

  /**
   * `sync_to_device`. `tree` and `listing` are the host directory,
   * `excluded` the paths the caller's exclusion patterns glob to, and
   * `caches` the cache directories under `.upyt_cache`. `raised` is an
   * `OSError` out of the run. When `get_upyt_id` cannot write the id file
   * (`id` is `None`) the device directory has been made and nothing else
   * is done. Otherwise the device's version is bumped by one and written
   * before anything else; the cache is out of date when its recorded
   * version is missing or differs; updates are safe when it is out of date
   * or `forceSafe` is set; only device entries beneath updated paths
   * change, besides the id file; and when nothing raised the cache holds
   * exactly the host paths with their entries and the bumped id, as does
   * the device's id file. Writing the id file into the cache raises where a
   * directory stands there. For plain host paths whose unchanged part is on
   * the device already, only that raises, and the device ends up holding
   * every host directory and every host file, the latter patched into other
   * bytes only by an unchecked update of a device file that differed from the cache.
   */
  method SyncToDevice(device: Device, deviceDir: string, tree: Tree, listing: map<Path, seq<Path>>, excluded: set<Path>,
                      caches: map<string, Tree>, forceEnumerate: bool, forceSafe: bool, random: nat)
    returns (id: Option<(int, string)>, raised: bool, outOfDate: bool, hostFiles: set<Path>, toUpdate: set<Path>,
             caches': map<string, Tree>)
    requires random < Pow16(12) && device.Valid()
    requires HostValid(tree, listing)
    requires forall d :: d in caches ==> [] !in caches[d]
    modifies device
    ensures device.Valid()
    ensures id.None? ==> raised && caches' == caches
                         && device.entries == MakeDirs(old(device.entries), MkdirTargets(deviceDir, true))
                         && device.log == old(device.log) + [MakeDir(deviceDir), Action.WriteFile(IdPath(deviceDir), FreshIdFile(random))]
    ensures deviceDir in old(device.entries) && old(device.entries)[deviceDir].File? ==> id.None?
    ensures var file := IdPath(deviceDir);
            file in old(device.entries) && old(device.entries)[file].File? && DecodeUpytId(old(device.entries)[file].content).Ok?
            ==> id == Some(DecodeUpytId(old(device.entries)[file].content).value)
    ensures id.Some? ==> IsAscii(id.value.1) && ' ' !in id.value.1
    ensures id.Some? ==> outOfDate == (CacheVersion(CacheOf(caches, id.value.1)) != Some(id.value.0))
    ensures id.Some? ==> exists yielded :: Enumerated(tree, listing, WithCacheExcluded(tree, excluded), yielded) && hostFiles == set p | p in yielded
    ensures id.Some? ==> HostFiles(tree, hostFiles)
    ensures id.Some? ==> toUpdate == ToUpdate(hostFiles, tree, CacheOf(caches, id.value.1), outOfDate || forceEnumerate)
    ensures id.Some? ==> BumpedFirst(old(device.log), device.log, deviceDir, BumpedId(id.value), outOfDate || forceSafe)
    ensures id.Some? && !raised ==> caches' == caches[id.value.1 := HostCopy(tree, hostFiles)[ID_PATH := File(BumpedId(id.value))]]
    ensures id.Some? && IdBlocked(tree, hostFiles, CacheOf(caches, id.value.1)) ==> raised
    ensures id.Some? && raised ==>
              caches'.Keys == caches.Keys + {id.value.1} && forall d :: d in caches && d != id.value.1 ==> caches'[d] == caches[d]
    ensures id.Some? && raised && ID_PATH !in hostFiles ==>
              CacheVersion(caches'[id.value.1]) == CacheVersion(CacheOf(caches, id.value.1))
    ensures id.Some? ==> forall s :: s in old(device.entries) && s != IdPath(deviceDir) && Untouched(s, deviceDir, toUpdate) ==>
                           s in device.entries && device.entries[s] == old(device.entries)[s]
    ensures id.Some? && ID_PATH !in hostFiles ==>
              IdPath(deviceDir) in device.entries && device.entries[IdPath(deviceDir)] == File(BumpedId(id.value))
    ensures id.Some? && PlainTree(tree) && ID_PATH !in hostFiles
            && (forall q :: q in hostFiles - toUpdate ==> Mirrored(old(device.entries), deviceDir, tree, q)) ==>
              (!raised <==> !IdBlocked(tree, hostFiles, CacheOf(caches, id.value.1))) && forall q :: q in hostFiles ==>
                           Synced(old(device.entries), device.entries, deviceDir, tree, CacheOf(caches, id.value.1), q,
                                  outOfDate || forceSafe, device.matcher)
  {
    id := GetUpytId(device, deviceDir, random);
    if id.None? {
      return id, true, false, {}, {}, caches;
    }
    ghost var setup := IdSetupOf(old(device.log), device.log, deviceDir, FreshIdFile(random));
    raised, outOfDate, hostFiles, toUpdate, caches' :=
      SyncWithId(device, deviceDir, tree, listing, excluded, caches, id.value, forceEnumerate, forceSafe,
                 old(device.log), setup, old(device.entries));
  }
}
