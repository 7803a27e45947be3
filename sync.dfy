/**
 * `upyt/sync.py`: the `.upyt_id.txt` codec, host-side enumeration with
 * exclusions, and the planning and cache bookkeeping of `sync_to_device`.
 *
 * The device filesystem is the `Device` class: a map from device path
 * strings to entries, plus a log of every change made to it. The host tree
 * and the host-side caches are values.
 */
module Sync {
  import opened Common
  import opened PyText
  import UpyFs

  const UPYT_ID_FILENAME: string := ".upyt_id.txt"
  const UPYT_CACHE_DIRNAME: string := ".upyt_cache"
  const SPACE: Byte := 32

  // =====================================================================
  // The .upyt_id.txt codec

  /** Why `decode_upyt_id` raised `ValueError`. */
  datatype IdError = NotAscii | FieldCount(count: nat) | InvalidVersion(text: string)

  /** The characters `FormatZeroPadded` writes are ASCII and never a space. */
  lemma FormattedChars(v: int, width: nat)
    ensures IsAscii(FormatZeroPadded(v, width)) && ' ' !in FormatZeroPadded(v, width)
  {
    var f := FormatZeroPadded(v, width);
    forall i | 0 <= i < |f|
      ensures f[i] as int < 128 && f[i] != ' '
    {
      assert IsDigit(f[i]) || f[i] == '-';
    }
  }

  /** The text `encode_upyt_id` encodes: the padded version, a space, the id. */
  function IdText(version: int, deviceId: string): string
  {
    FormatZeroPadded(version, 3) + " " + deviceId
  }

  /** Where the space and the id sit in the id text. */
  lemma IdTextLayout(version: int, deviceId: string)
    ensures var v := FormatZeroPadded(version, 3);
            var text := IdText(version, deviceId);
            && |text| == |v| + 1 + |deviceId|
            && text[|v|] == ' '
            && (forall i :: 0 <= i < |v| ==> text[i] == v[i])
            && (forall i :: 0 <= i < |deviceId| ==> text[|v| + 1 + i] == deviceId[i])
  {
  }

  /** The id text is ASCII exactly when the id is. */
  lemma IdTextAscii(version: int, deviceId: string)
    ensures IsAscii(IdText(version, deviceId)) <==> IsAscii(deviceId)
  {
    var v := FormatZeroPadded(version, 3);
    var text := IdText(version, deviceId);
    FormattedChars(version, 3);
    IdTextLayout(version, deviceId);
    if IsAscii(deviceId) {
      forall i | 0 <= i < |text|
        ensures text[i] as int < 128
      {
        if i > |v| {
          assert text[i] == deviceId[i - |v| - 1];
        }
      }
    } else {
      var i :| 0 <= i < |deviceId| && deviceId[i] as int >= 128;
      assert text[|v| + 1 + i] == deviceId[i];
    }
  }

  /**
   * `encode_upyt_id(version, device_id)`: the version zero-padded to at
   * least three digits, a space, then the id, as ASCII; `None` is the
   * `UnicodeEncodeError` of an id that is not ASCII.
   */
  function EncodeUpytId(version: int, deviceId: string): (r: Option<Bytes>)
    ensures r.Some? <==> IsAscii(deviceId)
    ensures r.Some? ==> var v := FormatZeroPadded(version, 3);
                        && |r.value| == |v| + 1 + |deviceId|
                        && r.value[|v|] == SPACE
                        && (version >= 0 ==> |v| >= 3 && forall i :: 0 <= i < |v| ==> IsDigit(v[i]))
                        && (forall i :: 0 <= i < |deviceId| ==> r.value[|v| + 1 + i] == deviceId[i] as int)
  {
    IdTextAscii(version, deviceId);
    IdTextLayout(version, deviceId);
    EncodeAscii(IdText(version, deviceId))
  }

  /** An ASCII id's file decodes back to its text. */
  lemma EncodedIdText(version: int, deviceId: string)
    requires IsAscii(deviceId)
    ensures EncodeUpytId(version, deviceId).Some?
    ensures DecodeAscii(EncodeUpytId(version, deviceId).value) == Some(IdText(version, deviceId))
  {
    IdTextAscii(version, deviceId);
    AsciiRoundTrip(IdText(version, deviceId));
  }

  /** `decode_upyt_id(content)`: ASCII text of exactly two space-separated fields, the first an integer. */
  function DecodeUpytId(content: Bytes): (r: Result<(int, string), IdError>)
    ensures r.Ok? ==> IsAscii(r.value.1) && ' ' !in r.value.1
  {
    match DecodeAscii(content)
    case None => Err(NotAscii)
    case Some(text) =>
      var fields := Split(text, ' ');
      if |fields| != 2 then Err(FieldCount(|fields|))
      else
        JoinSplit(text, ' ');
        assert IsAscii(fields[1]) by {
          assert text == fields[0] + [' '] + fields[1];
          forall i | 0 <= i < |fields[1]|
            ensures fields[1][i] as int < 128
          {
            assert fields[1][i] == text[|fields[0]| + 1 + i];
          }
        }
        match ParseInt(fields[0])
        case None => Err(InvalidVersion(fields[0]))
        case Some(v) => Ok((v, fields[1]))
  }

  /** Every encoded pair decodes back, for any version and any ASCII id without spaces. */
  lemma UpytIdRoundTrip(version: int, deviceId: string)
    requires IsAscii(deviceId) && ' ' !in deviceId
    ensures EncodeUpytId(version, deviceId).Some?
    ensures DecodeUpytId(EncodeUpytId(version, deviceId).value) == Ok((version, deviceId))
  {
    var v := FormatZeroPadded(version, 3);
    FormattedChars(version, 3);
    EncodedIdText(version, deviceId);
    SplitOnce(v, deviceId, ' ');
    ParseFormatted(version, 3);
  }

  /** An id holding a space does not survive the round trip: its file is rejected. */
  lemma UpytIdWithSpace(version: int, deviceId: string)
    requires IsAscii(deviceId) && ' ' in deviceId
    ensures EncodeUpytId(version, deviceId).Some?
    ensures DecodeUpytId(EncodeUpytId(version, deviceId).value).Err?
  {
    var v := FormatZeroPadded(version, 3);
    var text := IdText(version, deviceId);
    EncodedIdText(version, deviceId);
    CountOfAppend(v + " ", deviceId, ' ');
    CountOfAppend(v, " ", ' ');
    CountOfMember(deviceId, ' ');
    assert CountOf(" ", ' ') == 1 by {
      assert " "[..0] == [];
    }
    assert |Split(text, ' ')| >= 3;
    assert DecodeUpytId(EncodeUpytId(version, deviceId).value) == Err(FieldCount(|Split(text, ' ')|));
  }

  /**
   * A decoded file is exactly a version text without spaces that reads as
   * the version, one space, and the id.
   */
  lemma DecodedLayout(content: Bytes)
    requires DecodeUpytId(content).Ok?
    ensures var r := DecodeUpytId(content).value;
            exists version ::
              && ' ' !in version && ParseInt(version) == Some(r.0)
              && DecodeAscii(content) == Some(version + " " + r.1)
  {
    var text := DecodeAscii(content).value;
    var fields := Split(text, ' ');
    JoinSplit(text, ' ');
    assert text == fields[0] + " " + fields[1];
  }

  /** `f"{randrange(1 << 48):012X}"`: a fresh device id from the random value `random`. */
  function NewDeviceId(random: nat): (r: string)
    requires random < Pow16(12)
    ensures |r| == 12 && IsAscii(r) && ' ' !in r
    ensures forall i :: 0 <= i < |r| ==> IsDigit(r[i]) || 'A' <= r[i] <= 'F'
  {
    HexUpperLength(random, 12);
    var r := PadLeft(HexUpper(random), 12, '0');
    assert forall i :: 0 <= i < |r| ==> IsDigit(r[i]) || 'A' <= r[i] <= 'F' by {
      forall i | 0 <= i < |r|
        ensures IsDigit(r[i]) || 'A' <= r[i] <= 'F'
      {
        var pad := 12 - |HexUpper(random)|;
        assert r == Repeat('0', pad) + HexUpper(random);
        if i >= pad {
          assert r[i] == HexUpper(random)[i - pad];
        }
      }
    }
    r
  }

  // =====================================================================
  // The device filesystem

  /** A file with its bytes, or a directory. */
  datatype Entry = File(content: Bytes) | Dir

  /** `get_type`'s answer. */
  datatype PathType = Absent | FileType | DirType

  /** A call that may change the device, in the order made, whether or not it raised. */
  datatype Action =
    | WriteFile(path: string, data: Bytes)
    | MakeDir(path: string)
    | RemoveTree(path: string)
    | UpdateFile(path: string, oldContent: Bytes, newContent: Bytes, safe: bool)

  /** `update_file`'s failures: the file could not be opened, or the safe check failed. */
  datatype UpdateFailure = Missing | UpdateError

  /** `path` is `dir` or lies beneath it. */
  predicate Within(path: string, dir: string)
  {
    path == dir || StartsWith(path, dir + "/")
  }

  /** A path of slashes only: the root; the empty path is the working directory, which is the root too. */
  predicate IsRoot(s: string)
  {
    forall i :: 0 <= i < |s| ==> s[i] == '/'
  }

  /** The directory holding `s`: the text before its last slash, empty when it has none. */
  function DirName(s: string): (r: string)
    ensures |r| <= |s| && r == s[..|r|]
    ensures '/' in s ==> |r| < |s| && s[|r|] == '/' && '/' !in s[|r| + 1..]
    ensures '/' !in s ==> r == []
  {
    if s == [] then []
    else if s[|s| - 1] == '/' then s[..|s| - 1]
    else
      var r := DirName(s[..|s| - 1]);
      assert '/' in s ==> '/' in s[..|s| - 1];
      assert '/' in s ==> s[|r| + 1..] == s[..|s| - 1][|r| + 1..] + [s[|s| - 1]];
      r
  }

  /** The directory holding a last component without slashes is the text before it. */
  lemma DirNameAfter(a: string, x: string)
    requires '/' !in x
    ensures DirName(a + "/" + x) == a
  {
    var s := a + "/" + x;
    assert s[|a|] == '/';
    assert s[..|a|] == a;
  }

  /** The directory holding `s` is the root or a directory among `entries`. */
  predicate ParentPresent(entries: map<string, Entry>, s: string)
  {
    IsRoot(DirName(s)) || (DirName(s) in entries && entries[DirName(s)].Dir?)
  }

  /** A filesystem: the root is not an entry, and the directory holding every entry exists. */
  predicate WellFormed(entries: map<string, Entry>)
  {
    forall s :: s in entries ==> !IsRoot(s) && ParentPresent(entries, s)
  }

  /** `os.mkdir(s)` succeeds: nothing stands at `s`, which is not the root, and the directory holding it exists. */
  predicate CanMake(entries: map<string, Entry>, s: string)
  {
    s !in entries && !IsRoot(s) && ParentPresent(entries, s)
  }

  /** `open(s, "wb")` succeeds: `s` is neither the root nor a directory, and the directory holding it exists. */
  predicate CanWrite(entries: map<string, Entry>, s: string)
  {
    !IsRoot(s) && ParentPresent(entries, s) && !(s in entries && entries[s].Dir?)
  }

  /** A directory made where `os.mkdir` succeeds leaves a filesystem. */
  lemma MakeOneWellFormed(entries: map<string, Entry>, s: string)
    requires WellFormed(entries) && CanMake(entries, s)
    ensures WellFormed(entries[s := Dir])
  {
    var after := entries[s := Dir];
    forall t | t in after
      ensures ParentPresent(after, t)
    {
      if t == s && '/' in s {
        assert DirName(s) != s;
      }
    }
  }

  /**
   * `os.mkdir` of each of `targets` in turn, each `OSError` ignored: the
   * entries there are kept, only directories are added, and a filesystem
   * stays one.
   */
  function MakeDirs(entries: map<string, Entry>, targets: seq<string>): (r: map<string, Entry>)
    ensures forall s :: s in entries ==> s in r && r[s] == entries[s]
    ensures forall s :: s in r && s !in entries ==> r[s] == Dir && s in targets
    ensures WellFormed(entries) ==> WellFormed(r)
  {
    if targets == [] then entries
    else
      var e := MakeDirs(entries, targets[..|targets| - 1]);
      var s := targets[|targets| - 1];
      if CanMake(e, s) then
        if WellFormed(entries) then MakeOneWellFormed(e, s); e[s := Dir] else e[s := Dir]
      else e
  }

  /** One more target is one more `os.mkdir` after the others. */
  lemma MakeDirsSnoc(entries: map<string, Entry>, targets: seq<string>, s: string)
    ensures var e := MakeDirs(entries, targets);
            MakeDirs(entries, targets + [s]) == if CanMake(e, s) then e[s := Dir] else e
  {
    assert (targets + [s])[..|targets|] == targets;
  }

  /** The helper's running `parent`: `"/" + parts[0] + "/" + parts[1] ...`. */
  function SlashPrefix(parts: seq<string>): string
  {
    if parts == [] then [] else SlashPrefix(parts[..|parts| - 1]) + "/" + parts[|parts| - 1]
  }

  /** With `parents`, what the board's `mkdir` helper makes before `path`: `parent` grown by each part of `path.split("/")[1:-1]`. */
  function ParentTargets(path: string, parents: bool): seq<string>
  {
    var pieces := Split(path, '/');
    var middle := if parents && |pieces| >= 2 then pieces[1..|pieces| - 1] else [];
    seq(|middle|, k requires 0 <= k < |middle| => SlashPrefix(middle[..k + 1]))
  }

  /** Everything `mkdir(path, parents, exist_ok)` passes to `os.mkdir`: the trailing slashes stripped, the parents, the path. */
  function MkdirTargets(path: string, parents: bool): seq<string>
  {
    ParentTargets(RStripSlashes(path), parents) + [RStripSlashes(path)]
  }

  /** `SequenceMatcher(None, old, new).get_opcodes()`, for any two contents. */
  type Matcher = (Bytes, Bytes) -> seq<UpyFs.Opcode>

  /** The opcodes the matcher gives for any two contents describe them. */
  ghost predicate MatcherValid(matcher: Matcher)
  {
    forall before, after :: UpyFs.ValidOpcodes(matcher(before, after), before, after)
  }

  /** The bytes `update_file` builds on a device file holding `current`, patching `before` into `after`. */
  function Patched(matcher: Matcher, current: Bytes, before: Bytes, after: Bytes): Bytes
  {
    UpyFs.PatchRun(matcher(before, after), current, before, after).out
  }

  /** Whether the safe check of that update passes on a device file holding `current`. */
  predicate SafeCheck(matcher: Matcher, current: Bytes, before: Bytes, after: Bytes)
  {
    UpyFs.ReadsAgree(matcher(before, after), current, before, after)
  }

  /**
   * The filesystem calls `sync.py` makes through `FilesystemAPI`, as
   * operations on a map from device paths to entries.
   */
  class Device {
    var entries: map<string, Entry>
    /** Every call that may change the device, in order, including those that raised. */
    var log: seq<Action>
    /** The opcodes `update_file` builds its patches from. */
    const matcher: Matcher

    /** The entries form a filesystem, and the matcher describes every pair of contents. */
    ghost predicate Valid()
      reads this
    {
      WellFormed(entries) && MatcherValid(matcher)
    }

    constructor (entries: map<string, Entry>, matcher: Matcher)
      requires WellFormed(entries) && MatcherValid(matcher)
      ensures Valid()
      ensures this.entries == entries && this.log == [] && this.matcher == matcher
    {
      this.entries := entries;
      this.log := [];
      this.matcher := matcher;
    }

    /** `read_file(path)`: the bytes of a file; `OSError` for anything else. */
    method ReadFile(path: string) returns (r: Option<Bytes>)
      ensures r.Some? <==> path in entries && entries[path].File?
      ensures r.Some? ==> r.value == entries[path].content
    {
      if path in entries && entries[path].File? {
        return Some(entries[path].content);
      }
      return None;
    }

    /** `get_type(path)`. */
    method GetType(path: string) returns (t: PathType)
      ensures t == Absent <==> path !in entries
      ensures t == FileType <==> path in entries && entries[path].File?
      ensures t == DirType <==> path in entries && entries[path].Dir?
    {
      if path !in entries {
        return Absent;
      }
      t := if entries[path].File? then FileType else DirType;
    }

    /**
     * `write_file(path, data)`: `open(path, "wb")` raises `OSError` on the
     * root, on a directory and where the directory holding `path` is
     * missing; otherwise the file holds `data`.
     */
    method WriteFile(path: string, data: Bytes) returns (ok: bool)
      requires Valid()
      modifies this
      ensures Valid()
      ensures ok <==> CanWrite(old(entries), path)
      ensures entries == if ok then old(entries)[path := File(data)] else old(entries)
      ensures log == old(log) + [Action.WriteFile(path, data)]
    {
      log := log + [Action.WriteFile(path, data)];
      ok := CanWrite(entries, path);
      if ok {
        WriteWellFormed(entries, path, data);
        entries := entries[path := File(data)];
      }
    }

    /**
     * `mkdir(path, parents, exist_ok)` through the board's helper: the
     * trailing slashes are stripped; with `parents`, each directory above
     * is tried first, its `OSError` ignored; then the path itself, whose
     * `OSError` is raised only without `exist_ok`.
     */
    method Mkdir(path: string, parents: bool, existOk: bool) returns (ok: bool)
      requires Valid()
      modifies this
      ensures Valid()
      ensures entries == MakeDirs(old(entries), MkdirTargets(path, parents))
      ensures var p := RStripSlashes(path);
              ok <==> existOk || CanMake(MakeDirs(old(entries), ParentTargets(p, parents)), p)
      ensures log == old(log) + [MakeDir(path)]
    {
      var p := RStripSlashes(path);
      var targets := ParentTargets(p, parents);
      for k := 0 to |targets|
        invariant entries == MakeDirs(old(entries), targets[..k])
        invariant log == old(log)
      {
        MakeDirsSnoc(old(entries), targets[..k], targets[k]);
        assert targets[..k] + [targets[k]] == targets[..k + 1];
        if CanMake(entries, targets[k]) {
          entries := entries[targets[k] := Dir];
        }
      }
      assert targets[..|targets|] == targets;
      MakeDirsSnoc(old(entries), targets, p);
      ok := existOk || CanMake(entries, p);
      if CanMake(entries, p) {
        entries := entries[p := Dir];
      }
      log := log + [MakeDir(path)];
    }

    /** `remove_recursive(path)`: the entry and everything beneath it go. */
    method RemoveRecursive(path: string)
      requires Valid()
      modifies this
      ensures Valid()
      ensures entries == map p | p in old(entries) && !Within(p, path) :: old(entries)[p]
      ensures log == old(log) + [RemoveTree(path)]
    {
      RemoveWellFormed(entries, path);
      entries := map p | p in entries && !Within(p, path) :: entries[p];
      log := log + [RemoveTree(path)];
    }

    /**
     * `update_file(path, old_content, new_content, safe)`: the patch from
     * `old_content` to `new_content` runs on the file. With `safe`, a file
     * whose bytes read by the patch differ from the old slices it reuses
     * fails the check and is left alone; otherwise the file holds what the
     * patch built, which is `new_content` when the file held `old_content`
     * or passed the check.
     */
    method UpdateFile(path: string, oldContent: Bytes, newContent: Bytes, safe: bool) returns (r: Result<(), UpdateFailure>)
      requires Valid()
      modifies this
      ensures Valid()
      ensures log == old(log) + [Action.UpdateFile(path, oldContent, newContent, safe)]
      ensures !(path in old(entries) && old(entries)[path].File?) ==> r == Err(Missing) && entries == old(entries)
      ensures path in old(entries) && old(entries)[path].File? ==>
                var current := old(entries)[path].content;
                if safe && !SafeCheck(matcher, current, oldContent, newContent)
                then r == Err(UpdateError) && entries == old(entries)
                else r.Ok? && entries == old(entries)[path := File(Patched(matcher, current, oldContent, newContent))]
      ensures path in old(entries) && old(entries)[path] == File(oldContent) ==>
                r.Ok? && entries == old(entries)[path := File(newContent)]
      ensures r.Ok? && safe ==> entries == old(entries)[path := File(newContent)]
    {
      log := log + [Action.UpdateFile(path, oldContent, newContent, safe)];
      if !(path in entries && entries[path].File?) {
        return Err(Missing);
      }
      var current := entries[path].content;
      var ops := matcher(oldContent, newContent);
      assert UpyFs.ValidOpcodes(ops, oldContent, newContent);
      if current == oldContent {
        UpyFs.PatchOwnFile(ops, oldContent, newContent);
      }
      if safe && !UpyFs.ReadsAgree(ops, current, oldContent, newContent) {
        return Err(UpdateError);
      }
      if safe {
        UpyFs.PatchChecked(ops, current, oldContent, newContent);
      }
      var next := UpyFs.PatchRun(ops, current, oldContent, newContent).out;
      WriteWellFormed(entries, path, next);
      entries := entries[path := File(next)];
      return Ok(());
    }
  }

  /** A file written where `open` succeeds leaves a filesystem. */
  lemma WriteWellFormed(entries: map<string, Entry>, path: string, data: Bytes)
    requires WellFormed(entries) && CanWrite(entries, path)
    ensures WellFormed(entries[path := File(data)])
  {
    var after := entries[path := File(data)];
    forall t | t in after
      ensures ParentPresent(after, t)
    {
      if t != path {
        assert ParentPresent(entries, t);
        assert DirName(t) != path || IsRoot(DirName(t));
      } else if '/' in path {
        assert DirName(path) != path;
      }
    }
  }

  /** Removing an entry with everything beneath it leaves a filesystem. */
  lemma RemoveWellFormed(entries: map<string, Entry>, path: string)
    requires WellFormed(entries)
    ensures WellFormed(map p | p in entries && !Within(p, path) :: entries[p])
  {
    var after := map p | p in entries && !Within(p, path) :: entries[p];
    forall t | t in after
      ensures ParentPresent(after, t)
    {
      RemoveKeepsParent(path, t);
    }
  }

  /** The directory holding a path outside `path` is outside `path` too. */
  lemma RemoveKeepsParent(path: string, t: string)
    requires !Within(t, path)
    ensures IsRoot(DirName(t)) || !Within(DirName(t), path)
  {
    var d := DirName(t);
    if '/' in t {
      assert t[..|d|] == d && t[|d|] == '/';
    }
  }

  /** A path that does not end in a slash: not the root, and unchanged by `rstrip("/")`. */
  predicate Stripped(s: string)
  {
    s != [] && s[|s| - 1] != '/'
  }

  lemma StrippedShape(s: string)
    requires Stripped(s)
    ensures !IsRoot(s) && RStripSlashes(s) == s
    ensures MkdirTargets(s, false) == [s]
  {
    assert ParentTargets(s, false) == [];
  }

  /** Nothing lies beneath a file. */
  lemma {:induction false} NothingBeneathFile(entries: map<string, Entry>, f: string, s: string)
    requires WellFormed(entries) && f in entries && entries[f].File?
    ensures !(s in entries && StartsWith(s, f + "/"))
    decreases |s|
  {
    if s in entries && StartsWith(s, f + "/") {
      var d := DirName(s);
      assert s[|f|] == '/';
      assert ParentPresent(entries, s);
      assert |d| >= |f| by {
        assert forall i :: |d| < i < |s| ==> s[i] != '/' by {
          forall i | |d| < i < |s|
            ensures s[i] != '/'
          {
            assert s[i] == s[|d| + 1..][i - |d| - 1];
          }
        }
      }
      assert s[..|d|] == d && s[..|f|] == f;
      assert |d| == |f| ==> d == f;
      if |d| > |f| {
        assert d[..|f| + 1] == s[..|f| + 1];
        var i :| 0 <= i < |f| && f[i] != '/';
        assert d[i] == f[i];
        NothingBeneathFile(entries, f, d);
      } else {
        assert false;
      }
    }
  }

  /** Removing a file removes that entry alone. */
  lemma RemoveFile(entries: map<string, Entry>, f: string)
    requires WellFormed(entries) && f in entries && entries[f].File?
    ensures (map p | p in entries && !Within(p, f) :: entries[p]) == entries - {f}
  {
    forall s | s in entries && s != f
      ensures !Within(s, f)
    {
      NothingBeneathFile(entries, f, s);
    }
  }

  /** The id file of a device directory. */
  function IdPath(deviceDir: string): string
  {
    deviceDir + "/" + UPYT_ID_FILENAME
  }

  /** The directory holding the id file is the device directory. */
  lemma IdPathDir(deviceDir: string)
    ensures DirName(IdPath(deviceDir)) == deviceDir && !IsRoot(IdPath(deviceDir))
  {
    DirNameAfter(deviceDir, UPYT_ID_FILENAME);
    assert IdPath(deviceDir)[|IdPath(deviceDir)| - 1] == 't';
  }

  /** The id file `get_upyt_id` writes for a new device: version 0 and the id drawn from `random`. */
  function FreshIdFile(random: nat): (r: Bytes)
    requires random < Pow16(12)
    ensures DecodeUpytId(r) == Ok((0, NewDeviceId(random)))
  {
    UpytIdRoundTrip(0, NewDeviceId(random));
    EncodeUpytId(0, NewDeviceId(random)).value
  }

  /** Two single appends are one append of a pair. */
  lemma SnocSnoc(log: seq<Action>, a: Action, b: Action)
    ensures log + [a] + [b] == log + [a, b]
  {
  }

  /**
   * A file standing at the device directory keeps the id file from being
   * written, whatever `mkdir` did before.
   */
  lemma FileBlocksIdFile(entries: map<string, Entry>, deviceDir: string)
    requires deviceDir in entries && entries[deviceDir].File?
    requires WellFormed(entries)
    ensures IdPath(deviceDir) !in entries
    ensures !CanWrite(MakeDirs(entries, MkdirTargets(deviceDir, true)), IdPath(deviceDir))
  {
    IdPathDir(deviceDir);
  }

  /**
   * The branch of `get_upyt_id` that makes a new id: the directory with
   * its parents, `OSError` ignored, then the id file, whose `OSError` is
   * the failure.
   */
  method CreateUpytId(device: Device, deviceDir: string, random: nat) returns (r: Option<(int, string)>)
    requires random < Pow16(12) && device.Valid()
    modifies device
    ensures device.Valid()
    ensures var made := MakeDirs(old(device.entries), MkdirTargets(deviceDir, true));
            var file := IdPath(deviceDir);
            && device.log == old(device.log) + [MakeDir(deviceDir), Action.WriteFile(file, FreshIdFile(random))]
            && (r.Some? <==> CanWrite(made, file))
            && device.entries == (if r.Some? then made[file := File(FreshIdFile(random))] else made)
            && (r.Some? ==> r.value == (0, NewDeviceId(random)))
    ensures forall s :: s in old(device.entries) && s != IdPath(deviceDir) ==>
              s in device.entries && device.entries[s] == old(device.entries)[s]
    ensures forall s :: s in device.entries && s !in old(device.entries) && s != IdPath(deviceDir) ==>
              device.entries[s] == Dir
  {
    var _ := device.Mkdir(deviceDir, true, true);
    ghost var made := device.entries;
    var idFile := FreshIdFile(random);
    var ok := device.WriteFile(IdPath(deviceDir), idFile);
    MadeThenWritten(old(device.entries), made, device.entries, IdPath(deviceDir), idFile, ok);
    SnocSnoc(old(device.log), MakeDir(deviceDir), Action.WriteFile(IdPath(deviceDir), idFile));
    r := if ok then Some((0, NewDeviceId(random))) else None;
  }

  /** Writing `file` over directories made on top of `e` keeps the rest of `e` and adds directories only. */
  lemma MadeThenWritten(e: map<string, Entry>, made: map<string, Entry>, written: map<string, Entry>, file: string,
                        data: Bytes, ok: bool)
    requires forall s :: s in e ==> s in made && made[s] == e[s]
    requires forall s :: s in made && s !in e ==> made[s] == Dir
    requires written == if ok then made[file := File(data)] else made
    ensures forall s :: s in e && s != file ==> s in written && written[s] == e[s]
    ensures forall s :: s in written && s !in e && s != file ==> written[s] == Dir
  {
  }

  /**
   * `get_upyt_id(fs, device_dir)`: the pair in the id file when it reads
   * and decodes; otherwise version 0 and a new id from `random`, written
   * to a new id file after making the directory. `None` is the `OSError`
   * of an id file that cannot be written, as when a file stands at the
   * device directory.
   */
  method GetUpytId(device: Device, deviceDir: string, random: nat) returns (r: Option<(int, string)>)
    requires random < Pow16(12) && device.Valid()
    modifies device
    ensures device.Valid()
    ensures var file := IdPath(deviceDir);
            if file in old(device.entries) && old(device.entries)[file].File?
               && DecodeUpytId(old(device.entries)[file].content).Ok?
            then r == Some(DecodeUpytId(old(device.entries)[file].content).value)
                 && device.entries == old(device.entries) && device.log == old(device.log)
            else var made := MakeDirs(old(device.entries), MkdirTargets(deviceDir, true));
                 && device.log == old(device.log) + [MakeDir(deviceDir), Action.WriteFile(file, FreshIdFile(random))]
                 && (r.Some? <==> CanWrite(made, file))
                 && device.entries == (if r.Some? then made[file := File(FreshIdFile(random))] else made)
                 && (r.Some? ==> r.value == (0, NewDeviceId(random)))
    ensures deviceDir in old(device.entries) && old(device.entries)[deviceDir].File? ==> r.None?
    ensures r.Some? ==> IsAscii(r.value.1) && ' ' !in r.value.1
    ensures forall s :: s in old(device.entries) && s != IdPath(deviceDir) ==>
              s in device.entries && device.entries[s] == old(device.entries)[s]
    ensures forall s :: s in device.entries && s !in old(device.entries) && s != IdPath(deviceDir) ==>
              device.entries[s] == Dir
    ensures r.Some? ==> var file := IdPath(deviceDir);
                        file in device.entries && device.entries[file].File?
                        && DecodeUpytId(device.entries[file].content) == Ok(r.value)
  {
    if deviceDir in device.entries && device.entries[deviceDir].File? {
      FileBlocksIdFile(device.entries, deviceDir);
    }
    var content := device.ReadFile(IdPath(deviceDir));
    if content.Some? {
      var decoded := DecodeUpytId(content.value);
      if decoded.Ok? {
        return Some(decoded.value);
      }
    }
    r := CreateUpytId(device, deviceDir, random);
  }

  // =====================================================================
  // enumerate_local_files

  /** `str.lstrip(c)`: `s` without its leading `c` characters. */
  function LStrip(s: string, c: char): (r: string)
    ensures |r| <= |s| && s == Repeat(c, |s| - |r|) + r
    ensures r == [] || r[0] != c
  {
    if s != [] && s[0] == c then
      var rest := LStrip(s[1..], c);
      assert Repeat(c, |s| - |rest|) == [c] + Repeat(c, |s[1..]| - |rest|);
      rest
    else
      assert Repeat(c, 0) == [];
      s
  }

  /**
   * The glob pattern an exclusion becomes: a rooted pattern is taken
   * relative to the root, with its leading slashes removed; any other
   * pattern may match at any depth.
   */
  function NormaliseExclusion(pattern: string): (r: string)
    ensures StartsWith(pattern, "/") ==> |r| < |pattern| && pattern == Repeat('/', |pattern| - |r|) + r && !StartsWith(r, "/")
    ensures !StartsWith(pattern, "/") ==> r == "**/" + pattern
  {
    if StartsWith(pattern, "/") then LStrip(pattern, '/') else "**/" + pattern
  }

  /** A host path relative to the synchronised directory, as its parts. */
  type Path = seq<string>

  /** A directory tree: each entry under its relative path; the root itself is not an entry. */
  type Tree = map<Path, Entry>

  function Parent(p: Path): Path
    requires p != []
  {
    p[..|p| - 1]
  }

  predicate Distinct<T(==)>(s: seq<T>)
  {
    forall i, j :: 0 <= i < j < |s| ==> s[i] != s[j]
  }

  /**
   * A host tree as `iterdir` lists it: `listing[d]` holds each child of
   * the directory `d` exactly once (the root is `[]`), and every entry's
   * parent is a directory.
   */
  predicate HostValid(tree: Tree, listing: map<Path, seq<Path>>)
  {
    && [] !in tree
    && (forall p :: p in tree && |p| > 1 ==> Parent(p) in tree && tree[Parent(p)].Dir?)
    && [] in listing
    && (forall d :: d in tree && tree[d].Dir? ==> d in listing)
    && (forall d :: d in listing ==> Distinct(listing[d]))
    && (forall d, c :: d in listing && c in listing[d] ==> c in tree && c != [] && Parent(c) == d)
    && (forall d, p :: d in listing && p in tree && p != [] && Parent(p) == d ==> p in listing[d])
  }

  /** What `iterdir` gives for `d`. */
  function Children(listing: map<Path, seq<Path>>, d: Path): seq<Path>
  {
    if d in listing then listing[d] else []
  }

  /** The paths of `paths` that are not excluded, in order. */
  function Kept(paths: seq<Path>, excluded: set<Path>): seq<Path>
  {
    if paths == [] then []
    else
      var last := paths[|paths| - 1];
      Kept(paths[..|paths| - 1], excluded) + if last in excluded then [] else [last]
  }

  /** The directories among `paths`, in order. */
  function DirsAmong(paths: seq<Path>, tree: Tree): seq<Path>
  {
    if paths == [] then []
    else
      var last := paths[|paths| - 1];
      DirsAmong(paths[..|paths| - 1], tree) + if last in tree && tree[last].Dir? then [last] else []
  }

  lemma {:induction false} KeptMembers(paths: seq<Path>, excluded: set<Path>)
    ensures forall p :: p in Kept(paths, excluded) <==> p in paths && p !in excluded
    decreases |paths|
  {
    if paths != [] {
      KeptMembers(paths[..|paths| - 1], excluded);
      assert paths == paths[..|paths| - 1] + [paths[|paths| - 1]];
    }
  }

  lemma {:induction false} DirsAmongMembers(paths: seq<Path>, tree: Tree)
    ensures forall p :: p in DirsAmong(paths, tree) <==> p in paths && p in tree && tree[p].Dir?
    decreases |paths|
  {
    if paths != [] {
      DirsAmongMembers(paths[..|paths| - 1], tree);
      assert paths == paths[..|paths| - 1] + [paths[|paths| - 1]];
    }
  }

  /** What visiting the directories `visited` in turn yields: each one's kept children, in listing order. */
  function Yields(visited: seq<Path>, listing: map<Path, seq<Path>>, excluded: set<Path>): seq<Path>
  {
    if visited == [] then []
    else Yields(visited[..|visited| - 1], listing, excluded) + Kept(Children(listing, visited[|visited| - 1]), excluded)
  }

  lemma DirsAmongAppend(a: seq<Path>, b: seq<Path>, tree: Tree)
    ensures DirsAmong(a + b, tree) == DirsAmong(a, tree) + DirsAmong(b, tree)
    decreases |b|
  {
    if b == [] {
      assert a + b == a;
    } else {
      assert a + b == (a + b[..|b| - 1]) + [b[|b| - 1]];
      DirsAmongAppend(a, b[..|b| - 1], tree);
    }
  }

  lemma KeptSnoc(paths: seq<Path>, p: Path, excluded: set<Path>)
    ensures Kept(paths + [p], excluded) == Kept(paths, excluded) + if p in excluded then [] else [p]
  {
    assert (paths + [p])[..|paths|] == paths;
  }

  /** The directories among the kept paths grow by the next path when it is a kept directory. */
  lemma KeptDirsSnoc(paths: seq<Path>, p: Path, tree: Tree, excluded: set<Path>)
    ensures DirsAmong(Kept(paths + [p], excluded), tree)
         == DirsAmong(Kept(paths, excluded), tree) + if p !in excluded && p in tree && tree[p].Dir? then [p] else []
  {
    KeptSnoc(paths, p, excluded);
    if p in excluded {
      assert Kept(paths, excluded) + [] == Kept(paths, excluded);
      assert DirsAmong(Kept(paths, excluded), tree) + [] == DirsAmong(Kept(paths, excluded), tree);
    } else {
      assert (Kept(paths, excluded) + [p])[..|Kept(paths, excluded)|] == Kept(paths, excluded);
    }
  }

  /** `Kept` and the kept directories of a prefix one path longer. */
  lemma KeptPrefix(paths: seq<Path>, k: nat, tree: Tree, excluded: set<Path>)
    requires k < |paths|
    ensures var p := paths[k];
            && Kept(paths[..k + 1], excluded) == Kept(paths[..k], excluded) + (if p in excluded then [] else [p])
            && DirsAmong(Kept(paths[..k + 1], excluded), tree)
               == DirsAmong(Kept(paths[..k], excluded), tree) + (if p !in excluded && p in tree && tree[p].Dir? then [p] else [])
  {
    assert paths[..k + 1] == paths[..k] + [paths[k]];
    KeptSnoc(paths[..k], paths[k], excluded);
    KeptDirsSnoc(paths[..k], paths[k], tree, excluded);
  }

  lemma {:induction false} DistinctFilter(paths: seq<Path>, tree: Tree, excluded: set<Path>)
    requires Distinct(paths)
    ensures Distinct(DirsAmong(paths, tree)) && Distinct(Kept(paths, excluded))
    decreases |paths|
  {
    if paths != [] {
      var init := paths[..|paths| - 1];
      var last := paths[|paths| - 1];
      assert Distinct(init);
      DistinctFilter(init, tree, excluded);
      assert last !in init;
      KeptMembers(init, excluded);
      DirsAmongMembers(init, tree);
      DistinctAppend(Kept(init, excluded), if last in excluded then [] else [last]);
      DistinctAppend(DirsAmong(init, tree), if last in tree && tree[last].Dir? then [last] else []);
    }
  }

  /** The paths a visit to `d` yields are new: `d` had not been visited, and every yielded path's parent had. */
  lemma FreshChildren(yielded: seq<Path>, visited: seq<Path>, d: Path, children: seq<Path>)
    requires d !in visited
    requires forall p :: p in yielded ==> p != [] && Parent(p) in visited
    requires forall c :: c in children ==> c != [] && Parent(c) == d
    ensures forall c :: c in children ==> c !in yielded
  {
  }

  /**
   * One pass of the inner loop of `enumerate_local_files`: the children of
   * `directory` that are not excluded are yielded, and those that are
   * directories are queued.
   */
  method VisitDirectory(tree: Tree, listing: map<Path, seq<Path>>, excluded: set<Path>, directory: Path,
                        yielded: seq<Path>, toVisit: seq<Path>)
    returns (yielded': seq<Path>, toVisit': seq<Path>)
    ensures yielded' == yielded + Kept(Children(listing, directory), excluded)
    ensures toVisit' == toVisit + DirsAmong(Kept(Children(listing, directory), excluded), tree)
  {
    var children := Children(listing, directory);
    yielded', toVisit' := yielded, toVisit;
    for k := 0 to |children|
      invariant yielded' == yielded + Kept(children[..k], excluded)
      invariant toVisit' == toVisit + DirsAmong(Kept(children[..k], excluded), tree)
    {
      var path := children[k];
      KeptPrefix(children, k, tree, excluded);
      if path in excluded {
        continue;
      }
      if path in tree && tree[path].Dir? {
        toVisit' := toVisit' + [path];
      }
      yielded' := yielded' + [path];
    }
    assert children[..|children|] == children;
  }

  /** What `HostValid` says of the listing of one directory. */
  predicate ListingSound(tree: Tree, listing: map<Path, seq<Path>>, d: Path)
  {
    && Distinct(Children(listing, d))
    && forall c :: c in Children(listing, d) ==> c in tree && c != [] && Parent(c) == d
  }

  lemma HostListing(tree: Tree, listing: map<Path, seq<Path>>, d: Path)
    requires HostValid(tree, listing)
    ensures ListingSound(tree, listing, d)
  {
  }

  /**
   * The state of the traversal: the directories visited so far followed by
   * the queue are the root and the yielded directories, in yield order;
   * what has been yielded is what the visits yield.
   */
  predicate Traversal(tree: Tree, listing: map<Path, seq<Path>>, excluded: set<Path>,
                      visited: seq<Path>, toVisit: seq<Path>, yielded: seq<Path>)
  {
    && visited + toVisit == [[]] + DirsAmong(yielded, tree)
    && yielded == Yields(visited, listing, excluded)
    && Distinct(yielded)
    && forall p :: p in yielded ==> p in tree && p != [] && Parent(p) in visited
  }

  /** Visiting the head of the queue moves it to the visited directories and queues the kept directories. */
  lemma TraversalQueue(tree: Tree, visited: seq<Path>, toVisit: seq<Path>, yielded: seq<Path>, kept: seq<Path>)
    requires toVisit != []
    requires visited + toVisit == [[]] + DirsAmong(yielded, tree)
    ensures (visited + [toVisit[0]]) + (toVisit[1..] + DirsAmong(kept, tree)) == [[]] + DirsAmong(yielded + kept, tree)
  {
    DirsAmongAppend(yielded, kept, tree);
    calc {
      (visited + [toVisit[0]]) + (toVisit[1..] + DirsAmong(kept, tree));
      { assert [toVisit[0]] + toVisit[1..] == toVisit; }
      (visited + toVisit) + DirsAmong(kept, tree);
    }
  }

  /** Visiting the head of the queue yields its kept children after what was yielded. */
  lemma TraversalYields(listing: map<Path, seq<Path>>, excluded: set<Path>, visited: seq<Path>, d: Path, yielded: seq<Path>)
    requires yielded == Yields(visited, listing, excluded)
    ensures yielded + Kept(Children(listing, d), excluded) == Yields(visited + [d], listing, excluded)
  {
    assert (visited + [d])[..|visited|] == visited;
  }

  /** The children a visit yields were not yielded before, and are entries of the tree. */
  lemma TraversalFresh(tree: Tree, listing: map<Path, seq<Path>>, excluded: set<Path>,
                       visited: seq<Path>, toVisit: seq<Path>, yielded: seq<Path>)
    requires toVisit != [] && ListingSound(tree, listing, toVisit[0])
    requires Traversal(tree, listing, excluded, visited, toVisit, yielded)
    ensures var kept := Kept(Children(listing, toVisit[0]), excluded);
            && Distinct(yielded + kept)
            && forall p :: p in kept ==> p in tree && p != [] && Parent(p) == toVisit[0] && p !in yielded
  {
    var d := toVisit[0];
    var children := Children(listing, d);
    var kept := Kept(children, excluded);
    NotYetVisited(visited, toVisit, yielded, tree);
    KeptMembers(children, excluded);
    FreshChildren(yielded, visited, d, kept);
    DistinctFilter(children, tree, excluded);
    DistinctAppend(yielded, kept);
  }

  /** Every yielded path is an entry whose parent has been visited. */
  lemma TraversalParents(tree: Tree, visited: seq<Path>, d: Path, yielded: seq<Path>, kept: seq<Path>)
    requires forall p :: p in yielded ==> p in tree && p != [] && Parent(p) in visited
    requires forall p :: p in kept ==> p in tree && p != [] && Parent(p) == d
    ensures forall p :: p in yielded + kept ==> p in tree && p != [] && Parent(p) in visited + [d]
  {
  }

  /** Visiting the head of the queue keeps the traversal state, and yields only new paths. */
  lemma TraversalStep(tree: Tree, listing: map<Path, seq<Path>>, excluded: set<Path>,
                      visited: seq<Path>, toVisit: seq<Path>, yielded: seq<Path>)
    requires toVisit != [] && ListingSound(tree, listing, toVisit[0])
    requires Traversal(tree, listing, excluded, visited, toVisit, yielded)
    ensures var d := toVisit[0];
            var kept := Kept(Children(listing, d), excluded);
            && Traversal(tree, listing, excluded, visited + [d], toVisit[1..] + DirsAmong(kept, tree), yielded + kept)
            && forall p :: p in kept ==> p in tree && p !in yielded
  {
    var d := toVisit[0];
    var kept := Kept(Children(listing, d), excluded);
    TraversalQueue(tree, visited, toVisit, yielded, kept);
    TraversalYields(listing, excluded, visited, d, yielded);
    TraversalFresh(tree, listing, excluded, visited, toVisit, yielded);
    TraversalParents(tree, visited, d, yielded, kept);
  }

  /**
   * `enumerate_local_files(host_dir, exclude)` with `excluded` the paths the
   * normalised patterns glob to. The directories are visited first in,
   * first out: the root, then each yielded directory in the order it was
   * yielded; each visit yields that directory's entries that are not
   * excluded. No path is yielded twice.
   */
  method EnumerateLocalFiles(tree: Tree, listing: map<Path, seq<Path>>, excluded: set<Path>) returns (yielded: seq<Path>)
    requires HostValid(tree, listing)
    ensures Enumerated(tree, listing, excluded, yielded)
    ensures Distinct(yielded)
  {
    yielded := [];
    var toVisit: seq<Path> := [[]];
    ghost var visited: seq<Path> := [];
    while toVisit != []
      invariant Traversal(tree, listing, excluded, visited, toVisit, yielded)
      decreases Unyielded(tree, yielded), |toVisit|
    {
      var directory := toVisit[0];
      HostListing(tree, listing, directory);
      TraversalStep(tree, listing, excluded, visited, toVisit, yielded);
      UnyieldedShrinks(tree, yielded, Kept(Children(listing, directory), excluded));
      yielded, toVisit := VisitDirectory(tree, listing, excluded, directory, yielded, toVisit[1..]);
      visited := visited + [directory];
    }
    assert visited == [[]] + DirsAmong(yielded, tree);
  }

  /** The entries not yet yielded: the traversal's measure of progress. */
  ghost function Unyielded(tree: Tree, yielded: seq<Path>): set<Path>
  {
    tree.Keys - set p | p in yielded
  }

  lemma UnyieldedShrinks(tree: Tree, yielded: seq<Path>, kept: seq<Path>)
    requires forall p :: p in kept ==> p in tree && p !in yielded
    ensures Unyielded(tree, yielded + kept) <= Unyielded(tree, yielded)
    ensures kept != [] ==> Unyielded(tree, yielded + kept) < Unyielded(tree, yielded)
  {
    if kept != [] {
      assert kept[0] in Unyielded(tree, yielded);
      assert kept[0] !in Unyielded(tree, yielded + kept);
    }
  }

  /**
   * `yielded` is what a first-in, first-out traversal yields: the visits
   * to the root and then to each yielded directory, in yield order.
   */
  predicate Enumerated(tree: Tree, listing: map<Path, seq<Path>>, excluded: set<Path>, yielded: seq<Path>)
  {
    yielded == Yields([[]] + DirsAmong(yielded, tree), listing, excluded)
  }

  /** A path is yielded by a sequence of visits exactly when it is a kept child of one of them. */
  lemma {:induction false} YieldsMembers(visited: seq<Path>, listing: map<Path, seq<Path>>, excluded: set<Path>, p: Path)
    ensures p in Yields(visited, listing, excluded)
        <==> p !in excluded && exists d :: d in visited && p in Children(listing, d)
    decreases |visited|
  {
    if visited != [] {
      var init := visited[..|visited| - 1];
      var last := visited[|visited| - 1];
      YieldsMembers(init, listing, excluded, p);
      KeptMembers(Children(listing, last), excluded);
      assert visited == init + [last];
      if p in Yields(visited, listing, excluded) && p in Yields(init, listing, excluded) {
        var d :| d in init && p in Children(listing, d);
        assert d in visited;
      }
      if p !in excluded && exists d :: d in visited && p in Children(listing, d) {
        var d :| d in visited && p in Children(listing, d);
        if d != last {
          assert d in init;
        }
      }
    }
  }

  /** A path some visits yield is a kept entry, and a child of one of the visited directories. */
  lemma VisitedChild(tree: Tree, listing: map<Path, seq<Path>>, excluded: set<Path>, visits: seq<Path>, p: Path)
    requires HostValid(tree, listing)
    requires p in Yields(visits, listing, excluded)
    ensures p in tree && p != [] && p !in excluded && Parent(p) in visits
  {
    YieldsMembers(visits, listing, excluded, p);
    var d :| d in visits && p in Children(listing, d);
    HostListing(tree, listing, d);
  }

  /** A yielded path is a kept entry whose parent is the root or a yielded directory. */
  lemma YieldedChild(tree: Tree, listing: map<Path, seq<Path>>, excluded: set<Path>, yielded: seq<Path>, p: Path)
    requires HostValid(tree, listing)
    requires Enumerated(tree, listing, excluded, yielded)
    requires p in yielded
    ensures p in tree && p != [] && p !in excluded
    ensures Parent(p) == [] || (Parent(p) in yielded && Parent(p) in tree && tree[Parent(p)].Dir?)
  {
    ghost var visits := [[]] + DirsAmong(yielded, tree);
    VisitedChild(tree, listing, excluded, visits, p);
    if Parent(p) != [] {
      DirsAmongMembers(yielded, tree);
      assert Parent(p) in DirsAmong(yielded, tree);
    }
  }

  /**
   * No yielded path is excluded, and neither is any of its ancestors: each
   * proper ancestor is a directory that was itself yielded.
   */
  lemma {:induction false} EnumerationSound(tree: Tree, listing: map<Path, seq<Path>>, excluded: set<Path>,
                                            yielded: seq<Path>, p: Path)
    requires HostValid(tree, listing)
    requires Enumerated(tree, listing, excluded, yielded)
    requires p in yielded
    ensures p in tree && p != [] && p !in excluded
    ensures forall k :: 1 <= k < |p| ==> p[..k] in tree && tree[p[..k]].Dir? && p[..k] in yielded && p[..k] !in excluded
    decreases |p|
  {
    YieldedChild(tree, listing, excluded, yielded, p);
    var d := Parent(p);
    if d != [] {
      EnumerationSound(tree, listing, excluded, yielded, d);
      AncestorsOfChild(p, tree, yielded, excluded);
    }
  }

  /** The proper ancestors of a path are its parent and the parent's proper ancestors. */
  lemma AncestorsOfChild(p: Path, tree: Tree, yielded: seq<Path>, excluded: set<Path>)
    requires |p| > 1
    requires Parent(p) in tree && tree[Parent(p)].Dir? && Parent(p) in yielded && Parent(p) !in excluded
    requires var d := Parent(p);
             forall k :: 1 <= k < |d| ==> d[..k] in tree && tree[d[..k]].Dir? && d[..k] in yielded && d[..k] !in excluded
    ensures forall k :: 1 <= k < |p| ==> p[..k] in tree && tree[p[..k]].Dir? && p[..k] in yielded && p[..k] !in excluded
  {
    var d := Parent(p);
    forall k | 1 <= k < |p|
      ensures p[..k] in tree && tree[p[..k]].Dir? && p[..k] in yielded && p[..k] !in excluded
    {
      if k < |d| {
        assert p[..k] == d[..k];
      } else {
        assert p[..k] == d;
      }
    }
  }

  /**
   * Every entry none of whose ancestors, itself included, is excluded is
   * yielded: nothing reachable through non-excluded directories is missed.
   */
  lemma {:induction false} EnumerationComplete(tree: Tree, listing: map<Path, seq<Path>>, excluded: set<Path>,
                                               yielded: seq<Path>, p: Path)
    requires HostValid(tree, listing)
    requires Enumerated(tree, listing, excluded, yielded)
    requires p in tree
    requires forall k :: 1 <= k <= |p| ==> p[..k] !in excluded
    ensures p in yielded
    decreases |p|
  {
    var visits := [[]] + DirsAmong(yielded, tree);
    var d := Parent(p);
    if d != [] {
      forall k | 1 <= k <= |d|
        ensures d[..k] !in excluded
      {
        assert d[..k] == p[..k];
      }
      EnumerationComplete(tree, listing, excluded, yielded, d);
      DirsAmongMembers(yielded, tree);
    }
    assert d in visits;
    assert p[..|p|] == p;
    YieldsMembers(visits, listing, excluded, p);
  }

  /** The head of the queue has not been visited yet. */
  lemma NotYetVisited(visited: seq<Path>, toVisit: seq<Path>, yielded: seq<Path>, tree: Tree)
    requires toVisit != []
    requires visited + toVisit == [[]] + DirsAmong(yielded, tree)
    requires Distinct(yielded)
    requires forall p :: p in yielded ==> p != []
    ensures toVisit[0] !in visited
  {
    var all := [[]] + DirsAmong(yielded, tree);
    DistinctFilter(yielded, tree, {});
    DirsAmongMembers(yielded, tree);
    DistinctAppend([[]], DirsAmong(yielded, tree));
    assert all[|visited|] == toVisit[0];
    forall i | 0 <= i < |visited|
      ensures visited[i] != toVisit[0]
    {
      assert all[i] == visited[i];
    }
  }

  lemma DistinctAppend<T>(a: seq<T>, b: seq<T>)
    requires Distinct(a) && Distinct(b)
    requires forall x :: x in b ==> x !in a
    ensures Distinct(a + b)
  {
    forall i, j | 0 <= i < j < |a + b|
      ensures (a + b)[i] != (a + b)[j]
    {
      if i < |a| && j >= |a| {
        assert (a + b)[j] in b;
      }
    }
  }
}
