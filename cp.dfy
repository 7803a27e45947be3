/**
 * `upyt cp`: copying files and directories between the host and the
 * device. Source and destination names are strings, device names carrying
 * a leading `:`; the filesystem behind them (the hybrid host/device
 * filesystem) is a map from those names to files and directory listings.
 */
module Cp {
  import opened Common
  import opened PyText

  // =====================================================================
  // split_source

  /** `source.replace("\\", "/")`. */
  function ForwardSlashes(s: string): (r: string)
    ensures |r| == |s|
    ensures forall i :: 0 <= i < |s| ==> r[i] == if s[i] == '\\' then '/' else s[i]
  {
    if s == [] then []
    else ForwardSlashes(s[..|s| - 1]) + [if s[|s| - 1] == '\\' then '/' else s[|s| - 1]]
  }

  /** The `:` that marks a device path, if the source has one. */
  function DevicePrefix(source: string): string
  {
    if |source| > 0 && source[0] == ':' then ":" else ""
  }

  /**
   * The source with backslashes turned into slashes and the device prefix
   * removed, `.` for an empty path, trailing slashes stripped except from
   * the root `/`.
   */
  function Normalised(source: string): string
  {
    var s := ForwardSlashes(source)[|DevicePrefix(source)|..];
    var s := if s == "" then "." else s;
    if s != "/" then RStripSlashes(s) else s
  }

  /**
   * `split_source(source)`: the prefix with the directory part (up to and
   * including the last slash), and the last component.
   */
  function SplitSource(source: string): (string, string)
  {
    var (baseDir, slash, name) := RPartition(Normalised(source), "/");
    (DevicePrefix(source) + baseDir + slash, name)
  }

  /**
   * After `rpartition("/")` the last part holds no slash, and the first two
   * together are empty or end in the slash.
   */
  lemma RPartitionSlash(s: string)
    ensures var r := RPartition(s, "/");
            && '/' !in r.2
            && (r.0 + r.1 == [] || (r.0 + r.1)[|r.0 + r.1| - 1] == '/')
  {
    var r := RPartition(s, "/");
    match RFind(s, "/")
    case Some(i) =>
      forall j | 0 <= j < |r.2|
        ensures r.2[j] != '/'
      {
        assert r.2[j] == s[i + 1 + j];
        assert !OccursAt(s, "/", i + 1 + j);
      }
    case None =>
      forall j | 0 <= j < |s|
        ensures s[j] != '/'
      {
        assert !OccursAt(s, "/", j);
        assert s[j..j + 1] == [s[j]];
      }
  }

  /** Rejoining the parts of `rpartition("/")` after a prefix gives back the prefixed text. */
  lemma RPartitionJoin(p: string, n: string)
    requires '\\' !in p && '\\' !in n
    ensures var r := RPartition(n, "/");
            && (p + r.0 + r.1) + r.2 == p + n
            && '/' !in r.2
            && '\\' !in p + n
  {
    var r := RPartition(n, "/");
    RPartitionSlash(n);
    assert p + r.0 + r.1 + r.2 == p + (r.0 + r.1 + r.2);
    forall i | 0 <= i < |p + n|
      ensures (p + n)[i] != '\\'
    {
      if i >= |p| {
        assert (p + n)[i] == n[i - |p|];
      }
    }
  }

  /**
   * The two parts put back together are the device prefix and the
   * normalised source; the last component holds no slash; and no
   * backslash survives.
   */
  lemma SplitSourceParts(source: string)
    ensures var (first, name) := SplitSource(source);
            && first + name == DevicePrefix(source) + Normalised(source)
            && '/' !in name
            && '\\' !in first + name
  {
    var n := Normalised(source);
    var p := DevicePrefix(source);
    NormalisedPlain(source);
    assert '\\' !in p;
    RPartitionJoin(p, n);
    var r := RPartition(n, "/");
    assert SplitSource(source) == (p + r.0 + r.1, r.2);
  }

  /** The first part is empty, the bare `:`, or ends in a slash. */
  lemma SplitSourceFirst(source: string)
    ensures var first := SplitSource(source).0;
            first == "" || first == ":" || first[|first| - 1] == '/'
  {
    var r := RPartition(Normalised(source), "/");
    RPartitionSlash(Normalised(source));
    var t := r.0 + r.1;
    var first := SplitSource(source).0;
    assert first == DevicePrefix(source) + t;
    if t != [] {
      assert first[|first| - 1] == t[|t| - 1];
    }
  }

  /** No backslash survives normalisation. */
  lemma NormalisedPlain(source: string)
    ensures '\\' !in Normalised(source)
  {
    var fs := ForwardSlashes(source);
    var rest := fs[|DevicePrefix(source)|..];
    assert '\\' !in rest by {
      forall i | 0 <= i < |rest|
        ensures rest[i] != '\\'
      {
        assert rest[i] == fs[|DevicePrefix(source)| + i];
      }
    }
    var n := Normalised(source);
    if rest == "" {
      assert n == ".";
    } else if rest == "/" {
      assert n == "/";
    } else {
      assert n == RStripSlashes(rest);
      forall i | 0 <= i < |n|
        ensures n[i] != '\\'
      {
        assert n[i] == rest[i];
      }
    }
  }

  /** A leading `:` stays on the first part, and only a source that had one gets one. */
  lemma SplitSourcePrefix(source: string)
    ensures var first := SplitSource(source).0;
            (|source| > 0 && source[0] == ':') <==> (|first| > 0 && first[0] == ':')
  {
    var first := SplitSource(source).0;
    if !(|source| > 0 && source[0] == ':') && |first| > 0 {
      var r := RPartition(Normalised(source), "/");
      var n := Normalised(source);
      var fs := ForwardSlashes(source);
      assert first == r.0 + r.1;
      assert first + r.2 == n;
      assert first[0] == n[0];
      if fs == "/" {
        assert n[0] == '/';
      } else if fs != "" {
        assert n <= fs;
        assert n[0] == fs[0];
      }
    }
  }

  /**
   * The normalised source: `.` for an empty path, the root `/` as it is,
   * and otherwise the path with its trailing slashes, and only those, removed.
   */
  lemma NormalisedShape(source: string)
    ensures var rest := ForwardSlashes(source)[|DevicePrefix(source)|..];
            var n := Normalised(source);
            && (rest == "" ==> n == ".")
            && (rest == "/" ==> n == "/")
            && (rest != "" && rest != "/" ==>
                  && n <= rest
                  && (n == [] || n[|n| - 1] != '/')
                  && forall i :: |n| <= i < |rest| ==> rest[i] == '/')
  {
  }

  // =====================================================================
  // Sorting entries by name

  /** Python's ordering of strings: code point by code point, a prefix first. */
  predicate NameLe(a: string, b: string)
    decreases |a|
  {
    if a == [] then true
    else if b == [] then false
    else if a[0] != b[0] then a[0] < b[0]
    else NameLe(a[1..], b[1..])
  }

  lemma {:induction false} NameLeTotal(a: string, b: string)
    ensures NameLe(a, b) || NameLe(b, a)
    decreases |a|
  {
    if a != [] && b != [] && a[0] == b[0] {
      NameLeTotal(a[1..], b[1..]);
    }
  }

  lemma {:induction false} NameLeTrans(a: string, b: string, c: string)
    requires NameLe(a, b) && NameLe(b, c)
    ensures NameLe(a, c)
    decreases |a|
  {
    if a != [] && b != [] && c != [] && a[0] == b[0] && b[0] == c[0] {
      NameLeTrans(a[1..], b[1..], c[1..]);
    }
  }

  /** A name is ordered strictly before every longer name it begins. */
  lemma {:induction false} NamePrefixFirst(a: string, b: string)
    requires a < b
    ensures NameLe(a, b) && !NameLe(b, a)
    decreases |a|
  {
    if a != [] {
      assert a[1..] < b[1..];
      NamePrefixFirst(a[1..], b[1..]);
    }
  }

  /** An entry read from a source: its name and its bytes, `None` for a directory. */
  type Entry = (string, Option<Bytes>)

  predicate SortedByName(s: seq<Entry>)
  {
    forall i, j :: 0 <= i < j < |s| ==> NameLe(s[i].0, s[j].0)
  }

  /** Insert `x` into a sorted list after every entry whose name is at most its own. */
  function Insert(x: Entry, s: seq<Entry>): (r: seq<Entry>)
    requires SortedByName(s)
    ensures SortedByName(r)
    ensures multiset(r) == multiset(s) + multiset{x}
  {
    if s == [] then [x]
    else if NameLe(s[|s| - 1].0, x.0) then
      assert SortedByName(s + [x]) by {
        forall i | 0 <= i < |s|
          ensures NameLe(s[i].0, x.0)
        {
          if i < |s| - 1 {
            NameLeTrans(s[i].0, s[|s| - 1].0, x.0);
          }
        }
      }
      s + [x]
    else
      var init := s[..|s| - 1];
      assert s == init + [s[|s| - 1]];
      InsertBeforeLast(x, init, s[|s| - 1], Insert(x, init));
      Insert(x, init) + [s[|s| - 1]]
  }

  /** An entry named after `x` still closes the list once `x` is inserted before it. */
  lemma InsertBeforeLast(x: Entry, init: seq<Entry>, last: Entry, inserted: seq<Entry>)
    requires SortedByName(init + [last]) && !NameLe(last.0, x.0)
    requires SortedByName(inserted) && multiset(inserted) == multiset(init) + multiset{x}
    ensures SortedByName(inserted + [last])
  {
    var s := init + [last];
    var r := inserted + [last];
    NameLeTotal(last.0, x.0);
    forall i | 0 <= i < |r| - 1
      ensures NameLe(r[i].0, last.0)
    {
      assert r[i] in multiset(inserted);
      assert r[i] == x || r[i] in multiset(init);
      if r[i] != x {
        var k :| 0 <= k < |init| && init[k] == r[i];
        assert s[k] == r[i] && s[|s| - 1] == last;
      }
    }
    forall i, j | 0 <= i < j < |r|
      ensures NameLe(r[i].0, r[j].0)
    {
      if j < |r| - 1 {
        assert r[i] == inserted[i] && r[j] == inserted[j];
      }
    }
  }

  /** `sorted(files)`, ordered by name; entries with the same name keep their order. */
  function SortEntries(s: seq<Entry>): (r: seq<Entry>)
    ensures SortedByName(r)
    ensures multiset(r) == multiset(s)
  {
    if s == [] then []
    else
      assert s == s[..|s| - 1] + [s[|s| - 1]];
      Insert(s[|s| - 1], SortEntries(s[..|s| - 1]))
  }

  /**
   * In sorted order a directory comes before everything inside it: an
   * entry whose name begins with another's name and a slash comes later.
   */
  lemma ParentsFirst(s: seq<Entry>, i: nat, j: nat)
    requires SortedByName(s)
    requires i < |s| && j < |s|
    requires s[i].0 + "/" <= s[j].0
    ensures i < j
  {
    assert s[i].0 < s[j].0;
    NamePrefixFirst(s[i].0, s[j].0);
  }

  // =====================================================================
  // The hybrid filesystem

  /** A filesystem entry: a file's bytes, or a directory's listing as `ls` gives it. */
  datatype Node = FileNode(content: Bytes) | DirNode(dirs: seq<string>, files: seq<string>)

  /** What a copy does at the destination. */
  datatype FsAction = Write(path: string, data: Bytes) | MakeDirectory(path: string)

  /**
   * Why a copy stops: `RecursionNotAllowedError`, a source that cannot be
   * read, or a single source that turned out to be a directory where a
   * file was expected.
   */
  datatype CpError = RecursionNotAllowed(path: string) | NotFound(path: string) | NotAFile(name: string)

  /** The `HybridFilesystemAPI` a copy works through: what it reads, and the writes it has made. */
  class HybridFs {
    var nodes: map<string, Node>
    var log: seq<FsAction>

    constructor (nodes: map<string, Node>)
      ensures this.nodes == nodes && log == []
    {
      this.nodes := nodes;
      log := [];
    }

    /** `get_type(path).is_dir()`. */
    predicate IsDir(path: string)
      reads this
    {
      path in nodes && nodes[path].DirNode?
    }

    /** `write_file(path, data)`. */
    method WriteFile(path: string, data: Bytes)
      modifies this
      ensures nodes == old(nodes) && log == old(log) + [Write(path, data)]
    {
      log := log + [Write(path, data)];
    }

    /** `mkdir(path, exist_ok=True)`. */
    method Mkdir(path: string)
      modifies this
      ensures nodes == old(nodes) && log == old(log) + [MakeDirectory(path)]
    {
      log := log + [MakeDirectory(path)];
    }
  }

  /** `ls(path)` of a directory: its subdirectories, then its files. */
  function Listing(node: Node): seq<string>
    requires node.DirNode?
  {
    node.dirs + node.files
  }

  // =====================================================================
  // read_sources

  /** A name read from a source: the source's last component, or something inside it. */
  predicate Under(name: string, top: string)
  {
    name == top || top + "/" <= name
  }

  /** The entries `read_sources` pushes for a directory listing, in order. */
  function Children(base: string, name: string, subs: seq<string>): (r: seq<(string, string)>)
    ensures |r| == |subs|
    ensures forall m :: 0 <= m < |subs| ==> r[m] == (base, name + "/" + subs[m])
  {
    if subs == [] then [] else Children(base, name, subs[..|subs| - 1]) + [(base, name + "/" + subs[|subs| - 1])]
  }

  /** A length no key of the filesystem exceeds. */
  ghost function MaxLength(keys: set<string>): (r: nat)
    ensures forall k :: k in keys ==> |k| <= r
    decreases keys
  {
    if keys == {} then 0
    else
      var k :| k in keys;
      var m := MaxLength(keys - {k});
      if |k| > m then |k| else m
  }

  /**
   * How many entries reading `path` recursively visits: one, plus the
   * entries below it when it is a directory. Names below a directory are
   * longer than it, and none is longer than `bound`, so this is finite.
   */
  ghost function Weight(nodes: map<string, Node>, bound: nat, path: string): nat
    requires forall k :: k in nodes ==> |k| <= bound
    decreases bound - |path|, 1, 0
  {
    if path in nodes && nodes[path].DirNode? then 1 + ListingWeight(nodes, bound, path, Listing(nodes[path])) else 1
  }

  ghost function ListingWeight(nodes: map<string, Node>, bound: nat, path: string, subs: seq<string>): nat
    requires forall k :: k in nodes ==> |k| <= bound
    requires path in nodes
    decreases bound - |path|, 0, |subs|
  {
    if subs == [] then 0
    else ListingWeight(nodes, bound, path, subs[..|subs| - 1]) + Weight(nodes, bound, path + "/" + subs[|subs| - 1])
  }

  /** The entries still to be visited from a stack of `(base_dir, name)` pairs. */
  ghost function StackWeight(nodes: map<string, Node>, bound: nat, stack: seq<(string, string)>): nat
    requires forall k :: k in nodes ==> |k| <= bound
  {
    if stack == [] then 0
    else StackWeight(nodes, bound, stack[..|stack| - 1]) + Weight(nodes, bound, stack[|stack| - 1].0 + stack[|stack| - 1].1)
  }

  /** Source `i` has produced an entry called `name`. */
  ghost predicate Listed(items: seq<Entry>, origins: seq<nat>, i: nat, name: string)
  {
    exists k :: 0 <= k < |items| && k < |origins| && origins[k] == i && items[k].0 == name
  }

  /** An entry called `name` from source `i` waits on the stack. */
  ghost predicate Pending(stack: seq<(string, string)>, stackOrigins: seq<nat>, i: nat, name: string)
  {
    exists j :: 0 <= j < |stack| && j < |stackOrigins| && stackOrigins[j] == i && stack[j].1 == name
  }

  /**
   * Every stack entry belongs to a source: it keeps that source's base
   * directory and its name lies under the source's last component (is that
   * component itself when not recursive).
   */
  predicate Stacked(splits: seq<(string, string)>, recursive: bool, stack: seq<(string, string)>, stackOrigins: seq<nat>)
  {
    && |stack| == |stackOrigins|
    && forall j :: 0 <= j < |stack| ==>
         && stackOrigins[j] < |splits|
         && stack[j].0 == splits[stackOrigins[j]].0
         && Under(stack[j].1, splits[stackOrigins[j]].1)
         && (!recursive ==> stack[j].1 == splits[stackOrigins[j]].1)
  }

  /**
   * Every entry produced belongs to a source and lies under its last
   * component; read from the source's base directory, a file entry holds
   * the file's whole contents and a directory entry (only when recursive)
   * names a directory.
   */
  predicate ItemsRead(nodes: map<string, Node>, splits: seq<(string, string)>, recursive: bool, items: seq<Entry>, origins: seq<nat>)
  {
    && |items| == |origins|
    && forall k :: 0 <= k < |items| ==>
         && origins[k] < |splits|
         && Under(items[k].0, splits[origins[k]].1)
         && var full := splits[origins[k]].0 + items[k].0;
            && (items[k].1.Some? ==> full in nodes && nodes[full] == FileNode(items[k].1.value))
            && (items[k].1.None? ==> recursive && full in nodes && nodes[full].DirNode?)
  }

  /** The full name of entry `k`: its source's base directory and its own name. */
  function FullName(splits: seq<(string, string)>, items: seq<Entry>, origins: seq<nat>, k: nat): string
    requires k < |items| && k < |origins| && origins[k] < |splits|
  {
    splits[origins[k]].0 + items[k].0
  }

  /**
   * Nothing is lost: every source, and every child of every directory
   * entry produced, has been produced or waits on the stack.
   */
  ghost predicate Covered(nodes: map<string, Node>, splits: seq<(string, string)>, items: seq<Entry>, origins: seq<nat>,
                          stack: seq<(string, string)>, stackOrigins: seq<nat>)
    requires |items| == |origins| && forall k :: 0 <= k < |origins| ==> origins[k] < |splits|
  {
    SourcesReached(splits, items, origins, stack, stackOrigins) && ChildrenReached(nodes, splits, items, origins, stack, stackOrigins)
  }

  ghost predicate SourcesReached(splits: seq<(string, string)>, items: seq<Entry>, origins: seq<nat>,
                                 stack: seq<(string, string)>, stackOrigins: seq<nat>)
  {
    forall i :: 0 <= i < |splits| ==>
      Listed(items, origins, i, splits[i].1) || Pending(stack, stackOrigins, i, splits[i].1)
  }

  ghost predicate ChildrenReached(nodes: map<string, Node>, splits: seq<(string, string)>, items: seq<Entry>, origins: seq<nat>,
                                  stack: seq<(string, string)>, stackOrigins: seq<nat>)
    requires |items| == |origins| && forall k :: 0 <= k < |origins| ==> origins[k] < |splits|
  {
    forall k :: 0 <= k < |items| && items[k].1.None? ==>
      KidsReached(nodes, FullName(splits, items, origins, k), origins[k], items[k].0, items, origins, stack, stackOrigins)
  }

  /** Every child of directory `dir`, read as entry `name` of source `i`, has been produced or waits on the stack. */
  ghost predicate KidsReached(nodes: map<string, Node>, dir: string, i: nat, name: string, items: seq<Entry>, origins: seq<nat>,
                              stack: seq<(string, string)>, stackOrigins: seq<nat>)
  {
    dir in nodes && nodes[dir].DirNode? ==>
      forall sub :: sub in Listing(nodes[dir]) ==>
        Listed(items, origins, i, name + "/" + sub) || Pending(stack, stackOrigins, i, name + "/" + sub)
  }

  /** Pushing a listing's children adds their weight to the stack's. */
  lemma {:induction false} ChildrenWeight(nodes: map<string, Node>, bound: nat, stack: seq<(string, string)>,
                                          base: string, name: string, subs: seq<string>)
    requires forall k :: k in nodes ==> |k| <= bound
    requires base + name in nodes
    ensures StackWeight(nodes, bound, stack + Children(base, name, subs))
            == StackWeight(nodes, bound, stack) + ListingWeight(nodes, bound, base + name, subs)
    decreases |subs|
  {
    if subs == [] {
      assert stack + Children(base, name, subs) == stack;
    } else {
      var init := subs[..|subs| - 1];
      var sub := subs[|subs| - 1];
      ChildrenWeight(nodes, bound, stack, base, name, init);
      var pushed := stack + Children(base, name, subs);
      assert pushed == (stack + Children(base, name, init)) + [(base, name + "/" + sub)];
      assert pushed[..|pushed| - 1] == stack + Children(base, name, init);
      assert base + (name + "/" + sub) == (base + name) + "/" + sub;
      assert StackWeight(nodes, bound, pushed)
             == StackWeight(nodes, bound, stack + Children(base, name, init)) + Weight(nodes, bound, (base + name) + "/" + sub);
    }
  }

  /** The `for subpath in directories + files` loop: push each child, in order. */
  method PushListing(stack: seq<(string, string)>, ghost stackOrigins: seq<nat>, base: string, name: string,
                     subs: seq<string>, ghost origin: nat)
    returns (stack': seq<(string, string)>, ghost stackOrigins': seq<nat>)
    ensures stack' == stack + Children(base, name, subs)
    ensures stackOrigins' == stackOrigins + Repeat(origin, |subs|)
  {
    stack', stackOrigins' := stack, stackOrigins;
    for k := 0 to |subs|
      invariant stack' == stack + Children(base, name, subs[..k])
      invariant stackOrigins' == stackOrigins + Repeat(origin, k)
    {
      assert subs[..k + 1][..k] == subs[..k];
      stack' := stack' + [(base, name + "/" + subs[k])];
      stackOrigins' := stackOrigins' + [origin];
    }
    assert subs[..|subs|] == subs;
  }

  /** An entry that was produced or waiting is still one after a step that pops the top and yields it. */
  lemma ReachedStep(items: seq<Entry>, origins: seq<nat>, stack: seq<(string, string)>, stackOrigins: seq<nat>,
                    x: Entry, extra: seq<(string, string)>, extraOrigins: seq<nat>, i: nat, name: string)
    requires |stack| > 0 && |stack| == |stackOrigins| && |items| == |origins| && |extra| == |extraOrigins|
    requires x.0 == stack[|stack| - 1].1
    requires Listed(items, origins, i, name) || Pending(stack, stackOrigins, i, name)
    ensures Listed(items + [x], origins + [stackOrigins[|stack| - 1]], i, name)
            || Pending(stack[..|stack| - 1] + extra, stackOrigins[..|stack| - 1] + extraOrigins, i, name)
  {
    var items' := items + [x];
    var origins' := origins + [stackOrigins[|stack| - 1]];
    if Listed(items, origins, i, name) {
      var k :| 0 <= k < |items| && k < |origins| && origins[k] == i && items[k].0 == name;
      assert items'[k] == items[k] && origins'[k] == origins[k];
    } else {
      var j :| 0 <= j < |stack| && j < |stackOrigins| && stackOrigins[j] == i && stack[j].1 == name;
      if j == |stack| - 1 {
        assert items'[|items|].0 == name && origins'[|items|] == i;
      } else {
        var stack' := stack[..|stack| - 1] + extra;
        var origins'' := stackOrigins[..|stack| - 1] + extraOrigins;
        assert stack'[j] == stack[j] && origins''[j] == stackOrigins[j];
      }
    }
  }

  /** The children pushed for a directory entry wait on the stack. */
  lemma ChildrenPending(popped: seq<(string, string)>, poppedOrigins: seq<nat>, base: string, name: string,
                        subs: seq<string>, origin: nat, sub: string)
    requires |popped| == |poppedOrigins|
    requires sub in subs
    ensures Pending(popped + Children(base, name, subs), poppedOrigins + Repeat(origin, |subs|), origin, name + "/" + sub)
  {
    var m :| 0 <= m < |subs| && subs[m] == sub;
    var stack := popped + Children(base, name, subs);
    var origins := poppedOrigins + Repeat(origin, |subs|);
    assert stack[|popped| + m] == (base, name + "/" + sub);
    assert origins[|popped| + m] == origin;
  }

  /** Popping the top of the stack and producing it, with `extra` pushed in its place, loses no source. */
  lemma SourcesStep(splits: seq<(string, string)>, items: seq<Entry>, origins: seq<nat>,
                    stack: seq<(string, string)>, stackOrigins: seq<nat>, x: Entry,
                    extra: seq<(string, string)>, extraOrigins: seq<nat>)
    requires |stack| > 0 && |stack| == |stackOrigins| && |extra| == |extraOrigins| && |items| == |origins|
    requires x.0 == stack[|stack| - 1].1
    requires SourcesReached(splits, items, origins, stack, stackOrigins)
    ensures SourcesReached(splits, items + [x], origins + [stackOrigins[|stack| - 1]],
                           stack[..|stack| - 1] + extra, stackOrigins[..|stack| - 1] + extraOrigins)
  {
    forall i | 0 <= i < |splits|
      ensures Listed(items + [x], origins + [stackOrigins[|stack| - 1]], i, splits[i].1)
              || Pending(stack[..|stack| - 1] + extra, stackOrigins[..|stack| - 1] + extraOrigins, i, splits[i].1)
    {
      ReachedStep(items, origins, stack, stackOrigins, x, extra, extraOrigins, i, splits[i].1);
    }
  }

  /** Popping the top of the stack and producing it, with `extra` pushed in its place, loses no child of `dir`. */
  lemma KidsStep(nodes: map<string, Node>, dir: string, i: nat, name: string, items: seq<Entry>, origins: seq<nat>,
                 stack: seq<(string, string)>, stackOrigins: seq<nat>, x: Entry,
                 extra: seq<(string, string)>, extraOrigins: seq<nat>)
    requires |stack| > 0 && |stack| == |stackOrigins| && |extra| == |extraOrigins| && |items| == |origins|
    requires x.0 == stack[|stack| - 1].1
    requires KidsReached(nodes, dir, i, name, items, origins, stack, stackOrigins)
    ensures KidsReached(nodes, dir, i, name, items + [x], origins + [stackOrigins[|stack| - 1]],
                        stack[..|stack| - 1] + extra, stackOrigins[..|stack| - 1] + extraOrigins)
  {
    if dir in nodes && nodes[dir].DirNode? {
      forall sub | sub in Listing(nodes[dir])
        ensures Listed(items + [x], origins + [stackOrigins[|stack| - 1]], i, name + "/" + sub)
                || Pending(stack[..|stack| - 1] + extra, stackOrigins[..|stack| - 1] + extraOrigins, i, name + "/" + sub)
      {
        ReachedStep(items, origins, stack, stackOrigins, x, extra, extraOrigins, i, name + "/" + sub);
      }
    }
  }

  /**
   * Popping the top of the stack and producing it, with `extra` pushed in
   * its place, loses no child, provided a directory produced has its
   * children among `extra`.
   */
  lemma ChildrenStep(nodes: map<string, Node>, splits: seq<(string, string)>, items: seq<Entry>, origins: seq<nat>,
                     stack: seq<(string, string)>, stackOrigins: seq<nat>, x: Entry,
                     extra: seq<(string, string)>, extraOrigins: seq<nat>)
    requires |stack| > 0 && |stack| == |stackOrigins| && |extra| == |extraOrigins|
    requires |items| == |origins| && forall k :: 0 <= k < |origins| ==> origins[k] < |splits|
    requires stackOrigins[|stack| - 1] < |splits|
    requires x.0 == stack[|stack| - 1].1
    requires ChildrenReached(nodes, splits, items, origins, stack, stackOrigins)
    requires x.1.None? ==>
               KidsReached(nodes, splits[stackOrigins[|stack| - 1]].0 + x.0, stackOrigins[|stack| - 1], x.0,
                           items + [x], origins + [stackOrigins[|stack| - 1]],
                           stack[..|stack| - 1] + extra, stackOrigins[..|stack| - 1] + extraOrigins)
    ensures ChildrenReached(nodes, splits, items + [x], origins + [stackOrigins[|stack| - 1]],
                            stack[..|stack| - 1] + extra, stackOrigins[..|stack| - 1] + extraOrigins)
  {
    var items' := items + [x];
    var origins' := origins + [stackOrigins[|stack| - 1]];
    forall k | 0 <= k < |items'| && items'[k].1.None?
      ensures KidsReached(nodes, FullName(splits, items', origins', k), origins'[k], items'[k].0, items', origins',
                          stack[..|stack| - 1] + extra, stackOrigins[..|stack| - 1] + extraOrigins)
    {
      if k < |items| {
        assert items'[k] == items[k] && origins'[k] == origins[k];
        KidsStep(nodes, FullName(splits, items, origins, k), origins[k], items[k].0, items, origins, stack, stackOrigins,
                 x, extra, extraOrigins);
      }
    }
  }

  /** Reading a file from the top of the stack keeps the loop's invariants. */
  lemma ReadFileStep(nodes: map<string, Node>, splits: seq<(string, string)>, recursive: bool, items: seq<Entry>, origins: seq<nat>,
                     stack: seq<(string, string)>, stackOrigins: seq<nat>,
                     items': seq<Entry>, origins': seq<nat>, stack': seq<(string, string)>, stackOrigins': seq<nat>)
    requires stack != []
    requires Stacked(splits, recursive, stack, stackOrigins)
    requires ItemsRead(nodes, splits, recursive, items, origins)
    requires SourcesReached(splits, items, origins, stack, stackOrigins)
    requires ChildrenReached(nodes, splits, items, origins, stack, stackOrigins)
    requires var top := stack[|stack| - 1]; top.0 + top.1 in nodes && nodes[top.0 + top.1].FileNode?
    requires var top := stack[|stack| - 1];
             && items' == items + [(top.1, Some(nodes[top.0 + top.1].content))]
             && origins' == origins + [stackOrigins[|stack| - 1]]
             && stack' == stack[..|stack| - 1] && stackOrigins' == stackOrigins[..|stack| - 1]
    ensures Stacked(splits, recursive, stack', stackOrigins')
    ensures ItemsRead(nodes, splits, recursive, items', origins')
    ensures SourcesReached(splits, items', origins', stack', stackOrigins')
    ensures ChildrenReached(nodes, splits, items', origins', stack', stackOrigins')
  {
    var top := stack[|stack| - 1];
    var x := (top.1, Some(nodes[top.0 + top.1].content));
    assert stack[..|stack| - 1] + [] == stack[..|stack| - 1];
    assert stackOrigins[..|stack| - 1] + [] == stackOrigins[..|stack| - 1];
    StackedPop(splits, recursive, stack, stackOrigins);
    SourcesStep(splits, items, origins, stack, stackOrigins, x, [], []);
    ChildrenStep(nodes, splits, items, origins, stack, stackOrigins, x, [], []);
  }

  /** Replacing the top of the stack by its children keeps every entry under its source. */
  lemma StackedPush(splits: seq<(string, string)>, stack: seq<(string, string)>, stackOrigins: seq<nat>, subs: seq<string>)
    requires stack != []
    requires Stacked(splits, true, stack, stackOrigins)
    ensures var top := stack[|stack| - 1];
            Stacked(splits, true, stack[..|stack| - 1] + Children(top.0, top.1, subs),
                    stackOrigins[..|stack| - 1] + Repeat(stackOrigins[|stack| - 1], |subs|))
  {
    var n := |stack| - 1;
    var top := stack[n];
    var origin := stackOrigins[n];
    assert top.0 == splits[origin].0 && Under(top.1, splits[origin].1);
    StackedPrefix(splits, stack, stackOrigins, n);
    StackedChildren(splits, top, origin, subs);
    StackedAppend(splits, stack[..n], stackOrigins[..n], Children(top.0, top.1, subs), Repeat(origin, |subs|));
  }

  /** Every prefix of a well-formed stack is well formed. */
  lemma StackedPrefix(splits: seq<(string, string)>, stack: seq<(string, string)>, stackOrigins: seq<nat>, n: nat)
    requires n <= |stack|
    requires Stacked(splits, true, stack, stackOrigins)
    ensures Stacked(splits, true, stack[..n], stackOrigins[..n])
  {
    forall j | 0 <= j < n
      ensures && stackOrigins[..n][j] < |splits|
              && stack[..n][j].0 == splits[stackOrigins[..n][j]].0
              && Under(stack[..n][j].1, splits[stackOrigins[..n][j]].1)
    {
      assert stack[..n][j] == stack[j] && stackOrigins[..n][j] == stackOrigins[j];
    }
  }

  /** The children pushed for a directory under its source stay under that source. */
  lemma StackedChildren(splits: seq<(string, string)>, top: (string, string), origin: nat, subs: seq<string>)
    requires origin < |splits| && top.0 == splits[origin].0 && Under(top.1, splits[origin].1)
    ensures Stacked(splits, true, Children(top.0, top.1, subs), Repeat(origin, |subs|))
  {
    var extra := Children(top.0, top.1, subs);
    forall m | 0 <= m < |subs|
      ensures Under(extra[m].1, splits[origin].1)
    {
      UnderChild(top.1, splits[origin].1, subs[m]);
    }
  }

  /** Two well-formed stacks concatenate to a well-formed stack. */
  lemma StackedAppend(splits: seq<(string, string)>, a: seq<(string, string)>, ao: seq<nat>,
                      b: seq<(string, string)>, bo: seq<nat>)
    requires Stacked(splits, true, a, ao) && Stacked(splits, true, b, bo)
    ensures Stacked(splits, true, a + b, ao + bo)
  {
    forall j | 0 <= j < |a + b|
      ensures && (ao + bo)[j] < |splits|
              && (a + b)[j].0 == splits[(ao + bo)[j]].0
              && Under((a + b)[j].1, splits[(ao + bo)[j]].1)
    {
      if j < |a| {
        assert (a + b)[j] == a[j] && (ao + bo)[j] == ao[j];
      } else {
        assert (a + b)[j] == b[j - |a|] && (ao + bo)[j] == bo[j - |a|];
      }
    }
  }

  /** A child of a name under `top` is itself under `top`. */
  lemma UnderChild(name: string, top: string, sub: string)
    requires Under(name, top)
    ensures Under(name + "/" + sub, top)
  {
    if name != top {
      AppendAssoc(name, "/", sub);
      assert name + "/" + sub == name + ("/" + sub);
      assert (top + "/") <= name;
    }
  }

  /** Reading a directory from the top of the stack, pushing its listing, keeps the loop's invariants. */
  lemma ReadDirectoryStep(nodes: map<string, Node>, splits: seq<(string, string)>, items: seq<Entry>, origins: seq<nat>,
                          stack: seq<(string, string)>, stackOrigins: seq<nat>, subs: seq<string>)
    requires stack != []
    requires Stacked(splits, true, stack, stackOrigins)
    requires ItemsRead(nodes, splits, true, items, origins)
    requires SourcesReached(splits, items, origins, stack, stackOrigins)
    requires ChildrenReached(nodes, splits, items, origins, stack, stackOrigins)
    requires var top := stack[|stack| - 1];
             top.0 + top.1 in nodes && nodes[top.0 + top.1].DirNode? && subs == Listing(nodes[top.0 + top.1])
    ensures var top := stack[|stack| - 1];
            var items' := items + [(top.1, None)];
            var origins' := origins + [stackOrigins[|stack| - 1]];
            var stack' := stack[..|stack| - 1] + Children(top.0, top.1, subs);
            var stackOrigins' := stackOrigins[..|stack| - 1] + Repeat(stackOrigins[|stack| - 1], |subs|);
            && ItemsRead(nodes, splits, true, items', origins')
            && SourcesReached(splits, items', origins', stack', stackOrigins')
            && ChildrenReached(nodes, splits, items', origins', stack', stackOrigins')
  {
    var top := stack[|stack| - 1];
    var origin := stackOrigins[|stack| - 1];
    var x: Entry := (top.1, None);
    var items' := items + [x];
    var origins' := origins + [origin];
    var extra := Children(top.0, top.1, subs);
    var extraOrigins := Repeat(origin, |subs|);
    var stack' := stack[..|stack| - 1] + extra;
    var stackOrigins' := stackOrigins[..|stack| - 1] + extraOrigins;
    SourcesStep(splits, items, origins, stack, stackOrigins, x, extra, extraOrigins);
    assert KidsReached(nodes, splits[origin].0 + x.0, origin, x.0, items', origins', stack', stackOrigins') by {
      forall sub | sub in subs
        ensures Pending(stack', stackOrigins', origin, x.0 + "/" + sub)
      {
        ChildrenPending(stack[..|stack| - 1], stackOrigins[..|stack| - 1], top.0, top.1, subs, origin, sub);
      }
    }
    ChildrenStep(nodes, splits, items, origins, stack, stackOrigins, x, extra, extraOrigins);
  }

  /** `[split_source(source) for source in sources]`. */
  function SplitSources(sources: seq<string>): (r: seq<(string, string)>)
    ensures |r| == |sources| && forall i :: 0 <= i < |sources| ==> r[i] == SplitSource(sources[i])
  {
    seq(|sources|, i requires 0 <= i < |sources| => SplitSource(sources[i]))
  }

  /** `base_dir + name` for a source: the path `read_sources` reads first for it. */
  function SourcePath(source: string): string
  {
    SplitSource(source).0 + SplitSource(source).1
  }

  /** `path` is `dir + "/" + sub` for a name `sub` that directory `dir` lists. */
  predicate ListedChild(nodes: map<string, Node>, dir: string, path: string)
  {
    && dir in nodes && nodes[dir].DirNode?
    && |dir| < |path| && path[..|dir| + 1] == dir + "/" && path[|dir| + 1..] in Listing(nodes[dir])
  }

  /**
   * A path `read_sources` reaches: a split source, or a listed child of a
   * directory entry it has yielded.
   */
  ghost predicate ReachedPath(nodes: map<string, Node>, splits: seq<(string, string)>, items: seq<Entry>, origins: seq<nat>,
                              path: string)
  {
    || (exists i :: 0 <= i < |splits| && path == splits[i].0 + splits[i].1)
    || (exists k {:trigger FullName(splits, items, origins, k)} ::
          0 <= k < |items| && k < |origins| && origins[k] < |splits| && items[k].1.None?
                   && ListedChild(nodes, FullName(splits, items, origins, k), path))
  }

  /** Every entry on the stack names a reached path. */
  ghost predicate StackReached(nodes: map<string, Node>, splits: seq<(string, string)>, items: seq<Entry>, origins: seq<nat>,
                               stack: seq<(string, string)>)
  {
    forall j :: 0 <= j < |stack| ==> ReachedPath(nodes, splits, items, origins, stack[j].0 + stack[j].1)
  }

  /**
   * The first turn pops the last source: until something is yielded or
   * raised every source waits on the stack with the last on top, the first
   * entry yielded is that source, and an error raised before any entry
   * names it.
   */
  ghost predicate FirstRead(splits: seq<(string, string)>, items: seq<Entry>, origins: seq<nat>,
                            stack: seq<(string, string)>, stackOrigins: seq<nat>, err: Option<CpError>)
  {
    && (err.None? && items == [] ==>
          && |stack| == |splits|
          && (stack != [] ==> && stack[|stack| - 1] == splits[|splits| - 1]
                              && |stackOrigins| == |stack| && stackOrigins[|stack| - 1] == |splits| - 1))
    && (items != [] ==>
          splits != [] && origins != [] && items[0].0 == splits[|splits| - 1].1 && origins[0] == |splits| - 1)
    && (err.Some? && items == [] && !err.value.NotAFile? ==>
          splits != [] && err.value.path == splits[|splits| - 1].0 + splits[|splits| - 1].1)
  }

  /** Popping the top of the stack and yielding it, with `extra` pushed in its place, keeps the first turn's facts. */
  lemma FirstReadYield(splits: seq<(string, string)>, items: seq<Entry>, origins: seq<nat>,
                       stack: seq<(string, string)>, stackOrigins: seq<nat>, x: Entry,
                       items': seq<Entry>, origins': seq<nat>, stack': seq<(string, string)>, stackOrigins': seq<nat>)
    requires stack != [] && |stack| == |stackOrigins| && |items| == |origins| && x.0 == stack[|stack| - 1].1
    requires items' == items + [x] && origins' == origins + [stackOrigins[|stack| - 1]]
    requires FirstRead(splits, items, origins, stack, stackOrigins, None)
    ensures FirstRead(splits, items', origins', stack', stackOrigins', None)
  {
    if items != [] {
      assert items'[0] == items[0] && origins'[0] == origins[0];
    }
  }

  /** Popping the top of the stack and raising an error that names it keeps the first turn's facts. */
  lemma FirstReadRaise(splits: seq<(string, string)>, items: seq<Entry>, origins: seq<nat>,
                       stack: seq<(string, string)>, stackOrigins: seq<nat>, e: CpError)
    requires stack != [] && |stack| == |stackOrigins|
    requires !e.NotAFile? && e.path == stack[|stack| - 1].0 + stack[|stack| - 1].1
    requires FirstRead(splits, items, origins, stack, stackOrigins, None)
    ensures FirstRead(splits, items, origins, stack[..|stack| - 1], stackOrigins[..|stack| - 1], Some(e))
  {
  }

  /** Every name directory `dir` lists exists beside it, as `ls` reports what is there. */
  predicate ListingPresent(nodes: map<string, Node>, dir: string)
  {
    dir in nodes && nodes[dir].DirNode? ==> forall sub :: sub in Listing(nodes[dir]) ==> dir + "/" + sub in nodes
  }

  /** Every directory's listing is present. */
  ghost predicate ListingsPresent(nodes: map<string, Node>)
  {
    forall dir {:trigger ListingPresent(nodes, dir)} :: ListingPresent(nodes, dir)
  }

  /** Every source names an existing path, and a directory only when copying recursively. */
  predicate SourcesReadable(nodes: map<string, Node>, sources: seq<string>, recursive: bool)
  {
    forall i :: 0 <= i < |sources| ==>
      SourcePath(sources[i]) in nodes && (recursive || !nodes[SourcePath(sources[i])].DirNode?)
  }

  /** A path reached is present when every source and every listed name is. */
  lemma ReachedPresent(nodes: map<string, Node>, sources: seq<string>, recursive: bool, items: seq<Entry>, origins: seq<nat>,
                       path: string)
    requires SourcesReadable(nodes, sources, recursive) && ListingsPresent(nodes)
    requires ReachedPath(nodes, SplitSources(sources), items, origins, path)
    ensures path in nodes
  {
    var splits := SplitSources(sources);
    if exists i :: 0 <= i < |splits| && path == splits[i].0 + splits[i].1 {
      var i :| 0 <= i < |splits| && path == splits[i].0 + splits[i].1;
      assert path == SourcePath(sources[i]);
    } else {
      var k :| 0 <= k < |items| && k < |origins| && origins[k] < |splits| && items[k].1.None?
               && ListedChild(nodes, FullName(splits, items, origins, k), path);
      var dir := FullName(splits, items, origins, k);
      var sub := path[|dir| + 1..];
      assert ListingPresent(nodes, dir) && sub in Listing(nodes[dir]);
      ChildJoin(dir, path);
    }
  }

  /** A path that starts with `dir + "/"` is `dir + "/"` followed by the rest. */
  lemma ChildJoin(dir: string, path: string)
    requires |dir| < |path| && path[..|dir| + 1] == dir + "/"
    ensures path == dir + "/" + path[|dir| + 1..]
  {
    assert path == path[..|dir| + 1] + path[|dir| + 1..];
  }

  /** A path reached stays reached when one more entry is yielded. */
  lemma ReachedGrow(nodes: map<string, Node>, splits: seq<(string, string)>, items: seq<Entry>, origins: seq<nat>,
                    x: Entry, o: nat, path: string)
    requires ReachedPath(nodes, splits, items, origins, path)
    ensures ReachedPath(nodes, splits, items + [x], origins + [o], path)
  {
    if !exists i :: 0 <= i < |splits| && path == splits[i].0 + splits[i].1 {
      var k :| 0 <= k < |items| && k < |origins| && origins[k] < |splits| && items[k].1.None?
               && ListedChild(nodes, FullName(splits, items, origins, k), path);
      assert (items + [x])[k] == items[k] && (origins + [o])[k] == origins[k];
      assert FullName(splits, items + [x], origins + [o], k) == FullName(splits, items, origins, k);
    }
  }

  /** Popping the top and yielding `x`, with reached entries `extra` pushed in its place, keeps the stack reached. */
  lemma StackReachedStep(nodes: map<string, Node>, splits: seq<(string, string)>, items: seq<Entry>, origins: seq<nat>,
                         stack: seq<(string, string)>, x: Entry, o: nat, extra: seq<(string, string)>,
                         items': seq<Entry>, origins': seq<nat>, stack': seq<(string, string)>)
    requires stack != []
    requires items' == items + [x] && origins' == origins + [o] && stack' == stack[..|stack| - 1] + extra
    requires StackReached(nodes, splits, items, origins, stack)
    requires StackReached(nodes, splits, items', origins', extra)
    ensures StackReached(nodes, splits, items', origins', stack')
  {
    var n := |stack| - 1;
    forall j | 0 <= j < |stack'|
      ensures ReachedPath(nodes, splits, items', origins', stack'[j].0 + stack'[j].1)
    {
      if j < n {
        assert stack'[j] == stack[j];
        ReachedGrow(nodes, splits, items, origins, x, o, stack[j].0 + stack[j].1);
      } else {
        assert stack'[j] == extra[j - n];
      }
    }
  }

  /** Popping the top and yielding `x` keeps the rest of the stack reached. */
  lemma StackReachedPop(nodes: map<string, Node>, splits: seq<(string, string)>, items: seq<Entry>, origins: seq<nat>,
                        stack: seq<(string, string)>, x: Entry, o: nat,
                        items': seq<Entry>, origins': seq<nat>, stack': seq<(string, string)>)
    requires stack != []
    requires items' == items + [x] && origins' == origins + [o] && stack' == stack[..|stack| - 1]
    requires StackReached(nodes, splits, items, origins, stack)
    ensures StackReached(nodes, splits, items', origins', stack')
  {
    forall j | 0 <= j < |stack'|
      ensures ReachedPath(nodes, splits, items', origins', stack'[j].0 + stack'[j].1)
    {
      assert stack'[j] == stack[j];
      ReachedGrow(nodes, splits, items, origins, x, o, stack[j].0 + stack[j].1);
    }
  }

  /** The children pushed for a directory yielded from source `o` are listed children of it. */
  lemma ChildrenReachedPaths(nodes: map<string, Node>, splits: seq<(string, string)>, items: seq<Entry>, origins: seq<nat>,
                             top: (string, string), o: nat, subs: seq<string>)
    requires |items| == |origins| && o < |splits| && top.0 == splits[o].0
    requires top.0 + top.1 in nodes && nodes[top.0 + top.1].DirNode? && subs == Listing(nodes[top.0 + top.1])
    ensures StackReached(nodes, splits, items + [(top.1, None)], origins + [o], Children(top.0, top.1, subs))
  {
    var items' := items + [(top.1, None)];
    var origins' := origins + [o];
    var k := |items|;
    var dir := top.0 + top.1;
    assert FullName(splits, items', origins', k) == dir;
    var extra := Children(top.0, top.1, subs);
    forall j | 0 <= j < |extra|
      ensures ReachedPath(nodes, splits, items', origins', extra[j].0 + extra[j].1)
    {
      var path := top.0 + (top.1 + "/" + subs[j]);
      assert extra[j].0 + extra[j].1 == path;
      assert path == dir + "/" + subs[j];
      assert path[..|dir| + 1] == dir + "/";
      assert path[|dir| + 1..] == subs[j];
      assert ListedChild(nodes, dir, path);
    }
  }

  /**
   * An error that ends the reading is one `read_sources` raises, for the
   * reason it gives, at a path it has reached.
   */
  ghost predicate ErrorSound(nodes: map<string, Node>, splits: seq<(string, string)>, recursive: bool,
                             items: seq<Entry>, origins: seq<nat>, err: Option<CpError>)
  {
    err.Some? ==>
      && !err.value.NotAFile?
      && (err.value.RecursionNotAllowed? ==>
            && !recursive && err.value.path in nodes && nodes[err.value.path].DirNode?
            && exists i :: 0 <= i < |splits| && err.value.path == splits[i].0 + splits[i].1)
      && (err.value.NotFound? ==>
            err.value.path !in nodes && ReachedPath(nodes, splits, items, origins, err.value.path))
  }

  /** The invariant of the `while sources:` loop. */
  ghost predicate Reading(nodes: map<string, Node>, splits: seq<(string, string)>, recursive: bool,
                          items: seq<Entry>, origins: seq<nat>, stack: seq<(string, string)>, stackOrigins: seq<nat>,
                          err: Option<CpError>)
  {
    && Stacked(splits, recursive, stack, stackOrigins)
    && ItemsRead(nodes, splits, recursive, items, origins)
    && (err.None? ==> SourcesReached(splits, items, origins, stack, stackOrigins)
                      && ChildrenReached(nodes, splits, items, origins, stack, stackOrigins)
                      && StackReached(nodes, splits, items, origins, stack))
    && ErrorSound(nodes, splits, recursive, items, origins, err)
    && FirstRead(splits, items, origins, stack, stackOrigins, err)
  }

  /** One turn of the `while sources:` loop: pop an entry and yield it, or raise. */
  method ReadStep(hfs: HybridFs, splits: seq<(string, string)>, recursive: bool,
                  stack: seq<(string, string)>, ghost stackOrigins: seq<nat>, items: seq<Entry>, ghost origins: seq<nat>,
                  ghost bound: nat)
    returns (stack': seq<(string, string)>, ghost stackOrigins': seq<nat>, items': seq<Entry>, ghost origins': seq<nat>,
             err: Option<CpError>)
    requires stack != []
    requires forall k :: k in hfs.nodes ==> |k| <= bound
    requires Reading(hfs.nodes, splits, recursive, items, origins, stack, stackOrigins, None)
    ensures Reading(hfs.nodes, splits, recursive, items', origins', stack', stackOrigins', err)
    ensures StackWeight(hfs.nodes, bound, stack') < StackWeight(hfs.nodes, bound, stack)
  {
    var top := stack[|stack| - 1];
    ghost var origin := stackOrigins[|stack| - 1];
    var popped := stack[..|stack| - 1];
    ghost var poppedOrigins := stackOrigins[..|stack| - 1];
    var path := top.0 + top.1;
    if hfs.IsDir(path) {
      if recursive {
        var subs := Listing(hfs.nodes[path]);
        stack', stackOrigins' := PushListing(popped, poppedOrigins, top.0, top.1, subs, origin);
        ChildrenWeight(hfs.nodes, bound, popped, top.0, top.1, subs);
        items', origins' := items + [(top.1, None)], origins + [origin];
        err := None;
        DirectoryReading(hfs.nodes, splits, items, origins, stack, stackOrigins, subs, items', origins', stack', stackOrigins');
      } else {
        stack', stackOrigins', items', origins' := popped, poppedOrigins, items, origins;
        err := Some(RecursionNotAllowed(path));
        RaiseReading(hfs.nodes, splits, recursive, items, origins, stack, stackOrigins, err.value, stack', stackOrigins', err);
      }
    } else if path in hfs.nodes {
      stack', stackOrigins' := popped, poppedOrigins;
      items', origins' := items + [(top.1, Some(hfs.nodes[path].content))], origins + [origin];
      err := None;
      FileReading(hfs.nodes, splits, recursive, items, origins, stack, stackOrigins, items', origins', stack', stackOrigins');
    } else {
      stack', stackOrigins', items', origins' := popped, poppedOrigins, items, origins;
      err := Some(NotFound(path));
      RaiseReading(hfs.nodes, splits, recursive, items, origins, stack, stackOrigins, err.value, stack', stackOrigins', err);
    }
  }

  /** Dropping the top of a well-formed stack leaves it well formed. */
  lemma StackedPop(splits: seq<(string, string)>, recursive: bool, stack: seq<(string, string)>, stackOrigins: seq<nat>)
    requires stack != []
    requires Stacked(splits, recursive, stack, stackOrigins)
    ensures Stacked(splits, recursive, stack[..|stack| - 1], stackOrigins[..|stack| - 1])
  {
    var n := |stack| - 1;
    forall j | 0 <= j < n
      ensures stack[..n][j] == stack[j] && stackOrigins[..n][j] == stackOrigins[j]
    {
    }
  }

  /** Yielding a directory from the top of the stack and pushing its listing keeps the loop invariant. */
  lemma DirectoryReading(nodes: map<string, Node>, splits: seq<(string, string)>, items: seq<Entry>, origins: seq<nat>,
                         stack: seq<(string, string)>, stackOrigins: seq<nat>, subs: seq<string>,
                         items': seq<Entry>, origins': seq<nat>, stack': seq<(string, string)>, stackOrigins': seq<nat>)
    requires stack != []
    requires Reading(nodes, splits, true, items, origins, stack, stackOrigins, None)
    requires var top := stack[|stack| - 1];
             top.0 + top.1 in nodes && nodes[top.0 + top.1].DirNode? && subs == Listing(nodes[top.0 + top.1])
    requires var top := stack[|stack| - 1];
             var origin := stackOrigins[|stack| - 1];
             && items' == items + [(top.1, None)] && origins' == origins + [origin]
             && stack' == stack[..|stack| - 1] + Children(top.0, top.1, subs)
             && stackOrigins' == stackOrigins[..|stack| - 1] + Repeat(origin, |subs|)
    ensures Reading(nodes, splits, true, items', origins', stack', stackOrigins', None)
  {
    var top := stack[|stack| - 1];
    var origin := stackOrigins[|stack| - 1];
    ReadDirectoryStep(nodes, splits, items, origins, stack, stackOrigins, subs);
    StackedPush(splits, stack, stackOrigins, subs);
    ChildrenReachedPaths(nodes, splits, items, origins, top, origin, subs);
    FirstReadYield(splits, items, origins, stack, stackOrigins, (top.1, None), items', origins', stack', stackOrigins');
    StackReachedStep(nodes, splits, items, origins, stack, (top.1, None), origin, Children(top.0, top.1, subs),
                     items', origins', stack');
  }

  /** Yielding a file from the top of the stack keeps the loop invariant. */
  lemma FileReading(nodes: map<string, Node>, splits: seq<(string, string)>, recursive: bool, items: seq<Entry>,
                    origins: seq<nat>, stack: seq<(string, string)>, stackOrigins: seq<nat>,
                    items': seq<Entry>, origins': seq<nat>, stack': seq<(string, string)>, stackOrigins': seq<nat>)
    requires stack != []
    requires Reading(nodes, splits, recursive, items, origins, stack, stackOrigins, None)
    requires var top := stack[|stack| - 1]; top.0 + top.1 in nodes && nodes[top.0 + top.1].FileNode?
    requires var top := stack[|stack| - 1];
             && items' == items + [(top.1, Some(nodes[top.0 + top.1].content))]
             && origins' == origins + [stackOrigins[|stack| - 1]]
             && stack' == stack[..|stack| - 1] && stackOrigins' == stackOrigins[..|stack| - 1]
    ensures Reading(nodes, splits, recursive, items', origins', stack', stackOrigins', None)
  {
    var top := stack[|stack| - 1];
    var x := (top.1, Some(nodes[top.0 + top.1].content));
    var n := |stack| - 1;
    ReadFileStep(nodes, splits, recursive, items, origins, stack, stackOrigins, items', origins', stack', stackOrigins');
    StackReachedPop(nodes, splits, items, origins, stack, x, stackOrigins[n], items', origins', stack');
    FirstReadYield(splits, items, origins, stack, stackOrigins, x, items', origins', stack', stackOrigins');
  }

  /** Raising an error for the top of the stack, for the reason `read_sources` gives, keeps the loop invariant. */
  lemma RaiseReading(nodes: map<string, Node>, splits: seq<(string, string)>, recursive: bool, items: seq<Entry>,
                     origins: seq<nat>, stack: seq<(string, string)>, stackOrigins: seq<nat>, e: CpError,
                     stack': seq<(string, string)>, stackOrigins': seq<nat>, err: Option<CpError>)
    requires stack != []
    requires Reading(nodes, splits, recursive, items, origins, stack, stackOrigins, None)
    requires !e.NotAFile? && e.path == stack[|stack| - 1].0 + stack[|stack| - 1].1
    requires e.RecursionNotAllowed? ==> !recursive && e.path in nodes && nodes[e.path].DirNode?
    requires e.NotFound? ==> e.path !in nodes
    requires stack' == stack[..|stack| - 1] && stackOrigins' == stackOrigins[..|stack| - 1] && err == Some(e)
    ensures Reading(nodes, splits, recursive, items, origins, stack', stackOrigins', err)
  {
    var n := |stack| - 1;
    StackedPop(splits, recursive, stack, stackOrigins);
    var origin := stackOrigins[n];
    assert e.path == splits[origin].0 + splits[origin].1 || e.NotFound?;
    assert ReachedPath(nodes, splits, items, origins, stack[n].0 + stack[n].1);
    FirstReadRaise(splits, items, origins, stack, stackOrigins, e);
  }

  /** The loop invariant holds before the first turn, with every split source on the stack. */
  lemma ReadingStart(nodes: map<string, Node>, splits: seq<(string, string)>, recursive: bool, stackOrigins: seq<nat>)
    requires stackOrigins == seq(|splits|, i requires 0 <= i < |splits| => i)
    ensures Reading(nodes, splits, recursive, [], [], splits, stackOrigins, None)
  {
    forall i | 0 <= i < |splits|
      ensures Pending(splits, stackOrigins, i, splits[i].1)
      ensures ReachedPath(nodes, splits, [], [], splits[i].0 + splits[i].1)
    {
      assert stackOrigins[i] == i;
    }
  }

  /** When the loop ends, its invariant gives what `read_sources` promises. */
  lemma ReadingDone(nodes: map<string, Node>, sources: seq<string>, recursive: bool,
                    items: seq<Entry>, origins: seq<nat>, stack: seq<(string, string)>, stackOrigins: seq<nat>,
                    err: Option<CpError>)
    requires Reading(nodes, SplitSources(sources), recursive, items, origins, stack, stackOrigins, err)
    requires stack == [] || err.Some?
    ensures ItemsRead(nodes, SplitSources(sources), recursive, items, origins)
    ensures err.None? ==> forall i :: 0 <= i < |sources| ==> Listed(items, origins, i, SplitSource(sources[i]).1)
    ensures err.None? ==> forall k :: 0 <= k < |items| && items[k].1.None? ==>
              forall sub :: sub in Listing(nodes[FullName(SplitSources(sources), items, origins, k)]) ==>
                Listed(items, origins, origins[k], items[k].0 + "/" + sub)
    ensures err.Some? ==> !err.value.NotAFile?
    ensures err.Some? && err.value.RecursionNotAllowed? ==>
              && !recursive && err.value.path in nodes && nodes[err.value.path].DirNode?
              && exists i :: 0 <= i < |sources| && err.value.path == SplitSource(sources[i]).0 + SplitSource(sources[i]).1
    ensures err.Some? && err.value.NotFound? ==>
              err.value.path !in nodes && ReachedPath(nodes, SplitSources(sources), items, origins, err.value.path)
  {
    var splits := SplitSources(sources);
    if err.None? {
      forall i | 0 <= i < |sources|
        ensures Listed(items, origins, i, SplitSource(sources[i]).1)
      {
        assert SplitSource(sources[i]) == splits[i];
      }
    }
  }

  /**
   * When the loop ends, the first entry is the last source, which is read
   * when it exists (and is a file unless recursive); no error is raised when
   * every source and every listed name exists and no source is a directory
   * unless recursive.
   */
  lemma ReadingOutcome(nodes: map<string, Node>, sources: seq<string>, recursive: bool,
                       items: seq<Entry>, origins: seq<nat>, stack: seq<(string, string)>, stackOrigins: seq<nat>,
                       err: Option<CpError>)
    requires ErrorSound(nodes, SplitSources(sources), recursive, items, origins, err)
    requires FirstRead(SplitSources(sources), items, origins, stack, stackOrigins, err)
    requires stack == [] || err.Some?
    ensures |items| > 0 ==> |sources| > 0 && items[0].0 == SplitSource(sources[|sources| - 1]).1 && origins[0] == |sources| - 1
    ensures (|sources| > 0 && SourcePath(sources[|sources| - 1]) in nodes
             && (recursive || !nodes[SourcePath(sources[|sources| - 1])].DirNode?)) ==>
              |items| > 0
    ensures SourcesReadable(nodes, sources, recursive) && ListingsPresent(nodes) ==> err.None?
  {
    var splits := SplitSources(sources);
    if SourcesReadable(nodes, sources, recursive) && ListingsPresent(nodes) && err.Some? && err.value.NotFound? {
      ReachedPresent(nodes, sources, recursive, items, origins, err.value.path);
    }
    if |sources| > 0 {
      assert splits[|sources| - 1] == SplitSource(sources[|sources| - 1]);
    }
  }

  /**
   * `read_sources(hfs, sources, recursive)`: the entries the generator
   * yields, in order, and the error that ended it, if any. `origins` says
   * which source each entry came from; entry names are relative to that
   * source's base directory (`SplitSources(sources)[i].0`).
   */
  method ReadSources(hfs: HybridFs, sources: seq<string>, recursive: bool)
    returns (items: seq<Entry>, err: Option<CpError>, ghost origins: seq<nat>)
    ensures ItemsRead(hfs.nodes, SplitSources(sources), recursive, items, origins)
    ensures err.None? ==> forall i :: 0 <= i < |sources| ==> Listed(items, origins, i, SplitSource(sources[i]).1)
    ensures err.None? ==> forall k :: 0 <= k < |items| && items[k].1.None? ==>
              forall sub :: sub in Listing(hfs.nodes[FullName(SplitSources(sources), items, origins, k)]) ==>
                Listed(items, origins, origins[k], items[k].0 + "/" + sub)
    ensures err.Some? ==> !err.value.NotAFile?
    ensures err.Some? && err.value.RecursionNotAllowed? ==>
              && !recursive && hfs.IsDir(err.value.path)
              && exists i :: 0 <= i < |sources| && err.value.path == SourcePath(sources[i])
    ensures err.Some? && err.value.NotFound? ==>
              err.value.path !in hfs.nodes && ReachedPath(hfs.nodes, SplitSources(sources), items, origins, err.value.path)
    ensures |items| > 0 ==> |sources| > 0 && items[0].0 == SplitSource(sources[|sources| - 1]).1 && origins[0] == |sources| - 1
    ensures (|sources| > 0 && SourcePath(sources[|sources| - 1]) in hfs.nodes
             && (recursive || !hfs.IsDir(SourcePath(sources[|sources| - 1])))) ==>
              |items| > 0
    ensures SourcesReadable(hfs.nodes, sources, recursive) && ListingsPresent(hfs.nodes) ==> err.None?
  {
    var stack;
    ghost var stackOrigins;
    stack, stackOrigins, items, origins, err := ReadLoop(hfs, SplitSources(sources), recursive);
    ReadingDone(hfs.nodes, sources, recursive, items, origins, stack, stackOrigins, err);
    ReadingOutcome(hfs.nodes, sources, recursive, items, origins, stack, stackOrigins, err);
  }

  /** The `while sources:` loop, from every split source on the stack until it empties or raises. */
  method ReadLoop(hfs: HybridFs, splits: seq<(string, string)>, recursive: bool)
    returns (stack: seq<(string, string)>, ghost stackOrigins: seq<nat>, items: seq<Entry>, ghost origins: seq<nat>,
             err: Option<CpError>)
    ensures Reading(hfs.nodes, splits, recursive, items, origins, stack, stackOrigins, err)
    ensures stack == [] || err.Some?
  {
    stack := splits;
    stackOrigins := seq(|splits|, i requires 0 <= i < |splits| => i);
    items, err, origins := [], None, [];
    ghost var bound := MaxLength(hfs.nodes.Keys);
    ReadingStart(hfs.nodes, splits, recursive, stackOrigins);
    while stack != [] && err.None?
      invariant Reading(hfs.nodes, splits, recursive, items, origins, stack, stackOrigins, err)
      decreases StackWeight(hfs.nodes, bound, stack)
    {
      stack, stackOrigins, items, origins, err := ReadStep(hfs, splits, recursive, stack, stackOrigins, items, origins, bound);
    }
  }

  // =====================================================================
  // Writing the entries read

  /** `name.partition("/")[2]`: the name without its first component. */
  function DropFirst(name: string): string
  {
    Partition(name, "/").2
  }

  /** Dropping the first component of `top/rest` leaves `rest`; a name without a slash becomes empty. */
  lemma DropFirstParts(top: string, rest: string)
    requires '/' !in top
    ensures DropFirst(top + "/" + rest) == rest
    ensures DropFirst(top) == ""
  {
    var s := top + "/" + rest;
    assert OccursAt(s, "/", |top|) by {
      assert s[|top|..|top| + 1] == "/";
    }
    forall k | 0 <= k < |top|
      ensures !OccursAt(s, "/", k)
    {
      assert s[k] == top[k];
    }
    var r := Partition(s, "/");
    assert Find(s, "/") == Some(|top|);
    assert s[|top| + 1..] == rest;
    forall k | 0 <= k
      ensures !OccursAt(top, "/", k)
    {
      if k + 1 <= |top| {
        assert top[k..k + 1][0] == top[k];
      }
    }
    assert Find(top, "/").None?;
  }

  /**
   * Under a common first component, a directory whose shortened name is a
   * prefix of another's shortened name was a prefix before shortening too.
   */
  lemma DropFirstPrefix(top: string, a: string, b: string)
    requires '/' !in top
    requires Under(a, top) && Under(b, top)
    requires DropFirst(a) + "/" <= DropFirst(b)
    ensures a + "/" <= b
  {
    var ra := if a == top then "" else a[|top| + 1..];
    var rb := if b == top then "" else b[|top| + 1..];
    assert a == top || a == top + "/" + ra;
    assert b == top || b == top + "/" + rb;
    DropFirstParts(top, ra);
    DropFirstParts(top, rb);
    if a != top && b != top {
      assert ra + "/" <= rb;
      assert a + "/" == top + "/" + (ra + "/");
    }
  }

  /** The action writing one entry into `destination`: a directory is made, a file's bytes written. */
  function EntryAction(destination: string, e: Entry, dropFirst: bool): FsAction
  {
    var name := if dropFirst then DropFirst(e.0) else e.0;
    if e.1.None? then MakeDirectory(destination + "/" + name) else Write(destination + "/" + name, e.1.value)
  }

  /** The actions writing `entries` into `destination`, in their order. */
  function EntryActions(destination: string, entries: seq<Entry>, dropFirst: bool): seq<FsAction>
  {
    seq(|entries|, k requires 0 <= k < |entries| => EntryAction(destination, entries[k], dropFirst))
  }

  /** `p + x` is a prefix of `p + y` only if `x` is a prefix of `y`. */
  lemma PrefixCancel(p: string, x: string, y: string)
    requires p + x <= p + y
    ensures x <= y
  {
    assert x == (p + x)[|p|..];
    assert y == (p + y)[|p|..];
  }

  /** Every entry read is written. */
  lemma EveryEntryWritten(destination: string, files: seq<Entry>, dropFirst: bool, e: Entry)
    requires e in files
    ensures EntryAction(destination, e, dropFirst) in EntryActions(destination, SortEntries(files), dropFirst)
  {
    var sorted := SortEntries(files);
    assert e in multiset(sorted);
    var k :| 0 <= k < |sorted| && sorted[k] == e;
    assert EntryActions(destination, sorted, dropFirst)[k] == EntryAction(destination, e, dropFirst);
  }

  /** Nothing but the entries read is written, and each is written once. */
  lemma OnlyEntriesWritten(destination: string, files: seq<Entry>, dropFirst: bool, k: nat)
    requires k < |EntryActions(destination, SortEntries(files), dropFirst)|
    ensures |EntryActions(destination, SortEntries(files), dropFirst)| == |files|
    ensures SortEntries(files)[k] in files
    ensures EntryActions(destination, SortEntries(files), dropFirst)[k] == EntryAction(destination, SortEntries(files)[k], dropFirst)
  {
    var sorted := SortEntries(files);
    assert |sorted| == |multiset(sorted)| == |multiset(files)| == |files|;
    assert sorted[k] in multiset(sorted);
  }

  /**
   * Directories are created before their contents: when a directory is made
   * at a path that is a prefix of another action's path, it comes first.
   */
  lemma DirectoriesFirst(destination: string, files: seq<Entry>, i: nat, j: nat)
    requires var r := EntryActions(destination, SortEntries(files), false);
             && i < |r| && j < |r| && r[i].MakeDirectory? && r[i].path + "/" <= r[j].path
    ensures i < j
  {
    var sorted := SortEntries(files);
    var r := EntryActions(destination, sorted, false);
    var p := destination + "/";
    assert r[i].path == p + sorted[i].0 && r[j].path == p + sorted[j].0;
    AppendAssoc(p, sorted[i].0, "/");
    PrefixCancel(p, sorted[i].0 + "/", sorted[j].0);
    ParentsFirst(sorted, i, j);
  }

  /**
   * The same holds when every entry lies under one directory `top` and the
   * first component is dropped from each name.
   */
  lemma DirectoriesFirstDropped(destination: string, files: seq<Entry>, top: string, i: nat, j: nat)
    requires '/' !in top
    requires forall e :: e in files ==> Under(e.0, top)
    requires var r := EntryActions(destination, SortEntries(files), true);
             && i < |r| && j < |r| && r[i].MakeDirectory? && r[i].path + "/" <= r[j].path
    ensures i < j
  {
    var sorted := SortEntries(files);
    var r := EntryActions(destination, sorted, true);
    var p := destination + "/";
    var a, b := sorted[i].0, sorted[j].0;
    assert r[i].path == p + DropFirst(a) && r[j].path == p + DropFirst(b);
    AppendAssoc(p, DropFirst(a), "/");
    PrefixCancel(p, DropFirst(a) + "/", DropFirst(b));
    assert sorted[i] in multiset(sorted) && sorted[j] in multiset(sorted);
    DropFirstPrefix(top, a, b);
    ParentsFirst(sorted, i, j);
  }

  /** `write_single_file_to_destination`: into a directory under the file's name, else to the destination itself. */
  method WriteSingleFileToDestination(hfs: HybridFs, file: (string, Bytes), destination: string)
    modifies hfs
    ensures hfs.nodes == old(hfs.nodes)
    ensures hfs.log == old(hfs.log) +
              [Write(if old(hfs.IsDir(destination)) then destination + "/" + file.0 else destination, file.1)]
  {
    var (filename, data) := file;
    if hfs.IsDir(destination) {
      hfs.WriteFile(destination + "/" + filename, data);
    } else {
      hfs.WriteFile(destination, data);
    }
  }

  /** `write_multiple_files_to_existing_directory`: every entry, in sorted order, under the destination. */
  method WriteMultipleFilesToExistingDirectory(hfs: HybridFs, files: seq<Entry>, destination: string)
    modifies hfs
    ensures hfs.nodes == old(hfs.nodes)
    ensures hfs.log == old(hfs.log) + EntryActions(destination, SortEntries(files), false)
  {
    var sorted := SortEntries(files);
    for k := 0 to |sorted|
      invariant hfs.nodes == old(hfs.nodes)
      invariant hfs.log == old(hfs.log) + EntryActions(destination, sorted[..k], false)
    {
      var (filename, data) := sorted[k];
      if data.None? {
        hfs.Mkdir(destination + "/" + filename);
      } else {
        hfs.WriteFile(destination + "/" + filename, data.value);
      }
      assert EntryActions(destination, sorted[..k + 1], false)
          == EntryActions(destination, sorted[..k], false) + [EntryAction(destination, sorted[k], false)];
    }
    assert sorted[..|sorted|] == sorted;
  }

  /**
   * `write_single_directory_to_non_existing_destination`: every entry, in
   * sorted order, under the destination with its first component dropped.
   */
  method WriteSingleDirectoryToNonExistingDestination(hfs: HybridFs, files: seq<Entry>, destination: string)
    modifies hfs
    ensures hfs.nodes == old(hfs.nodes)
    ensures hfs.log == old(hfs.log) + EntryActions(destination, SortEntries(files), true)
  {
    var sorted := SortEntries(files);
    for k := 0 to |sorted|
      invariant hfs.nodes == old(hfs.nodes)
      invariant hfs.log == old(hfs.log) + EntryActions(destination, sorted[..k], true)
    {
      var (filename, data) := sorted[k];
      filename := Partition(filename, "/").2;
      if data.None? {
        hfs.Mkdir(destination + "/" + filename);
      } else {
        hfs.WriteFile(destination + "/" + filename, data.value);
      }
      assert EntryActions(destination, sorted[..k + 1], true)
          == EntryActions(destination, sorted[..k], true) + [EntryAction(destination, sorted[k], true)];
    }
    assert sorted[..|sorted|] == sorted;
  }

  // =====================================================================
  // The command

  /** With one source, the first entry read is that source: a file entry exactly when the source is not a directory. */
  lemma SingleSourceFirst(nodes: map<string, Node>, sources: seq<string>, recursive: bool, items: seq<Entry>, origins: seq<nat>)
    requires |sources| == 1
    requires ItemsRead(nodes, SplitSources(sources), recursive, items, origins)
    requires |items| > 0 ==> |sources| > 0 && items[0].0 == SplitSource(sources[|sources| - 1]).1 && origins[0] == |sources| - 1
    ensures |items| > 0 ==> SourcePath(sources[0]) in nodes && (items[0].1.None? <==> nodes[SourcePath(sources[0])].DirNode?)
    ensures forall e :: e in items ==> Under(e.0, SplitSource(sources[0]).1)
  {
    var splits := SplitSources(sources);
    assert splits[0] == SplitSource(sources[0]);
    forall e | e in items
      ensures Under(e.0, SplitSource(sources[0]).1)
    {
      var k :| 0 <= k < |items| && items[k] == e;
    }
  }

  /**
   * `cp(hfs, sources, destination, recursive)`: read the sources, then write
   * one file, the contents of one directory, or every entry read into the
   * destination directory. Reading a single file stops at its first entry;
   * every other case reads all entries, and so raises before writing
   * anything.
   */
  method Cp(hfs: HybridFs, sources: seq<string>, destination: string, recursive: bool)
    returns (err: Option<CpError>, items: seq<Entry>, ghost origins: seq<nat>)
    modifies hfs
    ensures hfs.nodes == old(hfs.nodes)
    ensures ItemsRead(hfs.nodes, SplitSources(sources), recursive, items, origins)
    ensures |sources| == 1 && !hfs.IsDir(sources[0]) ==>
              if |items| == 0 then err.Some? && !err.value.NotAFile? && hfs.log == old(hfs.log)
              else if items[0].1.None? then err == Some(NotAFile(items[0].0)) && hfs.log == old(hfs.log)
              else err.None? && hfs.log == old(hfs.log) +
                     [Write(if hfs.IsDir(destination) then destination + "/" + items[0].0 else destination, items[0].1.value)]
    ensures !(|sources| == 1 && !hfs.IsDir(sources[0])) ==>
              && (err.Some? ==> !err.value.NotAFile? && hfs.log == old(hfs.log))
              && (err.None? ==> hfs.log == old(hfs.log) +
                                EntryActions(destination, SortEntries(items), |sources| == 1 && !hfs.IsDir(destination)))
              && (err.None? ==> forall i :: 0 <= i < |sources| ==> Listed(items, origins, i, SplitSource(sources[i]).1))
    ensures |sources| == 1 ==> forall e :: e in items ==> Under(e.0, SplitSource(sources[0]).1)
    ensures err.Some? && err.value.RecursionNotAllowed? ==>
              && !recursive && hfs.IsDir(err.value.path)
              && exists i :: 0 <= i < |sources| && err.value.path == SourcePath(sources[i])
    ensures err.Some? && err.value.NotFound? ==>
              err.value.path !in hfs.nodes && ReachedPath(hfs.nodes, SplitSources(sources), items, origins, err.value.path)
    ensures (|sources| == 1 && SourcePath(sources[0]) in hfs.nodes && !hfs.IsDir(SourcePath(sources[0]))) ==>
              |items| > 0 && items[0].0 == SplitSource(sources[0]).1 && items[0].1.Some?
    ensures (SourcesReadable(hfs.nodes, sources, recursive) && ListingsPresent(hfs.nodes)
             && (|sources| == 1 && !hfs.IsDir(sources[0]) ==> !hfs.IsDir(SourcePath(sources[0])))) ==>
              err.None?
  {
    var readErr;
    items, readErr, origins := ReadSources(hfs, sources, recursive);
    if |sources| == 1 {
      SingleSourceFirst(hfs.nodes, sources, recursive, items, origins);
    }
    if |sources| == 1 && !hfs.IsDir(sources[0]) {
      if |items| == 0 {
        err := readErr;
      } else if items[0].1.None? {
        err := Some(NotAFile(items[0].0));
      } else {
        WriteSingleFileToDestination(hfs, (items[0].0, items[0].1.value), destination);
        err := None;
      }
    } else if readErr.Some? {
      err := readErr;
    } else if |sources| == 1 && !hfs.IsDir(destination) {
      WriteSingleDirectoryToNonExistingDestination(hfs, items, destination);
      err := None;
    } else {
      WriteMultipleFilesToExistingDirectory(hfs, items, destination);
      err := None;
    }
  }
}
