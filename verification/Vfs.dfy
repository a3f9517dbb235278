/** Mount points and the resolution of paths to inodes. */
module Vfs {
  import opened Common
  import opened VfsPath

  type Inode = nat

  datatype Mount = Mount(path: string, root: Inode)

  // ---------------------------------------------------------------- mount points

  /** Mount `k` is the one for `path`: its path is a non-empty bytewise prefix, no other prefix is longer, and no
      earlier one is as long. */
  ghost predicate Best(ms: seq<Mount>, path: string, k: nat) {
    && k < |ms| && ms[k].path != [] && ms[k].path <= path
    && (forall j :: 0 <= j < |ms| && ms[j].path <= path ==> |ms[j].path| <= |ms[k].path|)
    && (forall j :: 0 <= j < k && ms[j].path <= path ==> |ms[j].path| < |ms[k].path|)
  }

  ghost predicate Covered(ms: seq<Mount>, path: string) {
    exists j :: 0 <= j < |ms| && ms[j].path != [] && ms[j].path <= path
  }

  /** The scan of `vfs_getmnt`: `best` is the best of the first `i` mounts. */
  function Candidate(ms: seq<Mount>, path: string, i: nat): (best: Option<nat>)
    requires i <= |ms|
    ensures best.Some? ==> Best(ms[..i], path, best.value)
    ensures best.None? ==> !Covered(ms[..i], path)
  {
    if i == 0 then None
    else
      var b := Candidate(ms, path, i - 1);
      assert ms[..i] == ms[..i - 1] + [ms[i - 1]];
      if ms[i - 1].path <= path && |ms[i - 1].path| > (if b.Some? then |ms[b.value].path| else 0) then Some(i - 1)
        else b
  }

  /** Mount root and path below it, or nothing. */
  function GetMnt(ms: seq<Mount>, path: string): Option<(Inode, string)> {
    match Candidate(ms, path, |ms|)
    case None => None
    case Some(k) => assert ms[..|ms|] == ms; Some((ms[k].root, path[|ms[k].path|..]))
  }

  /** The mount found is the only best one, and its path followed by the rest is the path. */
  lemma GetMntBest(ms: seq<Mount>, path: string, k: nat)
    ensures GetMnt(ms, path).None? <==> !Covered(ms, path)
    ensures Best(ms, path, k) ==>
      GetMnt(ms, path).Some? && GetMnt(ms, path).value.0 == ms[k].root && ms[k].path + GetMnt(ms, path).value.1 == path
  {
    assert ms[..|ms|] == ms;
    if Best(ms, path, k) && Candidate(ms, path, |ms|).Some? {
      var c := Candidate(ms, path, |ms|).value;
      assert ms[c].path <= path && ms[k].path <= path;
    }
  }

  /** Common prefix length of a mount path and a path. */
  method Match(m: string, path: string) returns (i: nat)
    requires |m| <= |path|
    ensures i <= |m| && m[..i] == path[..i] && (i == |m| <==> m <= path)
  {
    i := 0;
    while i < |m| && path[i] == m[i]
      invariant 0 <= i <= |m| && m[..i] == path[..i]
    {
      i := i + 1;
    }
  }

  /** A registered file system type and its mount callback: device and options to the root, or an error. */
  datatype FsType = FsType(name: string, mount: (string, nat) -> Result<Inode>)

  /** Index of the type called `fs`, or the number of types. */
  function TypeOf(ts: seq<FsType>, fs: string): (i: nat)
    ensures i <= |ts| && (i < |ts| ==> ts[i].name == fs) && forall j :: 0 <= j < i ==> ts[j].name != fs
  {
    TypeFrom(ts, fs, 0)
  }

  function TypeFrom(ts: seq<FsType>, fs: string, k: nat): (i: nat)
    requires k <= |ts|
    ensures k <= i <= |ts| && (i < |ts| ==> ts[i].name == fs) && forall j :: k <= j < i ==> ts[j].name != fs
    decreases |ts| - k
  {
    if k == |ts| || ts[k].name == fs then k else TypeFrom(ts, fs, k + 1)
  }

  lemma TypeOfUnique(ts: seq<FsType>, fs: string, i: nat)
    requires i <= |ts| && (i < |ts| ==> ts[i].name == fs) && forall j :: 0 <= j < i ==> ts[j].name != fs
    ensures TypeOf(ts, fs) == i
  {}

  class Mounts {
    var mounts: seq<Mount>
    var types: seq<FsType>

    constructor ()
      ensures mounts == [] && types == []
    {
      mounts, types := [], [];
    }

    /** `vfs_register_fs`, into a table of 64. */
    method RegisterFs(fs: string, mount: (string, nat) -> Result<Inode>)
      requires |types| < 64
      modifies this`types
      ensures types == old(types) + [FsType(fs, mount)]
    {
      types := types + [FsType(fs, mount)];
    }

    /** `vfs_getmnt`. */
    method Get(path: string) returns (r: Option<(Inode, string)>)
      ensures r == GetMnt(mounts, path)
    {
      var candidate: Option<nat> := None;
      var match_ := 0;
      var n := 0;
      while n < |mounts|
        invariant 0 <= n <= |mounts| && candidate == Candidate(mounts, path, n)
        invariant candidate.Some? ==> candidate.value < |mounts|
        invariant match_ == if candidate.Some? then |mounts[candidate.value].path| else 0
      {
        var mount := mounts[n];
        if |mount.path| <= |path| {
          var i := Match(mount.path, path);
          if i > match_ && path[..i] == mount.path {
            candidate, match_ := Some(n), i;
          }
        }
        n := n + 1;
      }
      if candidate.None? { return None; }
      return Some((mounts[candidate.value].root, path[match_..]));
    }

    /** `vfs_mount_fs`: the first type registered under the name mounts the device; the mount goes to the end of the
        list.  Unknown names and failures of the callback leave the list alone. */
    method MountFs(dev: string, mnt: string, fs: string, data: nat) returns (r: Result<()>)
      modifies this`mounts
      ensures var i := TypeOf(types, fs);
        if i == |types| then r == Err(ENODEV) && mounts == old(mounts)
        else match types[i].mount(dev, data)
          case Err(e) => r == Err(e) && mounts == old(mounts)
          case Ok(root) => r == Ok(()) && mounts == old(mounts) + [Mount(mnt, root)]
    {
      var i := 0;
      while i < |types|
        invariant 0 <= i <= |types| && mounts == old(mounts) && forall j :: 0 <= j < i ==> types[j].name != fs
      {
        if types[i].name == fs {
          TypeOfUnique(types, fs, i);
          var m := types[i].mount(dev, data);
          if m.Err? { return Err(m.error); }
          mounts := mounts + [Mount(mnt, m.value)];
          return Ok(());
        }
        i := i + 1;
      }
      TypeOfUnique(types, fs, i);
      return Err(ENODEV);
    }

    /** `vfs_umount_fs`: the earliest mount at the path goes. */
    method UmountFs(path: string) returns (ok: bool)
      modifies this
      ensures ok == (FirstAt(old(mounts), path) < |old(mounts)|)
      ensures mounts == Unmounted(old(mounts), path)
    {
      var i := 0;
      while i < |mounts|
        invariant 0 <= i <= |mounts| && mounts == old(mounts)
        invariant forall j :: 0 <= j < i ==> mounts[j].path != path
      {
        if mounts[i].path == path {
          FirstAtUnique(mounts, path, i);
          mounts := mounts[..i] + mounts[i + 1..];
          return true;
        }
        i := i + 1;
      }
      FirstAtUnique(mounts, path, i);
      return false;
    }
  }

  /** A registration adds its own name, unless that is taken, and leaves every other alone. */
  lemma RegisteredFound(ts: seq<FsType>, t: FsType, fs: string)
    ensures TypeOf(ts + [t], fs) ==
      if TypeOf(ts, fs) < |ts| then TypeOf(ts, fs) else if fs == t.name then |ts| else |ts| + 1
  {
    var i := TypeOf(ts, fs);
    TypeOfUnique(ts + [t], fs, if i < |ts| then i else if fs == t.name then |ts| else |ts| + 1);
  }

  /** The callback of a new name does the mounting; a name that was taken goes on with the callback it had. */
  method RegisterThenMount(m: Mounts, fs: string, mount: (string, nat) -> Result<Inode>, dev: string, mnt: string,
                           data: nat) returns (r: Result<()>)
    requires |m.types| < 64
    modifies m
    ensures var i := TypeOf(old(m.types), fs);
      match if i < |old(m.types)| then old(m.types)[i].mount(dev, data) else mount(dev, data)
      case Err(e) => r == Err(e) && m.mounts == old(m.mounts)
      case Ok(root) => r == Ok(()) && m.mounts == old(m.mounts) + [Mount(mnt, root)]
  {
    RegisteredFound(m.types, FsType(fs, mount), fs);
    m.RegisterFs(fs, mount);
    r := m.MountFs(dev, mnt, fs, data);
  }

  function FirstAt(ms: seq<Mount>, path: string): (i: nat)
    ensures i <= |ms| && (i < |ms| ==> ms[i].path == path) && forall j :: 0 <= j < i ==> ms[j].path != path
  {
    FirstAtFrom(ms, path, 0)
  }

  function FirstAtFrom(ms: seq<Mount>, path: string, k: nat): (i: nat)
    requires k <= |ms|
    ensures k <= i <= |ms| && (i < |ms| ==> ms[i].path == path) && forall j :: k <= j < i ==> ms[j].path != path
    decreases |ms| - k
  {
    if k == |ms| || ms[k].path == path then k else FirstAtFrom(ms, path, k + 1)
  }

  lemma FirstAtUnique(ms: seq<Mount>, path: string, i: nat)
    requires i <= |ms| && (i < |ms| ==> ms[i].path == path) && forall j :: 0 <= j < i ==> ms[j].path != path
    ensures FirstAt(ms, path) == i
  {}

  /** The list without mount `i`, if there is one. */
  function Removed(ms: seq<Mount>, i: nat): seq<Mount> {
    if i < |ms| then ms[..i] + ms[i + 1..] else ms
  }

  function Unmounted(ms: seq<Mount>, path: string): seq<Mount> { Removed(ms, FirstAt(ms, path)) }

  lemma RemovedAt(ms: seq<Mount>, m: Mount, i: nat)
    requires i <= |ms|
    ensures Removed(ms + [m], i) == if i == |ms| then ms else ms[..i] + ms[i + 1..] + [m]
  {}

  lemma FirstAtAppended(ms: seq<Mount>, m: Mount)
    ensures FirstAt(ms + [m], m.path) == FirstAt(ms, m.path)
  {
    var i := FirstAt(ms, m.path);
    assert i == |ms| ==> (ms + [m])[i] == m;
    FirstAtUnique(ms + [m], m.path, i);
  }

  /** Mounting at an unused path and unmounting it again restores the list; at a path in use it is the older mount
      that goes. */
  lemma MountUmount(ms: seq<Mount>, m: Mount)
    ensures var i := FirstAt(ms, m.path);
      Unmounted(ms + [m], m.path) == if i == |ms| then ms else ms[..i] + ms[i + 1..] + [m]
  {
    FirstAtAppended(ms, m);
    RemovedAt(ms, m, FirstAt(ms, m.path));
  }

  /** The list after a mount at the path of mount `i` is undone. */
  function Replaced(ms: seq<Mount>, i: nat, m: Mount): (r: seq<Mount>)
    requires i < |ms|
    ensures |r| == |ms| && r[|ms| - 1] == m
    ensures forall j :: 0 <= j < |ms| - 1 ==> r[j] == ms[if j < i then j else j + 1]
  {
    ms[..i] + ms[i + 1..] + [m]
  }

  /** In it the next mount at that path takes the place of mount `i`. */
  function NextAt(ms: seq<Mount>, i: nat, m: Mount): (n: nat)
    requires i < |ms| && ms[i].path == m.path
    ensures i <= n < |ms| && Replaced(ms, i, m)[n].path == m.path
    ensures forall j :: i <= j < n ==> Replaced(ms, i, m)[j].path != m.path
  {
    FirstAtFrom(Replaced(ms, i, m), m.path, i)
  }

  /** Where the mount at `j` of the new list was, or what has its path. */
  function CameFrom(ms: seq<Mount>, i: nat, j: nat): nat
    requires i < |ms|
  {
    if j == |ms| - 1 then i else if j < i then j else j + 1
  }

  lemma ReplacedPath(ms: seq<Mount>, i: nat, m: Mount, j: nat)
    requires i < |ms| && ms[i].path == m.path && j < |ms|
    ensures CameFrom(ms, i, j) < |ms| && Replaced(ms, i, m)[j].path == ms[CameFrom(ms, i, j)].path
  {}

  lemma SamePrefix(a: string, b: string, path: string)
    requires a <= path && b <= path && |a| == |b|
    ensures a == b
  {}

  /** Where the best mount for a path is in the new list. */
  function MovedTo(ms: seq<Mount>, i: nat, m: Mount, k: nat): (n: nat)
    requires i < |ms| && ms[i].path == m.path && k < |ms|
    ensures n < |ms| && Replaced(ms, i, m)[n].path == ms[k].path
    ensures k != i ==> Replaced(ms, i, m)[n].root == ms[k].root
  {
    if k < i then k else if k == i then NextAt(ms, i, m) else k - 1
  }

  lemma ReplacedBest(ms: seq<Mount>, i: nat, m: Mount, path: string, k: nat)
    requires i == FirstAt(ms, m.path) < |ms| && Best(ms, path, k)
    ensures Best(Replaced(ms, i, m), path, MovedTo(ms, i, m, k))
  {
    var r, n := Replaced(ms, i, m), MovedTo(ms, i, m, k);
    forall j | 0 <= j < |r| && r[j].path <= path
      ensures |r[j].path| <= |r[n].path| && (j < n ==> |r[j].path| < |r[n].path|)
    {
      ReplacedPath(ms, i, m, j);
      if |r[j].path| == |r[n].path| {
        SamePrefix(r[j].path, r[n].path, path);
      }
    }
  }

  lemma ReplacedCovered(ms: seq<Mount>, i: nat, m: Mount, path: string)
    requires i == FirstAt(ms, m.path) < |ms| && !Covered(ms, path)
    ensures !Covered(Replaced(ms, i, m), path)
  {
    var r := Replaced(ms, i, m);
    forall j | 0 <= j < |r| ensures r[j].path == [] || !(r[j].path <= path) {
      ReplacedPath(ms, i, m, j);
    }
  }

  lemma SomeBest(ms: seq<Mount>, path: string) returns (k: nat)
    requires Covered(ms, path)
    ensures Best(ms, path, k)
  {
    assert ms[..|ms|] == ms;
    k := Candidate(ms, path, |ms|).value;
  }

  /** When undoing a mount leaves every path where it was: the path was unused or never matches, or the mount that now
      answers for it has the same root as the one that went. */
  predicate Undone(ms: seq<Mount>, m: Mount) {
    var i := FirstAt(ms, m.path);
    m.path == [] || i == |ms| || Replaced(ms, i, m)[NextAt(ms, i, m)].root == ms[i].root
  }

  /** Mounting and unmounting restores the mount point of every path exactly then. */
  lemma MountUmountRestores(ms: seq<Mount>, m: Mount)
    ensures Undone(ms, m) <==> forall path :: GetMnt(Unmounted(ms + [m], m.path), path) == GetMnt(ms, path)
  {
    var i := FirstAt(ms, m.path);
    MountUmount(ms, m);
    if i < |ms| && Undone(ms, m) {
      UndoneKeeps(ms, i, m);
    } else if i < |ms| {
      NotUndone(ms, m, i);
    }
  }

  lemma UndoneKeeps(ms: seq<Mount>, i: nat, m: Mount)
    requires i == FirstAt(ms, m.path) < |ms| && Undone(ms, m)
    ensures forall path :: GetMnt(Replaced(ms, i, m), path) == GetMnt(ms, path)
  {
    forall path ensures GetMnt(Replaced(ms, i, m), path) == GetMnt(ms, path) {
      ReplacedMnt(ms, i, m, path);
    }
  }

  /** Otherwise the path itself has changed its mount. */
  lemma NotUndone(ms: seq<Mount>, m: Mount, i: nat)
    requires i == FirstAt(ms, m.path) < |ms| && !Undone(ms, m)
    ensures GetMnt(Replaced(ms, i, m), m.path) != GetMnt(ms, m.path)
  {
    assert Best(ms, m.path, i);
    ReplacedBest(ms, i, m, m.path, i);
    BestMnt(ms, m.path, i);
    BestMnt(Replaced(ms, i, m), m.path, NextAt(ms, i, m));
  }

  lemma BestMnt(ms: seq<Mount>, path: string, k: nat)
    requires Best(ms, path, k)
    ensures GetMnt(ms, path) == Some((ms[k].root, path[|ms[k].path|..]))
  {
    GetMntBest(ms, path, k);
  }

  lemma ReplacedMnt(ms: seq<Mount>, i: nat, m: Mount, path: string)
    requires i == FirstAt(ms, m.path) < |ms| && Undone(ms, m)
    ensures GetMnt(Replaced(ms, i, m), path) == GetMnt(ms, path)
  {
    if Covered(ms, path) {
      var k := SomeBest(ms, path);
      ReplacedBest(ms, i, m, path, k);
      BestMnt(ms, path, k);
      BestMnt(Replaced(ms, i, m), path, MovedTo(ms, i, m, k));
    } else {
      ReplacedCovered(ms, i, m, path);
      GetMntBest(ms, path, 0);
      GetMntBest(Replaced(ms, i, m), path, 0);
    }
  }

  /** Resolution depends on the mount list only through the mount points it gives. */
  lemma {:induction false} ResolveByMounts(fs: Fs, ms: seq<Mount>, ms': seq<Mount>, path: string, links: bool,
    depth: nat)
    requires forall p :: GetMnt(ms', p) == GetMnt(ms, p)
    ensures Resolve(fs, ms', path, links, depth) == Resolve(fs, ms, path, links, depth)
    decreases if depth < 8 then 8 - depth else 0
  {
    if depth < 8 && GetMnt(ms, path).Some? {
      var (root, relat) := GetMnt(ms, path).value;
      var w := Walk(fs, root, Split(relat), links);
      if w.Follow? {
        ResolveByMounts(fs, ms, ms', w.path, true, depth + 1);
      }
    }
  }

  /** So then every path resolves as before. */
  lemma MountUmountResolves(fs: Fs, ms: seq<Mount>, m: Mount, path: string, links: bool, depth: nat)
    requires Undone(ms, m)
    ensures Resolve(fs, Unmounted(ms + [m], m.path), path, links, depth) == Resolve(fs, ms, path, links, depth)
  {
    MountUmountRestores(ms, m);
    ResolveByMounts(fs, ms, Unmounted(ms + [m], m.path), path, links, depth);
  }

  /** Mounting hides what was there below the mount path and nothing else: a path is resolved in the new file system
      exactly when the mount path is a longer prefix of it than any mount before. */
  lemma MountHides(ms: seq<Mount>, m: Mount, path: string)
    ensures GetMnt(ms + [m], path) ==
      (if m.path != [] && m.path <= path &&
        (forall j :: 0 <= j < |ms| && ms[j].path <= path ==> |ms[j].path| < |m.path|)
       then Some((m.root, path[|m.path|..])) else GetMnt(ms, path))
  {
    var ns, n := ms + [m], |ms|;
    CandidateKept(ms, m, path, n);
    assert ms[..n] == ms;
    var b := Candidate(ms, path, n);
    if b.Some? {
      assert ms[b.value].path <= path;
    }
  }

  lemma {:induction false} CandidateKept(ms: seq<Mount>, m: Mount, path: string, i: nat)
    requires i <= |ms|
    ensures Candidate(ms + [m], path, i) == Candidate(ms, path, i)
  {
    if i > 0 {
      CandidateKept(ms, m, path, i - 1);
      assert (ms + [m])[i - 1] == ms[i - 1];
    }
  }

  /** The prefix is one of bytes: what is resolved below the mount are the components behind those of the mount path
      exactly when the rest is empty or a slash stands on the border. */
  lemma PrefixOfBytes(ms: seq<Mount>, path: string, k: nat)
    requires Best(ms, path, k)
    ensures var m, rest := ms[k].path, path[|ms[k].path|..];
      && GetMnt(ms, path) == Some((ms[k].root, rest))
      && (Split(path) == Split(m) + Split(rest) <==> rest == [] || rest[0] == SLASH || m[|m| - 1] == SLASH)
  {
    var m, rest := ms[k].path, path[|ms[k].path|..];
    GetMntBest(ms, path, k);
    assert path == m + rest;
    SplitAtBorder(m, rest);
  }

  /** A mount at "/mnt" takes "/mntx", which is no component below it. */
  lemma PrefixExample(root: Inode, other: Inode)
    ensures var ms := [Mount("/", root), Mount("/mnt", other)];
      GetMnt(ms, "/mntx") == Some((other, "x")) && Split("/mntx") != Split("/mnt") + Split("x")
  {
    var ms := [Mount("/", root), Mount("/mnt", other)];
    assert "/mnt" <= "/mntx" && "/mntx"[4..] == "x";
    assert Best(ms, "/mntx", 1);
    PrefixOfBytes(ms, "/mntx", 1);
  }

  // ---------------------------------------------------------------- resolving paths

  datatype Kind = Dir | Link | Other
  datatype Error = ENOENT | ENODEV | ENOTDIR | EACCES | ELOOP | EOther(code: nat)
  datatype Result<T> = Ok(value: T) | Err(error: Error)

  /** What the file systems and the caller's permissions answer. */
  datatype Fs = Fs(kind: Inode -> Kind, readable: Inode -> bool, lookup: (Inode, string) -> Result<Inode>,
    target: Inode -> string)

  /** A walk ends at an inode, at a link to follow, or with an error. */
  datatype Walked = At(inode: Inode) | Follow(path: string) | Failed(error: Error)

  /** The components one after the other; `links` says whether links are followed. */
  function Walk(fs: Fs, file: Inode, ts: seq<string>, links: bool): Walked
    decreases |ts|
  {
    if ts == [] then At(file)
    else if !fs.kind(file).Dir? then Failed(ENOTDIR)
    else if !fs.readable(file) then Failed(EACCES)
    else match fs.lookup(file, ts[0])
      case Err(e) => Failed(e)
      case Ok(next) => if fs.kind(next).Link? && links then Follow(fs.target(next)) else Walk(fs, next, ts[1..], links)
  }

  /** `do_vfs_resolve`. */
  function Resolve(fs: Fs, ms: seq<Mount>, path: string, links: bool, depth: nat): Result<Inode>
    decreases if depth < 8 then 8 - depth else 0
  {
    if depth >= 8 then Err(ELOOP)
    else match GetMnt(ms, path)
      case None => Err(ENOENT)
      case Some((root, relat)) =>
        match Walk(fs, root, Split(relat), links)
        case At(i) => Ok(i)
        case Failed(e) => Err(e)
        case Follow(target) => Resolve(fs, ms, target, true, depth + 1)
  }

  /** `get_parent_dir`: the directory of the last component, no link followed and its own permission not asked. */
  function Parent(fs: Fs, ms: seq<Mount>, path: string): Result<(Inode, string)> {
    match GetMnt(ms, path)
    case None => Err(ENOENT)
    case Some((root, relat)) =>
      var ts := Split(relat);
      if ts == [] then Err(ENOENT)
      else match Walk(fs, root, ts[..|ts| - 1], false)
        case At(i) => if fs.kind(i).Dir? then Ok((i, ts[|ts| - 1])) else Err(ENOTDIR)
        case Failed(e) => Err(e)
        case Follow(_) => Err(ENOENT)
  }

  /** No component leads to a link. */
  ghost predicate LinkFree(fs: Fs, file: Inode, ts: seq<string>)
    decreases |ts|
  {
    ts != [] && fs.lookup(file, ts[0]).Ok? ==>
      !fs.kind(fs.lookup(file, ts[0]).value).Link? && LinkFree(fs, fs.lookup(file, ts[0]).value, ts[1..])
  }

  lemma {:induction false} WalkLinkFree(fs: Fs, file: Inode, ts: seq<string>, links: bool)
    requires LinkFree(fs, file, ts)
    ensures Walk(fs, file, ts, links) == Walk(fs, file, ts, false) && !Walk(fs, file, ts, links).Follow?
    decreases |ts|
  {
    if ts != [] && fs.lookup(file, ts[0]).Ok? {
      WalkLinkFree(fs, fs.lookup(file, ts[0]).value, ts[1..], links);
    }
  }

  lemma {:induction false} WalkAppend(fs: Fs, file: Inode, ts: seq<string>, us: seq<string>, links: bool)
    ensures Walk(fs, file, ts + us, links) ==
      match Walk(fs, file, ts, links) case At(i) => Walk(fs, i, us, links) case w => w
    decreases |ts|
  {
    if ts == [] {
      assert ts + us == us;
    } else {
      assert (ts + us)[1..] == ts[1..] + us;
      if fs.lookup(file, ts[0]).Ok? {
        WalkAppend(fs, fs.lookup(file, ts[0]).value, ts[1..], us, links);
      }
    }
  }

  /** The walk comes to component `i` and can pass it: it stands in a readable directory whose entry is there and is no
      link to follow. */
  ghost predicate Passes(fs: Fs, file: Inode, ts: seq<string>, links: bool, i: nat)
    requires i < |ts|
  {
    var w := Walk(fs, file, ts[..i], links);
    && w.At? && fs.kind(w.inode).Dir? && fs.readable(w.inode) && fs.lookup(w.inode, ts[i]).Ok?
    && !(links && fs.kind(fs.lookup(w.inode, ts[i]).value).Link?)
  }

  /** It comes to component `i` and fails there with `e`: not in a directory, not allowed to read it, or the lookup. */
  ghost predicate FailsAt(fs: Fs, file: Inode, ts: seq<string>, links: bool, i: nat, e: Error)
    requires i < |ts|
  {
    var w := Walk(fs, file, ts[..i], links);
    && w.At?
    && (if !fs.kind(w.inode).Dir? then e == ENOTDIR
        else if !fs.readable(w.inode) then e == EACCES
        else fs.lookup(w.inode, ts[i]) == Err(e))
  }

  ghost predicate SomeFails(fs: Fs, file: Inode, ts: seq<string>, links: bool, e: Error) {
    exists i :: 0 <= i < |ts| && FailsAt(fs, file, ts, links, i, e)
  }

  /** It comes to component `i` and finds a link there that it follows to `target`. */
  ghost predicate FollowsAt(fs: Fs, file: Inode, ts: seq<string>, links: bool, i: nat, target: string)
    requires i < |ts|
  {
    var w := Walk(fs, file, ts[..i], links);
    && links && w.At? && fs.kind(w.inode).Dir? && fs.readable(w.inode) && fs.lookup(w.inode, ts[i]).Ok?
    && var x := fs.lookup(w.inode, ts[i]).value; fs.kind(x).Link? && target == fs.target(x)
  }

  lemma WalkStep(fs: Fs, file: Inode, ts: seq<string>, links: bool, i: nat)
    requires i < |ts|
    ensures var w, w' := Walk(fs, file, ts[..i], links), Walk(fs, file, ts[..i + 1], links);
      && (w'.At? <==> Passes(fs, file, ts, links, i))
      && (w'.At? ==> fs.lookup(w.inode, ts[i]) == Ok(w'.inode))
      && (w.At? ==> forall e :: w' == Failed(e) <==> FailsAt(fs, file, ts, links, i, e))
      && (w.At? ==> forall p :: w' == Follow(p) <==> FollowsAt(fs, file, ts, links, i, p))
      && (!w.At? ==> w' == w)
  {
    assert ts[..i + 1] == ts[..i] + [ts[i]];
    WalkAppend(fs, file, ts[..i], [ts[i]], links);
    assert [ts[i]][1..] == [];
  }

  lemma {:induction false} WalkUpto(fs: Fs, file: Inode, ts: seq<string>, links: bool, i: nat, n: nat)
    requires i <= n <= |ts|
    ensures Walk(fs, file, ts[..n], links).At? ==> Walk(fs, file, ts[..i], links).At?
    ensures !Walk(fs, file, ts[..i], links).At? ==> Walk(fs, file, ts[..n], links) == Walk(fs, file, ts[..i], links)
    decreases n - i
  {
    if i < n {
      WalkUpto(fs, file, ts, links, i, n - 1);
      WalkStep(fs, file, ts, links, n - 1);
    }
  }

  /** A walk arrives exactly when it passes every component, so only through directories that may be read. */
  lemma WalkArrives(fs: Fs, file: Inode, ts: seq<string>, links: bool)
    ensures Walk(fs, file, ts, links).At? <==> forall i :: 0 <= i < |ts| ==> Passes(fs, file, ts, links, i)
  {
    var n := |ts|;
    assert ts[..n] == ts;
    if Walk(fs, file, ts, links).At? {
      forall i | 0 <= i < n ensures Passes(fs, file, ts, links, i) {
        WalkUpto(fs, file, ts, links, i + 1, n);
        WalkStep(fs, file, ts, links, i);
      }
    } else if n > 0 {
      var i := StopOf(fs, file, ts, links, n);
      WalkStep(fs, file, ts, links, i);
    }
  }

  /** It fails with an error exactly when it comes to a component that fails with that error. */
  lemma WalkFails(fs: Fs, file: Inode, ts: seq<string>, links: bool, e: Error)
    ensures Walk(fs, file, ts, links) == Failed(e) <==> SomeFails(fs, file, ts, links, e)
  {
    var n := |ts|;
    assert ts[..n] == ts;
    if Walk(fs, file, ts, links) == Failed(e) {
      var i := StopOf(fs, file, ts, links, n);
      WalkStep(fs, file, ts, links, i);
    }
    forall i | 0 <= i < n && FailsAt(fs, file, ts, links, i, e) ensures Walk(fs, file, ts, links) == Failed(e) {
      WalkStep(fs, file, ts, links, i);
      WalkUpto(fs, file, ts, links, i + 1, n);
    }
  }

  /** And it follows a link exactly when it comes to one, links being followed. */
  lemma WalkFollows(fs: Fs, file: Inode, ts: seq<string>, links: bool, p: string)
    ensures Walk(fs, file, ts, links) == Follow(p) <==>
      exists i :: 0 <= i < |ts| && FollowsAt(fs, file, ts, links, i, p)
  {
    var n := |ts|;
    assert ts[..n] == ts;
    if Walk(fs, file, ts, links) == Follow(p) {
      var i := StopOf(fs, file, ts, links, n);
      WalkStep(fs, file, ts, links, i);
    }
    forall i | 0 <= i < n && FollowsAt(fs, file, ts, links, i, p) ensures Walk(fs, file, ts, links) == Follow(p) {
      WalkStep(fs, file, ts, links, i);
      WalkUpto(fs, file, ts, links, i + 1, n);
    }
  }

  /** A walk that does not arrive stops at one component. */
  lemma {:induction false} StopOf(fs: Fs, file: Inode, ts: seq<string>, links: bool, n: nat) returns (i: nat)
    requires n <= |ts| && !Walk(fs, file, ts[..n], links).At?
    ensures i < n && Walk(fs, file, ts[..i], links).At?
    ensures Walk(fs, file, ts[..i + 1], links) == Walk(fs, file, ts[..n], links)
    decreases n
  {
    assert ts[..0] == [];
    if Walk(fs, file, ts[..n - 1], links).At? {
      i := n - 1;
    } else {
      WalkStep(fs, file, ts, links, n - 1);
      i := StopOf(fs, file, ts, links, n - 1);
    }
  }

  /** What that means for a path: within the limit on links, resolving fails as its walk does; without a mount it finds
      nothing. */
  lemma ResolveFails(fs: Fs, ms: seq<Mount>, path: string, links: bool, depth: nat, e: Error)
    requires depth < 8 && GetMnt(ms, path).Some?
    requires var (root, relat) := GetMnt(ms, path).value; SomeFails(fs, root, Split(relat), links, e)
    ensures Resolve(fs, ms, path, links, depth) == Err(e)
  {
    var (root, relat) := GetMnt(ms, path).value;
    WalkFails(fs, root, Split(relat), links, e);
  }

  /** The directory of `get_parent_dir`: found exactly when the walk passes all components but the last and ends in a
      directory; of that one no permission is asked. */
  lemma ParentFound(fs: Fs, ms: seq<Mount>, path: string, dir: Inode, name: string)
    ensures Parent(fs, ms, path) == Ok((dir, name)) <==>
      && GetMnt(ms, path).Some?
      && var (root, relat) := GetMnt(ms, path).value; var ts := Split(relat); var n := |ts| - 1;
        && n >= 0 && name == ts[n] && Walk(fs, root, ts[..n], false) == At(dir) && fs.kind(dir).Dir?
        && forall i :: 0 <= i < n ==> Passes(fs, root, ts[..n], false, i)
  {
    if GetMnt(ms, path).Some? {
      var (root, relat) := GetMnt(ms, path).value;
      var ts := Split(relat);
      if ts != [] {
        WalkArrives(fs, root, ts[..|ts| - 1], false);
      }
    }
  }

  /** It is refused exactly when the walk over these is. */
  lemma ParentRefused(fs: Fs, ms: seq<Mount>, path: string)
    ensures Parent(fs, ms, path) == Err(EACCES) <==>
      && GetMnt(ms, path).Some?
      && var (root, relat) := GetMnt(ms, path).value; var ts := Split(relat);
        ts != [] && SomeFails(fs, root, ts[..|ts| - 1], false, EACCES)
  {
    if GetMnt(ms, path).Some? {
      var (root, relat) := GetMnt(ms, path).value;
      var ts := Split(relat);
      if ts != [] {
        WalkFails(fs, root, ts[..|ts| - 1], false, EACCES);
      }
    }
  }

  /** Without links on the way and with permission to read every directory, resolving a path is looking its last
      component up in the directory that `get_parent_dir` finds; when that fails, resolving fails alike. */
  lemma ResolveIsLookupInParent(fs: Fs, ms: seq<Mount>, path: string, links: bool, depth: nat)
    requires depth < 8 && GetMnt(ms, path).Some? && Split(GetMnt(ms, path).value.1) != []
    requires LinkFree(fs, GetMnt(ms, path).value.0, Split(GetMnt(ms, path).value.1)) && forall i :: fs.readable(i)
    ensures Resolve(fs, ms, path, links, depth) ==
      match Parent(fs, ms, path) case Ok((dir, name)) => fs.lookup(dir, name) case Err(e) => Err(e)
  {
    var (root, relat) := GetMnt(ms, path).value;
    var ts := Split(relat);
    var n := |ts| - 1;
    WalkLinkFree(fs, root, ts, links);
    assert ts == ts[..n] + [ts[n]];
    WalkAppend(fs, root, ts[..n], [ts[n]], false);
    NeverFollows(fs, root, ts[..n]);
  }

  lemma {:induction false} NeverFollows(fs: Fs, file: Inode, ts: seq<string>)
    ensures !Walk(fs, file, ts, false).Follow?
    decreases |ts|
  {
    if ts != [] && fs.lookup(file, ts[0]).Ok? {
      NeverFollows(fs, fs.lookup(file, ts[0]).value, ts[1..]);
    }
  }

  /** The components behind a link are not looked at: any others in their place resolve to the same. */
  lemma RemainderDropped(fs: Fs, file: Inode, ts: seq<string>, us: seq<string>, vs: seq<string>)
    requires Walk(fs, file, ts, true).Follow?
    ensures Walk(fs, file, ts + us, true) == Walk(fs, file, ts + vs, true) == Walk(fs, file, ts, true)
  {
    WalkAppend(fs, file, ts, us, true);
    WalkAppend(fs, file, ts, vs, true);
  }

  /** The components behind the link that a walk follows. */
  function Behind(fs: Fs, file: Inode, ts: seq<string>, links: bool): seq<string>
    requires Walk(fs, file, ts, links).Follow?
    decreases |ts|
  {
    var next := fs.lookup(file, ts[0]).value;
    if fs.kind(next).Link? && links then ts[1..] else Behind(fs, next, ts[1..], links)
  }

  /** The resolution that goes on with the components behind a followed link. */
  function FullResolve(fs: Fs, ms: seq<Mount>, path: string, links: bool, depth: nat): Result<Inode>
    decreases if depth < 8 then 8 - depth else 0
  {
    if depth >= 8 then Err(ELOOP)
    else match GetMnt(ms, path)
      case None => Err(ENOENT)
      case Some((root, relat)) =>
        match Walk(fs, root, Split(relat), links)
        case At(i) => Ok(i)
        case Failed(e) => Err(e)
        case Follow(target) =>
          FullResolve(fs, ms, target + Slashed(Behind(fs, root, Split(relat), links)), true, depth + 1)
  }

  /** Every link that is followed is the last component of its path. */
  ghost predicate LinksLast(fs: Fs, ms: seq<Mount>, path: string, links: bool, depth: nat)
    decreases if depth < 8 then 8 - depth else 0
  {
    depth < 8 && GetMnt(ms, path).Some? ==>
      var (root, relat) := GetMnt(ms, path).value;
      var w := Walk(fs, root, Split(relat), links);
      w.Follow? ==>
        Behind(fs, root, Split(relat), links) == [] && LinksLast(fs, ms, w.path, true, depth + 1)
  }

  /** Then nothing is dropped: `do_vfs_resolve` resolves the whole path. */
  lemma {:induction false} ResolvesFully(fs: Fs, ms: seq<Mount>, path: string, links: bool, depth: nat)
    requires LinksLast(fs, ms, path, links, depth)
    ensures Resolve(fs, ms, path, links, depth) == FullResolve(fs, ms, path, links, depth)
    decreases if depth < 8 then 8 - depth else 0
  {
    if depth < 8 && GetMnt(ms, path).Some? {
      var (root, relat) := GetMnt(ms, path).value;
      var w := Walk(fs, root, Split(relat), links);
      if w.Follow? {
        assert w.path + [] == w.path;
        ResolvesFully(fs, ms, w.path, true, depth + 1);
      }
    }
  }

  /** Below the root `0`: a link `l` to the directory `d`, which has the entry `x`. */
  ghost predicate LinkToDir(fs: Fs, l: string, d: string, x: string) {
    && fs.lookup(0, l) == Ok(1) && fs.lookup(0, d) == Ok(2) && fs.lookup(2, x) == Ok(3)
    && fs.kind(0).Dir? && fs.kind(1).Link? && fs.target(1) == "/" + d && fs.kind(2).Dir? && !fs.kind(3).Link?
    && fs.readable(0) && fs.readable(2)
  }

  /** Otherwise it need not: there the path "/l/x" resolves to the directory and not to the entry in it. */
  lemma DroppedExample(fs: Fs, ms: seq<Mount>, l: string, d: string, x: string)
    requires ms == [Mount("/", 0)] && Name(l) && Name(d) && Name(x) && LinkToDir(fs, l, d, x)
    ensures Resolve(fs, ms, "/" + (l + "/" + x), true, 0) == Ok(2)
    ensures FullResolve(fs, ms, "/" + (l + "/" + x), true, 0) == Ok(3)
  {
    LinkStep(fs, ms, l, d, x, "/" + (l + "/" + x), "/" + (d + "/" + x));
    DirStep(fs, ms, l, d, x, "/" + d);
    EntryStep(fs, ms, l, d, x, "/" + (d + "/" + x));
  }

  lemma LinkStep(fs: Fs, ms: seq<Mount>, l: string, d: string, x: string, path: string, full: string)
    requires ms == [Mount("/", 0)] && Name(l) && Name(x) && LinkToDir(fs, l, d, x)
    requires path == "/" + (l + "/" + x) && full == "/" + (d + "/" + x)
    ensures Resolve(fs, ms, path, true, 0) == Resolve(fs, ms, "/" + d, true, 1)
    ensures FullResolve(fs, ms, path, true, 0) == FullResolve(fs, ms, full, true, 1)
  {
    RootPath(ms, path, l + "/" + x);
    TwoNames(l, x);
    WalkToLink(fs, l, d, x, [l, x]);
    WithRest(d, x, "/" + d, full);
    Followed(fs, ms, path, 0, l + "/" + x, "/" + d, [x], full);
  }

  lemma WalkToLink(fs: Fs, l: string, d: string, x: string, ts: seq<string>)
    requires LinkToDir(fs, l, d, x) && ts == [l, x]
    ensures Walk(fs, 0, ts, true) == Follow("/" + d) && Behind(fs, 0, ts, true) == [x]
  {}

  lemma WithRest(d: string, x: string, target: string, full: string)
    requires target == "/" + d && full == "/" + (d + "/" + x)
    ensures target + Slashed([x]) == full
  {
    assert Slashed([x]) == Slashed([]) + "/" + x;
  }

  lemma DirStep(fs: Fs, ms: seq<Mount>, l: string, d: string, x: string, path: string)
    requires ms == [Mount("/", 0)] && Name(d) && LinkToDir(fs, l, d, x) && path == "/" + d
    ensures Resolve(fs, ms, path, true, 1) == Ok(2)
  {
    RootPath(ms, path, d);
    SplitOne(d);
    assert [d][1..] == [];
    Reached(fs, ms, path, 1, 0, d, 2);
  }

  lemma EntryStep(fs: Fs, ms: seq<Mount>, l: string, d: string, x: string, path: string)
    requires ms == [Mount("/", 0)] && Name(d) && Name(x) && LinkToDir(fs, l, d, x) && path == "/" + (d + "/" + x)
    ensures FullResolve(fs, ms, path, true, 1) == Ok(3)
  {
    RootPath(ms, path, d + "/" + x);
    TwoNames(d, x);
    assert [d, x][1..] == [x] && [x][1..] == [];
    assert Walk(fs, 2, [x], true) == At(3);
    Reached(fs, ms, path, 1, 0, d + "/" + x, 3);
  }

  lemma Followed(fs: Fs, ms: seq<Mount>, path: string, root: Inode, relat: string, target: string, rest: seq<string>,
                 full: string)
    requires GetMnt(ms, path) == Some((root, relat)) && Walk(fs, root, Split(relat), true) == Follow(target)
    requires Behind(fs, root, Split(relat), true) == rest && target + Slashed(rest) == full
    ensures Resolve(fs, ms, path, true, 0) == Resolve(fs, ms, target, true, 1)
    ensures FullResolve(fs, ms, path, true, 0) == FullResolve(fs, ms, full, true, 1)
  {}

  lemma Reached(fs: Fs, ms: seq<Mount>, path: string, depth: nat, root: Inode, relat: string, i: Inode)
    requires depth < 8 && GetMnt(ms, path) == Some((root, relat)) && Walk(fs, root, Split(relat), true) == At(i)
    ensures Resolve(fs, ms, path, true, depth) == FullResolve(fs, ms, path, true, depth) == Ok(i)
  {}

  lemma RootPath(ms: seq<Mount>, path: string, relat: string)
    requires |ms| == 1 && ms[0].path == "/" && path == "/" + relat
    ensures GetMnt(ms, path) == Some((ms[0].root, relat))
  {
    assert Best(ms, path, 0);
    GetMntBest(ms, path, 0);
  }

  lemma TwoNames(a: string, b: string)
    requires Name(a) && Name(b)
    ensures Split(a + "/" + b) == [a, b]
  {
    SplitSlashed(a, b);
    SplitOne(a);
    SplitOne(b);
  }

  lemma {:induction false} WalkEndsOffLink(fs: Fs, file: Inode, ts: seq<string>)
    requires Walk(fs, file, ts, true).At? && ts != []
    ensures !fs.kind(Walk(fs, file, ts, true).inode).Link?
    decreases |ts|
  {
    if |ts| > 1 {
      WalkEndsOffLink(fs, fs.lookup(file, ts[0]).value, ts[1..]);
    }
  }

  /** Following links, a path never resolves to a link, if the roots of the mounts are directories. */
  lemma {:induction false} ResolvesOffLinks(fs: Fs, ms: seq<Mount>, path: string, depth: nat)
    requires forall k :: 0 <= k < |ms| ==> fs.kind(ms[k].root).Dir?
    ensures Resolve(fs, ms, path, true, depth).Ok? ==> !fs.kind(Resolve(fs, ms, path, true, depth).value).Link?
    decreases if depth < 8 then 8 - depth else 0
  {
    if depth < 8 && GetMnt(ms, path).Some? {
      var (root, relat) := GetMnt(ms, path).value;
      var w := Walk(fs, root, Split(relat), true);
      if w.Follow? {
        ResolvesOffLinks(fs, ms, w.path, depth + 1);
      } else if w.At? && Split(relat) != [] {
        WalkEndsOffLink(fs, root, Split(relat));
      } else {
        assert ms[..|ms|] == ms;
      }
    }
  }

  /** Of a chain of links, each of which leads to the next, up to seven are followed. */
  lemma {:induction false} ChainResolves(fs: Fs, ms: seq<Mount>, paths: seq<string>, end: Inode, depth: nat)
    requires paths != [] && depth <= 8 && forall i :: 0 <= i < |paths| ==> Leads(fs, ms, paths, end, i)
    ensures Resolve(fs, ms, paths[0], true, depth) == if |paths| + depth <= 8 then Ok(end) else Err(ELOOP)
    decreases 8 - depth
  {
    assert Leads(fs, ms, paths, end, 0);
    if depth < 8 && |paths| > 1 {
      var rest := paths[1..];
      forall i | 0 <= i < |rest| ensures Leads(fs, ms, rest, end, i) {
        assert Leads(fs, ms, paths, end, i + 1);
      }
      ChainResolves(fs, ms, rest, end, depth + 1);
    }
  }

  /** Path `i` of the chain leads to a link to the next, the last one to `end`. */
  ghost predicate Leads(fs: Fs, ms: seq<Mount>, paths: seq<string>, end: Inode, i: nat)
    requires i < |paths|
  {
    && GetMnt(ms, paths[i]).Some?
    && var (root, relat) := GetMnt(ms, paths[i]).value;
      Walk(fs, root, Split(relat), true) == if i + 1 < |paths| then Follow(paths[i + 1]) else At(end)
  }

  /** A path that leads to a link to itself is refused after eight rounds. */
  lemma {:induction false} SelfLinkLoops(fs: Fs, ms: seq<Mount>, path: string, depth: nat)
    requires GetMnt(ms, path).Some?
    requires Walk(fs, GetMnt(ms, path).value.0, Split(GetMnt(ms, path).value.1), true) == Follow(path)
    ensures Resolve(fs, ms, path, true, depth) == Err(ELOOP)
    decreases if depth < 8 then 8 - depth else 0
  {
    if depth < 8 {
      SelfLinkLoops(fs, ms, path, depth + 1);
    }
  }

  // ---------------------------------------------------------------- the loops

  /** The loop of `get_parent_dir` from a directory with components left. */
  function ParentFrom(fs: Fs, file: Inode, ts: seq<string>): Result<(Inode, string)>
    requires ts != []
    decreases |ts|
  {
    if !fs.kind(file).Dir? then Err(ENOTDIR)
    else if |ts| == 1 then Ok((file, ts[0]))
    else if !fs.readable(file) then Err(EACCES)
    else match fs.lookup(file, ts[0])
      case Err(e) => Err(e)
      case Ok(next) => ParentFrom(fs, next, ts[1..])
  }

  lemma {:induction false} ParentFromWalk(fs: Fs, file: Inode, ts: seq<string>)
    requires ts != []
    ensures ParentFrom(fs, file, ts) ==
      match Walk(fs, file, ts[..|ts| - 1], false)
      case At(i) => if fs.kind(i).Dir? then Ok((i, ts[|ts| - 1])) else Err(ENOTDIR)
      case Failed(e) => Err(e)
      case Follow(_) => Err(ENOENT)
    decreases |ts|
  {
    if |ts| > 1 && fs.lookup(file, ts[0]).Ok? {
      assert ts[..|ts| - 1][1..] == ts[1..][..|ts| - 2];
      ParentFromWalk(fs, fs.lookup(file, ts[0]).value, ts[1..]);
    }
  }

  /** `get_parent_dir`. */
  method GetParentDir(fs: Fs, m: Mounts, path: string) returns (r: Result<(Inode, string)>)
    requires NUL !in path
    ensures r == Parent(fs, m.mounts, path)
  {
    var g := m.Get(path);
    if g.None? { return Err(ENOENT); }
    var (root, relat) := g.value;
    var a := new char[|relat| + 1];
    Strcpy(a, relat);
    assert a[..][0..|relat|] == relat;
    r := ParentTokens(fs, root, a, |relat|);
    if Split(relat) != [] {
      ParentFromWalk(fs, root, Split(relat));
    }
  }

  method ParentTokens(fs: Fs, root: Inode, a: array<char>, ghost n: nat) returns (r: Result<(Inode, string)>)
    requires CString(a[..], 0, n)
    modifies a
    ensures var ts := Split(old(a[..])[0..n]); r == if ts == [] then Err(ENOENT) else ParentFrom(fs, root, ts)
  {
    var file := root;
    ghost var t, u, b;
    var token, next, save;
    ghost var ts := Split(a[..][0..n]);
    token, save, t := Strtok(a, 0, n);
    if token.None? { return Err(ENOENT); }
    b := a[..];
    ghost var p := save;
    next, save, u := Strtok(a, save, n);
    Kept(b, a[..], token.value, t, p, n, next, save, u);
    ghost var all := ParentFrom(fs, root, ts);
    while next.Some?
      invariant token.Some? && CString(a[..], save, n) && TokenAt(a[..], token.value, t)
      invariant next.Some? ==> TokenAt(a[..], next.value, u) && (next.value + |u| < save || save == n)
      invariant all == ParentFrom(fs, file, [t] + (if next.Some? then [u] + Split(a[..][save..n]) else []))
      decreases next.Some?, n - save
    {
      ghost var rest := [u] + Split(a[..][save..n]);
      assert ([t] + rest)[0] == t && ([t] + rest)[1..] == rest;
      if !fs.kind(file).Dir? { return Err(ENOTDIR); }
      if !fs.readable(file) { return Err(EACCES); }
      var name := TokenText(a, token.value, t);
      var d := fs.lookup(file, name);
      if d.Err? { return Err(d.error); }
      file, token, t := d.value, next, u;
      b, p := a[..], save;
      next, save, u := Strtok(a, save, n);
      Kept(b, a[..], token.value, t, p, n, next, save, u);
    }
    if !fs.kind(file).Dir? { return Err(ENOTDIR); }
    var name := TokenText(a, token.value, t);
    return Ok((file, name));
  }

  /** A token ending before the saved position survives the next call. */
  lemma Kept(b: seq<char>, c: seq<char>, k: nat, t: string, p: nat, n: nat, next: Option<nat>, save: nat, u: string)
    requires HoldsAt(b, k, t, p, n) && if next.Some? then NextToken(b, c, p, n, next.value, save, u) else c == b
    ensures TokenAt(c, k, t)
  {
    if next.Some? {
      HoldsNext(b, c, [k], [t], p, n, next.value, save, u);
      assert HoldsAt(c, [k][0], [t][0], save, n);
    }
  }

  /** `do_vfs_resolve`, tokenising the path below the mount in place. */
  method DoResolve(fs: Fs, m: Mounts, path: string, links: bool, depth: nat) returns (r: Result<Inode>)
    requires NUL !in path && forall i :: NUL !in fs.target(i)
    ensures r == Resolve(fs, m.mounts, path, links, depth)
    decreases if depth < 8 then 8 - depth else 0
  {
    if depth >= 8 { return Err(ELOOP); }
    var g := m.Get(path);
    if g.None? { return Err(ENOENT); }
    var (root, relat) := g.value;
    var a := new char[|relat| + 1];
    Strcpy(a, relat);
    assert a[..][0..|relat|] == relat;
    var w := WalkTokens(fs, root, a, |relat|, links);
    match w
    case At(i) => return Ok(i);
    case Failed(e) => return Err(e);
    case Follow(target) => r := DoResolve(fs, m, target, true, depth + 1);
  }

  method WalkTokens(fs: Fs, root: Inode, a: array<char>, ghost n: nat, links: bool) returns (w: Walked)
    requires CString(a[..], 0, n)
    modifies a
    ensures w == Walk(fs, root, Split(old(a[..])[0..n]), links)
    ensures w.Follow? ==> exists i :: w.path == fs.target(i)
  {
    ghost var all := Walk(fs, root, Split(a[..][0..n]), links);
    var file := root;
    ghost var t;
    var token, save;
    token, save, t := Strtok(a, 0, n);
    while token.Some?
      invariant CString(a[..], save, n) && (token.Some? ==> TokenAt(a[..], token.value, t))
      invariant all == Walk(fs, file, if token.Some? then [t] + Split(a[..][save..n]) else [], links)
      decreases token.Some?, n - save
    {
      ghost var ts := [t] + Split(a[..][save..n]);
      assert ts[0] == t && ts[1..] == Split(a[..][save..n]);
      if !fs.kind(file).Dir? { return Failed(ENOTDIR); }
      if !fs.readable(file) { return Failed(EACCES); }
      var name := TokenText(a, token.value, t);
      var d := fs.lookup(file, name);
      if d.Err? { return Failed(d.error); }
      file := d.value;
      if fs.kind(file).Link? && links {
        return Follow(fs.target(file));
      }
      token, save, t := Strtok(a, save, n);
    }
    return At(file);
  }
}
