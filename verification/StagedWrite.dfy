/** The staged file write: checks, parents, touch, backup, then a temporary file that replaces the target.

    The disk keeps a record of every state it has been in, so that a statement about
    all recorded states is a statement about stopping at any point. Every
    system call may fail; how each ends is given by a plan. */
module StagedWrite {
  import opened Wrappers

  type Path = seq<string>

  datatype Node = File(content: string) | Folder

  type Disk = map<Path, Node>

  /** Ways a call can end: as asked, with a PermissionError, with another OSError, or with an exception of
      another kind such as an encoding error. */
  datatype Ending = Fine | NoPermission | OsError | Other

  datatype TouchEnding = Touched | AlreadyThere(content: string) | Denied | TouchFailed

  datatype Plan = Plan(
    append: Ending,              // opening the existing target for appending
    folders: nat, mkdir: Ending, // parents created before mkdir ends
    touch: TouchEnding,
    copied: nat, backup: Ending, // characters copied to the backup before the copy ends
    openTmp: Ending, written: nat, writeTmp: Ending,
    swap: Ending, removed: bool)

  datatype Options = Options(atomic: bool, backup: bool, createParents: bool, overwrite: bool)

  datatype Outcome = Written(size: nat) | Refused(code: string)

  function Parent(p: Path): Path {
    if p == [] then [] else p[..|p| - 1]
  }

  function Sibling(p: Path, suffix: string): Path
    requires p != []
  {
    Parent(p) + [p[|p| - 1] + suffix]
  }

  function Take(s: string, n: nat): (r: string)
    ensures r <= s
  {
    if n <= |s| then s[..n] else s
  }

  // ---- the disk ----

  class FileSystem {
    var nodes: Disk
    ghost var past: seq<Disk>

    constructor (nodes: Disk)
      ensures this.nodes == nodes && past == []
    {
      this.nodes, past := nodes, [];
    }

    method Put(p: Path, node: Node)
      modifies this
      ensures nodes == old(nodes)[p := node] && past == old(past) + [nodes]
    {
      nodes := nodes[p := node];
      past := past + [nodes];
    }

    /** `os.replace`: the source's node becomes the target's, in one step. */
    method Move(from: Path, to: Path)
      requires from in nodes && from != to
      modifies this
      ensures nodes == (old(nodes) - {from})[to := old(nodes)[from]] && past == old(past) + [nodes]
    {
      nodes := (nodes - {from})[to := nodes[from]];
      past := past + [nodes];
    }

    method Remove(p: Path)
      modifies this
      ensures nodes == old(nodes) - {p} && past == old(past) + [nodes]
    {
      nodes := nodes - {p};
      past := past + [nodes];
    }
  }

  // ---- the walk up to the first existing parent ----

  datatype ChainCheck = ChainCheck(ok: bool, first: Option<Path>, missing: seq<Path>)

  /** p[..n] exists, or is the root, and nothing between it and p does. */
  ghost predicate NearestExisting(nodes: Disk, p: Path, n: nat) {
    n <= |p| && (n == 0 || p[..n] in nodes) && forall k :: n < k <= |p| ==> p[..k] !in nodes
  }

  ghost predicate IsFirstExisting(nodes: Disk, p: Path, n: nat, first: Option<Path>) {
    NearestExisting(nodes, p, n) && first == (if p[..n] in nodes then Some(p[..n]) else None)
  }

  /** The check passes iff the nearest existing ancestor, if there is one, is writable: the second loop, over
      the missing levels, never finds anything more. */
  method CheckParentWriteChain(nodes: Disk, path: Path, writable: Path -> bool) returns (r: ChainCheck, ghost n: nat)
    ensures IsFirstExisting(nodes, Parent(path), n, r.first)
    ensures r.ok <==> (r.first.Some? ==> writable(r.first.value))
    ensures |r.missing| == |Parent(path)| - n
    ensures forall k :: 0 <= k < |r.missing| ==> r.missing[k] == Parent(path)[..|Parent(path)| - k]
  {
    var current, missing := Parent(path), [];
    n := |current|;
    assert Parent(path)[..n] == current;
    while current !in nodes && current != []
      invariant n == |current| <= |Parent(path)| && current == Parent(path)[..n]
      invariant forall k :: n < k <= |Parent(path)| ==> Parent(path)[..k] !in nodes
      invariant |missing| == |Parent(path)| - n
      invariant forall k :: 0 <= k < |missing| ==> missing[k] == Parent(path)[..|Parent(path)| - k]
      decreases |current|
    {
      missing := missing + [current];
      current := Parent(current);
      n := n - 1;
      assert Parent(path)[..n + 1][..n] == Parent(path)[..n];
    }
    var first := if current in nodes then Some(current) else None;
    if current in nodes && !writable(current) {
      return ChainCheck(false, first, missing), n;
    }
    var j := |missing|;
    while j > 0
      invariant 0 <= j <= |missing|
    {
      j := j - 1;
      var above := Parent(missing[j]);
      assert above == Parent(path)[..|Parent(path)| - j - 1] by {
        assert missing[j] == Parent(path)[..|Parent(path)| - j];
      }
      if above in nodes && !writable(above) {
        assert |Parent(path)| - j - 1 == n;
        return ChainCheck(false, first, missing), n;
      }
    }
    return ChainCheck(true, first, missing), n;
  }

  // ---- what may be seen at any point ----

  /** One write: the disk before it, its target with the two sibling names, what is written and how, and
      how the touch of a new target ends. */
  datatype Job = Job(
    before: Disk, path: Path, tmp: Path, bak: Path, content: string, atomic: bool, touch: TouchEnding)

  /** Contents the write may leave in the target: all of it, or when writing directly any beginning. */
  predicate NewContent(j: Job, s: string) {
    if j.atomic then s == j.content else s <= j.content
  }

  /** The target at one point: an existing one holds its old content or new content; a new one is absent,
      empty as touched, holds new content, or is what another process has just created there. */
  ghost predicate TargetSafe(j: Job, now: Disk) {
    if j.path in j.before then
      j.path in now &&
      (now[j.path] == j.before[j.path] ||
       (j.before[j.path].File? && now[j.path].File? && NewContent(j, now[j.path].content)))
    else
      j.path in now ==>
        now[j.path].File? &&
        (now[j.path].content == "" || NewContent(j, now[j.path].content) ||
         (j.touch.AlreadyThere? && now[j.path].content == j.touch.content))
  }

  /** Apart from the target, its temporary file and its backup, nothing changes except that missing
      parents of the target appear as folders. */
  ghost predicate RestSafe(j: Job, now: Disk) {
    forall p :: p != j.path && p != j.tmp && p != j.bak ==>
      (p in j.before ==> p in now && now[p] == j.before[p]) &&
      (p in now && p !in j.before ==> now[p] == Folder && p < j.path)
  }

  ghost predicate Safe(j: Job, now: Disk) {
    TargetSafe(j, now) && RestSafe(j, now)
  }

  ghost predicate AllSafe(j: Job, states: seq<Disk>) {
    forall k :: 0 <= k < |states| ==> Safe(j, states[k])
  }

  /** Two disks that differ only in the nodes of the given paths. */
  ghost predicate SameBut(a: Disk, b: Disk, except: set<Path>) {
    forall p :: p !in except ==> (p in a <==> p in b) && (p in a ==> a[p] == b[p])
  }

  /** Whatever happens to the temporary file and the backup is safe. */
  lemma SideFilesAreSafe(j: Job, now: Disk, later: Disk)
    requires Apart(j) && Safe(j, now) && SameBut(now, later, {j.tmp, j.bak})
    ensures Safe(j, later)
  {
  }

  lemma AllSafeAppend(j: Job, states: seq<Disk>, now: Disk)
    requires AllSafe(j, states) && Safe(j, now)
    ensures AllSafe(j, states + [now])
  {
  }

  /** The sibling names are neither the target, nor each other, nor folders above it. */
  ghost predicate Apart(j: Job) {
    j.path != [] && j.tmp != j.path && j.bak != j.path && j.tmp != j.bak && !(j.tmp < j.path) && !(j.bak < j.path)
  }

  lemma SiblingsDiffer(path: Path, pid: string, unique: string)
    requires path != []
    ensures var tmp, bak := Sibling(path, ".tmp." + pid), Sibling(path, ".bak." + unique);
            tmp != path && bak != path && tmp != bak && !(tmp < path) && !(bak < path)
  {
    var name, n := path[|path| - 1], |path| - 1;
    var tmp, bak := Sibling(path, ".tmp." + pid), Sibling(path, ".bak." + unique);
    assert tmp[n] == name + (".tmp." + pid) && bak[n] == name + (".bak." + unique);
    assert |tmp[n]| > |name| && |bak[n]| > |name|;
    assert tmp[n][|name| + 1] == 't' && bak[n][|name| + 1] == 'b';
  }

  // ---- when a write succeeds ----

  /** The chain of missing folders can be made: it hangs on a writable folder and the plan lets it finish. */
  ghost predicate ChainCanBeMade(nodes: Disk, parent: Path, plan: Plan, writable: Path -> bool, n: nat) {
    NearestExisting(nodes, parent, n) && parent[..n] in nodes && nodes[parent[..n]] == Folder &&
    writable(parent[..n]) && n + plan.folders >= |parent| && plan.mkdir == Fine
  }

  /** A new target can come into being. */
  ghost predicate CanBeMade(nodes: Disk, path: Path, options: Options, plan: Plan, writable: Path -> bool) {
    writable(Parent(path)) && (plan.touch.Touched? || plan.touch.AlreadyThere?) &&
    if Parent(path) in nodes then nodes[Parent(path)] == Folder
    else options.createParents && exists n: nat :: ChainCanBeMade(nodes, Parent(path), plan, writable, n)
  }

  /** Backup and content go through. */
  predicate CanBeWritten(nodes: Disk, tmp: Path, options: Options, plan: Plan) {
    (options.backup ==> plan.backup == Fine) && plan.openTmp == Fine && plan.writeTmp == Fine &&
    (options.atomic ==> plan.swap == Fine && !(tmp in nodes && nodes[tmp] == Folder))
  }

  lemma NearestIsUnique(nodes: Disk, p: Path, m: nat, n: nat)
    requires NearestExisting(nodes, p, m) && NearestExisting(nodes, p, n)
    ensures m == n
  {
  }

  /** The chain to be made is the one that hangs on the nearest existing ancestor. */
  lemma ChainIsNearest(nodes: Disk, p: Path, n: nat, plan: Plan, writable: Path -> bool)
    requires NearestExisting(nodes, p, n)
    ensures (exists m: nat :: ChainCanBeMade(nodes, p, plan, writable, m)) <==> ChainCanBeMade(nodes, p, plan, writable, n)
  {
    if exists m: nat :: ChainCanBeMade(nodes, p, plan, writable, m) {
      var m: nat :| ChainCanBeMade(nodes, p, plan, writable, m);
      NearestIsUnique(nodes, p, m, n);
    }
  }

  // ---- the stages ----

  /** Only folders above the path may differ. */
  ghost predicate SameExceptFolders(a: Disk, b: Disk, path: Path) {
    forall p :: !(p < path) ==> (p in a <==> p in b) && (p in a ==> a[p] == b[p])
  }

  ghost predicate MissingBelow(nodes: Disk, p: Path, k: nat) {
    forall i :: k < i <= |p| ==> p[..i] !in nodes
  }

  lemma FolderStep(j: Job, start: Disk, now: Disk, folder: Path)
    requires Safe(j, now) && SameExceptFolders(start, now, j.path) && j.path !in j.before && j.path !in now
    requires folder < j.path && folder !in now
    ensures var later := now[folder := Folder];
            Safe(j, later) && SameExceptFolders(start, later, j.path) && j.path !in later
  {
  }

  lemma OneLessMissing(nodes: Disk, p: Path, k: nat)
    requires MissingBelow(nodes, p, k) && k < |p|
    ensures p[..k + 1] !in nodes && MissingBelow(nodes[p[..k + 1] := Folder], p, k + 1)
  {
    forall i | k + 1 < i <= |p| ensures p[..i] !in nodes[p[..k + 1] := Folder] {
      assert |p[..i]| != |p[..k + 1]|;
    }
  }

  method MakeFolder(fs: FileSystem, ghost j: Job, ghost start: Disk, path: Path, k: nat)
    requires j.path == path && path != [] && path !in j.before && k < |Parent(path)|
    requires Safe(j, fs.nodes) && AllSafe(j, fs.past) && SameExceptFolders(start, fs.nodes, path) && path !in fs.nodes
    requires MissingBelow(fs.nodes, Parent(path), k)
    modifies fs
    ensures Safe(j, fs.nodes) && AllSafe(j, fs.past) && SameExceptFolders(start, fs.nodes, path) && path !in fs.nodes
    ensures MissingBelow(fs.nodes, Parent(path), k + 1)
    ensures Parent(path)[..k + 1] in fs.nodes && fs.nodes[Parent(path)[..k + 1]] == Folder
  {
    var folder := Parent(path)[..k + 1];
    assert folder < path;
    OneLessMissing(fs.nodes, Parent(path), k);
    FolderStep(j, start, fs.nodes, folder);
    ghost var states := fs.past;
    fs.Put(folder, Folder);
    AllSafeAppend(j, states, fs.nodes);
  }

  /** `mkdir(parents=True)`: the missing folders appear one by one from the top; it stops early when
      what it starts from is no folder or the plan says so. */
  method MakeFolders(fs: FileSystem, ghost j: Job, path: Path, first: Option<Path>, count: nat, ghost n: nat)
    returns (complete: bool)
    requires j.path == path && path != [] && path !in j.before && fs.nodes == j.before && fs.past == []
    requires IsFirstExisting(fs.nodes, Parent(path), n, first)
    modifies fs
    ensures Safe(j, fs.nodes) && AllSafe(j, fs.past) && path !in fs.nodes
    ensures complete ==> Parent(path) in fs.nodes && fs.nodes[Parent(path)] == Folder
    ensures complete <==> first.Some? && old(fs.nodes)[first.value] == Folder && n + count >= |Parent(path)|
    ensures SameExceptFolders(old(fs.nodes), fs.nodes, path)
  {
    if first.None? || fs.nodes[first.value] != Folder {
      return false;
    }
    var parent, k, made := Parent(path), |first.value|, 0;
    while k < |parent| && made < count
      invariant n <= k <= |parent| && made == k - n <= count
      invariant Safe(j, fs.nodes) && AllSafe(j, fs.past) && path !in fs.nodes
      invariant SameExceptFolders(old(fs.nodes), fs.nodes, path)
      invariant parent[..k] in fs.nodes && fs.nodes[parent[..k]] == Folder && MissingBelow(fs.nodes, parent, k)
    {
      MakeFolder(fs, j, old(fs.nodes), path, k);
      k, made := k + 1, made + 1;
    }
    assert parent[..|parent|] == parent;
    return k == |parent|;
  }

  /** Step 2 where the parent is missing: check the chain, then make it. */
  method MakeParents(fs: FileSystem, ghost j: Job, path: Path, plan: Plan, writable: Path -> bool)
    returns (refused: Option<string>)
    requires j.path == path && path != [] && path !in j.before && fs.nodes == j.before && fs.past == []
    requires Parent(path) !in fs.nodes
    modifies fs
    ensures Safe(j, fs.nodes) && AllSafe(j, fs.past) && path !in fs.nodes
    ensures SameExceptFolders(old(fs.nodes), fs.nodes, path)
    ensures refused.None? ==> Parent(path) in fs.nodes && fs.nodes[Parent(path)] == Folder
    ensures refused.None? <==> exists n: nat :: ChainCanBeMade(old(fs.nodes), Parent(path), plan, writable, n)
    ensures refused.Some? ==> forall n: nat :: NearestExisting(old(fs.nodes), Parent(path), n) ==>
              refused.value == if plan.mkdir == NoPermission ||
                                  (Parent(path)[..n] in old(fs.nodes) && !writable(Parent(path)[..n]))
                               then "API_403" else "API_500"
  {
    var check;
    ghost var n;
    check, n := CheckParentWriteChain(fs.nodes, path, writable);
    ChainIsNearest(fs.nodes, Parent(path), n, plan, writable);
    if !check.ok {
      return Some("API_403");
    }
    var complete := MakeFolders(fs, j, path, check.first, plan.folders, n);
    if !complete || plan.mkdir != Fine {
      return Some(if plan.mkdir == NoPermission then "API_403" else "API_500");
    }
    return None;
  }

  /** Step 3: the touch that brings a new target into being, or finds that another process did. */
  method Touch(fs: FileSystem, ghost j: Job, path: Path, touch: TouchEnding) returns (refused: Option<string>)
    requires j.path == path && path !in j.before && j.touch == touch
    requires Safe(j, fs.nodes) && AllSafe(j, fs.past)
    modifies fs
    ensures Safe(j, fs.nodes) && AllSafe(j, fs.past)
    ensures SameBut(old(fs.nodes), fs.nodes, {path})
    ensures refused == if touch.Denied? then Some("API_403") else if touch.TouchFailed? then Some("API_500") else None
    ensures refused.None? ==>
              path in fs.nodes && fs.nodes[path] == File(if touch.AlreadyThere? then touch.content else "") &&
              fs.past != [] && fs.past[|fs.past| - 1] == fs.nodes
  {
    match touch {
      case Denied => return Some("API_403");
      case TouchFailed => return Some("API_500");
      case Touched => fs.Put(path, File(""));
      case AlreadyThere(content) => fs.Put(path, File(content));
    }
    AllSafeAppend(j, old(fs.past), fs.nodes);
    return None;
  }

  /** Steps 2 and 3: parents, access, and the touch. */
  method PrepareNew(fs: FileSystem, ghost j: Job, path: Path, options: Options, plan: Plan, writable: Path -> bool)
    returns (refused: Option<string>)
    requires j.path == path && path != [] && path !in j.before && fs.nodes == j.before && fs.past == []
    requires j.touch == plan.touch
    modifies fs
    ensures Safe(j, fs.nodes) && AllSafe(j, fs.past)
    ensures Parent(path) !in old(fs.nodes) && !options.createParents ==>
              refused == Some("API_404") && fs.nodes == old(fs.nodes) && fs.past == []
    ensures refused.None? <==> CanBeMade(old(fs.nodes), path, options, plan, writable)
    ensures Parent(path) in old(fs.nodes) ==>
              refused == if !writable(Parent(path)) then Some("API_403")
                         else if old(fs.nodes)[Parent(path)] != Folder then Some("API_500")
                         else if plan.touch.Denied? then Some("API_403")
                         else if plan.touch.TouchFailed? then Some("API_500") else None
    ensures refused.None? ==>
              path in fs.nodes && fs.nodes[path] == File(if plan.touch.AlreadyThere? then plan.touch.content else "") &&
              fs.past != [] && fs.past[|fs.past| - 1] == fs.nodes
    ensures forall p :: !(p <= path) ==> (p in fs.nodes <==> p in old(fs.nodes)) && (p in fs.nodes ==> fs.nodes[p] == old(fs.nodes)[p])
  {
    if Parent(path) !in fs.nodes {
      if !options.createParents {
        return Some("API_404");
      }
      refused := MakeParents(fs, j, path, plan, writable);
      if refused.Some? {
        return;
      }
    }
    if !writable(Parent(path)) {
      return Some("API_403");
    }
    if fs.nodes[Parent(path)] != Folder {
      return Some("API_500");
    }
    refused := Touch(fs, j, path, plan.touch);
  }

  /** Step 4: a copy beside the target; a copy that fails may leave a beginning of it behind. */
  method MakeBackup(fs: FileSystem, ghost j: Job, path: Path, bak: Path, plan: Plan) returns (ok: bool)
    requires j.path == path && j.bak == bak && Apart(j) && Safe(j, fs.nodes) && AllSafe(j, fs.past)
    requires path in fs.nodes && fs.nodes[path].File?
    modifies fs
    ensures Safe(j, fs.nodes) && AllSafe(j, fs.past) && path in fs.nodes && fs.nodes[path] == old(fs.nodes)[path]
    ensures old(fs.past) <= fs.past
    ensures ok <==> plan.backup == Fine
    ensures ok ==> bak in fs.nodes && fs.nodes[bak] == fs.nodes[path]
    ensures SameBut(old(fs.nodes), fs.nodes, {bak})
  {
    var content := fs.nodes[path].content;
    fs.Put(bak, File(if plan.backup == Fine then content else Take(content, plan.copied)));
    SideFilesAreSafe(j, old(fs.nodes), fs.nodes);
    AllSafeAppend(j, old(fs.past), fs.nodes);
    return plan.backup == Fine;
  }

  method PutTmp(fs: FileSystem, ghost j: Job, tmp: Path, content: string)
    requires j.tmp == tmp && Apart(j) && Safe(j, fs.nodes) && AllSafe(j, fs.past)
    modifies fs
    ensures Safe(j, fs.nodes) && AllSafe(j, fs.past) && fs.nodes == old(fs.nodes)[tmp := File(content)]
    ensures old(fs.past) <= fs.past
  {
    fs.Put(tmp, File(content));
    SideFilesAreSafe(j, old(fs.nodes), fs.nodes);
    AllSafeAppend(j, old(fs.past), fs.nodes);
  }

  method CleanTmp(fs: FileSystem, ghost j: Job, tmp: Path, removed: bool)
    requires j.tmp == tmp && Apart(j) && Safe(j, fs.nodes) && AllSafe(j, fs.past)
    modifies fs
    ensures Safe(j, fs.nodes) && AllSafe(j, fs.past) && SameBut(old(fs.nodes), fs.nodes, {tmp})
    ensures old(fs.past) <= fs.past
  {
    if removed && tmp in fs.nodes && fs.nodes[tmp].File? {
      fs.Remove(tmp);
      SideFilesAreSafe(j, old(fs.nodes), fs.nodes);
      AllSafeAppend(j, old(fs.past), fs.nodes);
    }
  }

  /** The swap: in one step the target goes from what it held to the whole new content. */
  lemma SwapIsSafe(j: Job, now: Disk, later: Disk)
    requires Apart(j) && Safe(j, now) && j.path in now && now[j.path].File? && j.atomic
    requires j.path in j.before ==> j.before[j.path].File?
    requires later == (now - {j.tmp})[j.path := File(j.content)]
    ensures Safe(j, later)
  {
    SideFilesAreSafe(j, now, now - {j.tmp});
  }

  /** Step 5, atomic: everything goes to the temporary file, which then takes the target's place. */
  method WriteAtomic(fs: FileSystem, ghost j: Job, path: Path, tmp: Path, content: string, plan: Plan)
    returns (r: Outcome)
    requires j.path == path && j.tmp == tmp && j.content == content && j.atomic && Apart(j)
    requires Safe(j, fs.nodes) && AllSafe(j, fs.past) && path in fs.nodes && fs.nodes[path].File?
    requires path in j.before ==> j.before[path].File?
    modifies fs
    ensures Safe(j, fs.nodes) && AllSafe(j, fs.past) && path in fs.nodes && old(fs.past) <= fs.past
    ensures r.Written? ==> fs.nodes == (old(fs.nodes) - {tmp})[path := File(content)] && r.size == |content|
    ensures r.Refused? ==> SameBut(old(fs.nodes), fs.nodes, {tmp}) && r.code == "API_500"
    ensures r.Written? <==> plan.openTmp == Fine && plan.writeTmp == Fine && plan.swap == Fine &&
                            !(tmp in old(fs.nodes) && old(fs.nodes)[tmp] == Folder)
  {
    if plan.openTmp != Fine || (tmp in fs.nodes && fs.nodes[tmp] == Folder) {
      if plan.openTmp != Other {
        CleanTmp(fs, j, tmp, plan.removed);
      }
      return Refused("API_500");
    }
    PutTmp(fs, j, tmp, "");
    PutTmp(fs, j, tmp, if plan.writeTmp == Fine then content else Take(content, plan.written));
    if plan.writeTmp != Fine || plan.swap != Fine {
      if plan.writeTmp != Other && (plan.writeTmp != Fine || plan.swap != Other) {
        CleanTmp(fs, j, tmp, plan.removed);
      }
      return Refused("API_500");
    }
    ghost var before, past := fs.nodes, fs.past;
    fs.Move(tmp, path);
    SwapIsSafe(j, before, fs.nodes);
    AllSafeAppend(j, past, fs.nodes);
    return Written(|content|);
  }

  /** Step 5, direct: the target is emptied and then filled. */
  method WriteDirect(fs: FileSystem, ghost j: Job, path: Path, content: string, plan: Plan) returns (r: Outcome)
    requires j.path == path && j.content == content && !j.atomic && Apart(j)
    requires Safe(j, fs.nodes) && AllSafe(j, fs.past) && path in fs.nodes && fs.nodes[path].File?
    requires path in j.before ==> j.before[path].File?
    modifies fs
    ensures Safe(j, fs.nodes) && AllSafe(j, fs.past) && path in fs.nodes && SameBut(old(fs.nodes), fs.nodes, {path})
    ensures old(fs.past) <= fs.past
    ensures r.Written? <==> plan.openTmp == Fine && plan.writeTmp == Fine
    ensures r.Refused? ==>
              r.code == if NoPermission == (if plan.openTmp == Fine then plan.writeTmp else plan.openTmp) then "API_403" else "API_500"
    ensures r.Written? ==> fs.nodes[path] == File(content) && r.size == |content|
    ensures r.Written? ==> exists k :: 0 <= k < |fs.past| && path in fs.past[k] && fs.past[k][path] == File("")
  {
    if plan.openTmp != Fine {
      return Refused(if plan.openTmp == NoPermission then "API_403" else "API_500");
    }
    fs.Put(path, File(""));
    ghost var emptied := |fs.past| - 1;
    fs.Put(path, File(if plan.writeTmp == Fine then content else Take(content, plan.written)));
    assert fs.past[emptied][path] == File("");
    if plan.writeTmp != Fine {
      return Refused(if plan.writeTmp == NoPermission then "API_403" else "API_500");
    }
    return Written(|content|);
  }

  /** Steps 4 and 5 on a target that is there. */
  method BackupAndWrite(fs: FileSystem, ghost j: Job, path: Path, tmp: Path, bak: Path, content: string,
                        options: Options, plan: Plan) returns (r: Outcome)
    requires j.path == path && j.tmp == tmp && j.bak == bak && j.content == content && j.atomic == options.atomic
    requires Apart(j) && Safe(j, fs.nodes) && AllSafe(j, fs.past) && path in fs.nodes && fs.nodes[path].File?
    requires path in j.before ==> j.before[path].File?
    modifies fs
    ensures Safe(j, fs.nodes) && AllSafe(j, fs.past) && old(fs.past) <= fs.past && path in fs.nodes
    ensures r.Written? ==> fs.nodes[path] == File(content) && r.size == |content|
    ensures r.Written? <==> CanBeWritten(old(fs.nodes), tmp, options, plan)
    ensures r.Written? && options.atomic ==> tmp !in fs.nodes
    ensures r.Refused? && options.atomic ==> fs.nodes[path] == old(fs.nodes)[path]
    ensures r.Written? && !options.atomic ==>
              exists k :: 0 <= k < |fs.past| && path in fs.past[k] && fs.past[k][path] == File("")
    ensures r.Written? && options.backup ==> bak in fs.nodes && fs.nodes[bak] == old(fs.nodes)[path]
  {
    if options.backup {
      var ok := MakeBackup(fs, j, path, bak, plan);
      if !ok {
        return Refused("API_500");
      }
    }
    if options.atomic {
      r := WriteAtomic(fs, j, path, tmp, content, plan);
    } else {
      r := WriteDirect(fs, j, path, content, plan);
    }
  }

  // ---- the whole write ----

  /** Whatever fails and wherever one stops: the target is never seen half-written when the write is atomic;
      success means the new content; without overwrite a file that was there when the write began is never
      changed; nothing else is touched but the temporary file, the backup and missing parents. A file that
      another process creates between the check and the touch is replaced all the same. */
  method FsWrite(fs: FileSystem, path: Path, content: string, options: Options, plan: Plan, writable: Path -> bool,
                 pid: string, unique: string)
    returns (r: Outcome, ghost j: Job)
    requires path != []
    modifies fs
    ensures j == Job(old(fs.nodes), path, Sibling(path, ".tmp." + pid), Sibling(path, ".bak." + unique),
                     content, options.atomic, plan.touch)
    ensures Safe(j, fs.nodes) && AllSafe(j, fs.past)
    ensures r.Written? ==> path in fs.nodes && fs.nodes[path] == File(content) && r.size == |content|
    ensures r.Written? <==>
              CanBeWritten(old(fs.nodes), j.tmp, options, plan) &&
              if path in old(fs.nodes) then old(fs.nodes)[path].File? && options.overwrite && plan.append == Fine
              else CanBeMade(old(fs.nodes), path, options, plan, writable)
    ensures r.Written? && options.atomic ==> j.tmp !in fs.nodes
    ensures r.Refused? && options.atomic && path in old(fs.nodes) ==> fs.nodes[path] == old(fs.nodes)[path]
    ensures path in old(fs.nodes) && (old(fs.nodes)[path] == Folder || !options.overwrite) ==>
              r == Refused(if old(fs.nodes)[path] == Folder then "API_400" else "API_409") &&
              fs.nodes == old(fs.nodes) && fs.past == []
    ensures path !in old(fs.nodes) && Parent(path) !in old(fs.nodes) && !options.createParents ==>
              r == Refused("API_404") && fs.nodes == old(fs.nodes) && fs.past == []
    ensures r.Written? && path !in old(fs.nodes) ==>
              exists k :: 0 <= k < |fs.past| && path in fs.past[k] &&
                          fs.past[k][path] == File(if plan.touch.AlreadyThere? then plan.touch.content else "")
    ensures r.Written? && !options.atomic ==>
              exists k :: 0 <= k < |fs.past| && path in fs.past[k] && fs.past[k][path] == File("")
    ensures r.Written? && options.backup && path in old(fs.nodes) ==>
              j.bak in fs.nodes && fs.nodes[j.bak] == old(fs.nodes)[path]
  {
    var tmp, bak := Sibling(path, ".tmp." + pid), Sibling(path, ".bak." + unique);
    SiblingsDiffer(path, pid, unique);
    j := Job(fs.nodes, path, tmp, bak, content, options.atomic, plan.touch);
    fs.past := [];
    ghost var touched := -1;
    if path in fs.nodes {
      if fs.nodes[path] == Folder {
        return Refused("API_400"), j;
      }
      if !options.overwrite {
        return Refused("API_409"), j;
      }
      if plan.append != Fine {
        return Refused("API_500"), j;
      }
    } else {
      var refused := PrepareNew(fs, j, path, options, plan, writable);
      if refused.Some? {
        return Refused(refused.value), j;
      }
      touched := |fs.past| - 1;
    }
    r := BackupAndWrite(fs, j, path, tmp, bak, content, options, plan);
    assert path !in old(fs.nodes) ==>
      fs.past[touched][path] == File(if plan.touch.AlreadyThere? then plan.touch.content else "");
  }
}
