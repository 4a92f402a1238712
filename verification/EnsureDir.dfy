/** The writefile action's recursive directory creation: one step for every growing prefix of the
    path, each of which looks, makes and changes the owner. */
module EnsureDir {
  import opened Paths
  import opened Sequences
  import opened Text

  // Process: as made, before the owner was changed.
  datatype Owner = Process | Given(uid: int, gid: int)
  datatype Node = Directory(mode: nat, owner: Owner) | Other
  type Tree = map<Path, Node>

  /** What the host refuses besides what the tree itself rules out. */
  datatype Host = Host(mkdirOk: Path -> bool, chownOk: Path -> bool)

  // The tree that is left behind, whether or not an error ended the work.
  datatype Result = Result(tree: Tree, ok: bool)

  // ---------------------------------------------------------------- the file system

  // What os.Stat finds. Blocked: something on the way is not a directory, which is not "not found".
  datatype Status = IsDirectory | IsOther | Missing | Blocked

  function Stat(t: Tree, p: Path): Status
    decreases |p|
  {
    var above := if p == [] then IsDirectory else Stat(t, Parent(p));
    match above
    case IsDirectory => if p !in t then Missing else if t[p].Directory? then IsDirectory else IsOther
    case IsOther => Blocked
    case Missing => Missing
    case Blocked => Blocked
  }

  /** The root is there and everything sits in a directory. */
  ghost predicate Closed(t: Tree) {
    && [] in t && t[[]].Directory?
    && forall p :: p in t && p != [] ==> Parent(p) in t && t[Parent(p)].Directory?
  }

  ghost predicate HasDir(t: Tree, p: Path) { p in t && t[p].Directory? }

  // ---------------------------------------------------------------- joining paths

  /** filepath.Join with one more part; the result is clean when the base is. */
  function JoinPart(base: Path, part: string): Path {
    if part == "" || part == "." then base
    else if part == ".." then (if base == [] then [] else Parent(base))
    else base + [part]
  }

  function JoinParts(base: Path, parts: seq<string>): Path {
    if parts == [] then base else JoinPart(JoinParts(base, parts[..|parts| - 1]), parts[|parts| - 1])
  }

  // ---------------------------------------------------------------- what the steps do

  function EnsureOne(h: Host, t: Tree, p: Path, mode: nat, owner: Owner): Result {
    match Stat(t, p)
    case IsDirectory => Result(t, true)
    case IsOther => Result(t, false)
    case Blocked => Result(t, false)
    case Missing =>
      if p == [] || Stat(t, Parent(p)) != IsDirectory || !h.mkdirOk(p) then Result(t, false)
      else if !h.chownOk(p) then Result(t[p := Directory(mode, Process)], false)
      else Result(t[p := Directory(mode, owner)], true)
  }

  /** One step for every part, each at the join of the parts so far; an error ends the loop. */
  function EnsureParts(h: Host, t: Tree, mount: Path, parts: seq<string>, mode: nat, owner: Owner): Result {
    if parts == [] then Result(t, true)
    else
      var before := EnsureParts(h, t, mount, parts[..|parts| - 1], mode, owner);
      if before.ok then EnsureOne(h, before.tree, mount + JoinParts([], parts), mode, owner) else before
  }

  function Ensure(h: Host, t: Tree, mount: Path, path: string, mode: nat, owner: Owner): Result {
    var parts := Split(path, '/');
    match Stat(t, JoinParts(mount, parts))
    case IsDirectory => Result(t, true)
    case IsOther => Result(t, false)
    case Blocked => Result(t, false)
    // without a separator there is nothing to go by
    case Missing => if |parts| == 1 then Result(t, false) else EnsureParts(h, t, mount, parts, mode, owner)
  }

  // ---------------------------------------------------------------- the program

  class FileTree {
    var tree: Tree
    const host: Host

    constructor (tree: Tree, host: Host)
      ensures this.tree == tree && this.host == host
    {
      this.tree := tree;
      this.host := host;
    }

    /** Never called where the parent directory is missing or the name is taken. */
    method Mkdir(p: Path, mode: nat) returns (ok: bool)
      requires Stat(tree, p) == Missing && p != [] && Stat(tree, Parent(p)) == IsDirectory
      modifies this`tree
      ensures ok == host.mkdirOk(p)
      ensures tree == if ok then old(tree)[p := Directory(mode, Process)] else old(tree)
    {
      ok := host.mkdirOk(p);
      if ok {
        tree := tree[p := Directory(mode, Process)];
      }
    }

    method Chown(p: Path, owner: Owner) returns (ok: bool)
      requires HasDir(tree, p)
      modifies this`tree
      ensures ok == host.chownOk(p)
      ensures tree == if ok then old(tree)[p := old(tree)[p].(owner := owner)] else old(tree)
    {
      ok := host.chownOk(p);
      if ok {
        tree := tree[p := tree[p].(owner := owner)];
      }
    }

    method DirExists(p: Path) returns (there: bool, ok: bool)
      ensures ok <==> Stat(tree, p) == IsDirectory || Stat(tree, p) == Missing
      ensures ok ==> (there <==> Stat(tree, p) == IsDirectory)
    {
      match Stat(tree, p) {
        case IsDirectory => return true, true;
        case Missing => return false, true;
        case _ => return false, false;
      }
    }

    method EnsureDir(mount: Path, path: Path, mode: nat, owner: Owner) returns (ok: bool)
      requires Stat(tree, mount + path) == Missing ==>
        mount + path != [] && Stat(tree, Parent(mount + path)) == IsDirectory
      modifies this`tree
      ensures Result(tree, ok) == EnsureOne(host, old(tree), mount + path, mode, owner)
    {
      var there, fine := DirExists(mount + path);
      if !fine {
        return false;
      }
      if there {
        return true;
      }
      var made := Mkdir(mount + path, mode);
      if !made {
        return false;
      }
      ok := Chown(mount + path, owner);
    }

    method RecursiveEnsureDir(mount: Path, path: string, mode: nat, owner: Owner) returns (ok: bool)
      requires Closed(tree) && HasDir(tree, mount)
      modifies this`tree
      ensures Result(tree, ok) == Ensure(host, old(tree), mount, path, mode, owner)
    {
      var pathParts := Split(path, '/');
      var there, fine := DirExists(JoinParts(mount, pathParts));
      if !fine {
        return false;
      }
      if there {
        return true;
      }
      if |pathParts| == 1 {
        return false;
      }
      var basePath: Path := [];
      hide Stat, Split, EnsureOne, JoinPart, Closed;
      for i := 0 to |pathParts|
        invariant basePath == JoinParts([], pathParts[..i])
        invariant Result(tree, true) == EnsureParts(host, old(tree), mount, pathParts[..i], mode, owner)
      {
        EnsuredSoFar(host, old(tree), mount, pathParts[..i], mode, owner);
        NextIsMakeable(tree, mount, basePath, pathParts[i]);
        PartsSnoc(host, old(tree), mount, pathParts, i, mode, owner);
        basePath := JoinPart(basePath, pathParts[i]);
        ok := EnsureDir(mount, basePath, mode, owner);
        if !ok {
          EndsAtError(host, old(tree), mount, pathParts, i + 1, mode, owner);
          return;
        }
      }
      assert pathParts[..|pathParts|] == pathParts;
      ok := true;
    }
  }

  // ---------------------------------------------------------------- looking and joining

  /** What a look finds in a tree where everything sits in a directory: what is there; if nothing is,
      whether something on the way is not a directory. */
  lemma {:induction false} StatMeans(t: Tree, p: Path)
    requires Closed(t)
    ensures Stat(t, p) == IsDirectory <==> p in t && t[p].Directory?
    ensures Stat(t, p) == IsOther <==> p in t && t[p].Other?
    ensures Stat(t, p) == Blocked <==> exists q :: q in t && q < p && t[q].Other?
    decreases |p|
  {
    if p != [] {
      var above := Parent(p);
      StatMeans(t, above);
      forall q | q in t ensures q < p <==> q < above || q == above {
        assert q < p ==> q <= above;
      }
      if p in t {
        assert Stat(t, above) == IsDirectory;
      }
    }
  }

  ghost predicate PlainName(part: string) { part != "" && part != "." && part != ".." && '/' !in part }

  /** How joining cleans a path: names are added, "" and "." change nothing, ".." takes a name away and
      stays at the top. */
  lemma JoinCleans(base: Path, parts: seq<string>, name: string)
    requires PlainName(name)
    ensures JoinParts(base, []) == base
    ensures JoinParts(base, parts + [""]) == JoinParts(base, parts + ["."]) == JoinParts(base, parts)
    ensures JoinParts(base, parts + [name]) == JoinParts(base, parts) + [name]
    ensures JoinParts(base, parts + [name] + [".."]) == JoinParts(base, parts)
    ensures JoinParts(base, parts) == [] ==> JoinParts(base, parts + [".."]) == []
  {
    assert (parts + [name])[..|parts|] == parts;
    assert (parts + [""])[..|parts|] == (parts + ["."])[..|parts|] == (parts + [".."])[..|parts|] == parts;
    assert (parts + [name] + [".."])[..|parts| + 1] == parts + [name];
    hide JoinParts;
    var joined := JoinParts(base, parts);
    assert Parent(joined + [name]) == joined;
  }

  // ---------------------------------------------------------------- one step

  lemma {:induction false} StatClosed(t: Tree, p: Path)
    requires Closed(t) && p in t
    ensures Stat(t, p) == if t[p].Directory? then IsDirectory else IsOther
    decreases |p|
  {
    if p != [] {
      StatClosed(t, Parent(p));
    }
  }

  /** The next place is on the tree already, or new in the directory just ensured. */
  lemma NextIsMakeable(t: Tree, mount: Path, base: Path, part: string)
    requires Closed(t) && HasDir(t, mount) && HasDir(t, mount + base)
    ensures var p := mount + JoinPart(base, part);
      if p in t then Stat(t, p) == (if t[p].Directory? then IsDirectory else IsOther)
      else p != [] && Parent(p) == mount + base && Stat(t, p) == Missing && Stat(t, Parent(p)) == IsDirectory
  {
    var p := mount + JoinPart(base, part);
    StatClosed(t, mount + base);
    if part == ".." && base != [] {
      assert p == Parent(mount + base);
      StatClosed(t, p);
    } else if JoinPart(base, part) == base {
      StatClosed(t, p);
    } else {
      assert p == (mount + base) + [part];
      assert Parent(p) == mount + base;
      if p in t {
        StatClosed(t, p);
      }
    }
  }

  lemma PartsSnoc(h: Host, t: Tree, mount: Path, parts: seq<string>, i: nat, mode: nat, owner: Owner)
    requires i < |parts|
    ensures JoinParts([], parts[..i + 1]) == JoinPart(JoinParts([], parts[..i]), parts[i])
    ensures var before := EnsureParts(h, t, mount, parts[..i], mode, owner);
      EnsureParts(h, t, mount, parts[..i + 1], mode, owner)
      == if before.ok then EnsureOne(h, before.tree, mount + JoinParts([], parts[..i + 1]), mode, owner) else before
  {
    assert parts[..i + 1][..i] == parts[..i];
  }

  lemma {:induction false} EndsAtError(h: Host, t: Tree, mount: Path, parts: seq<string>, n: nat, mode: nat, owner: Owner)
    requires n <= |parts| && !EnsureParts(h, t, mount, parts[..n], mode, owner).ok
    ensures EnsureParts(h, t, mount, parts, mode, owner) == EnsureParts(h, t, mount, parts[..n], mode, owner)
    decreases |parts|
  {
    if n == |parts| {
      assert parts[..n] == parts;
    } else {
      assert parts[..|parts| - 1][..n] == parts[..n];
      EndsAtError(h, t, mount, parts[..|parts| - 1], n, mode, owner);
    }
  }

  // ---------------------------------------------------------------- all steps

  /** The growing joins of the parts, below the mount point. */
  ghost function Bases(mount: Path, parts: seq<string>): set<Path> {
    if parts == [] then {} else Bases(mount, parts[..|parts| - 1]) + {mount + JoinParts([], parts)}
  }

  /** The tree with the listed directories added where nothing was. */
  ghost function WithDirs(t: Tree, dirs: set<Path>, mode: nat, owner: Owner): Tree {
    t + map p | p in dirs && p !in t :: Directory(mode, owner)
  }

  /** A directory is there, or nothing is and the host lets it be made and handed over. */
  ghost predicate Ensurable(h: Host, t: Tree, p: Path) {
    if p in t then t[p].Directory? else h.mkdirOk(p) && h.chownOk(p)
  }

  ghost predicate AllEnsurable(h: Host, t: Tree, dirs: set<Path>) { forall p :: p in dirs ==> Ensurable(h, t, p) }

  lemma StepAdds(h: Host, t: Tree, mount: Path, parts: seq<string>, mode: nat, owner: Owner)
    requires parts != []
    requires var tree := WithDirs(t, Bases(mount, parts[..|parts| - 1]), mode, owner);
      Closed(tree) && HasDir(tree, mount) && HasDir(tree, mount + JoinParts([], parts[..|parts| - 1]))
    requires AllEnsurable(h, t, Bases(mount, parts[..|parts| - 1]))
    ensures var p := mount + JoinParts([], parts);
      var tree := WithDirs(t, Bases(mount, parts[..|parts| - 1]), mode, owner);
      var r := EnsureOne(h, tree, p, mode, owner);
      && (r.ok <==> Ensurable(h, t, p))
      && (r.ok ==> r.tree == WithDirs(t, Bases(mount, parts), mode, owner) && HasDir(r.tree, p))
      && (!r.ok ==> r.tree == tree || (p !in tree && !h.chownOk(p) && r.tree == tree[p := Directory(mode, Process)]))
      && Closed(r.tree)
  {
    var front, p := parts[..|parts| - 1], mount + JoinParts([], parts);
    var tree := WithDirs(t, Bases(mount, front), mode, owner);
    NextIsMakeable(tree, mount, JoinParts([], front), parts[|parts| - 1]);
    assert Bases(mount, parts) == Bases(mount, front) + {p};
    DirAdded(t, Bases(mount, front), p, mode, owner);
    hide Stat, JoinPart, Bases, WithDirs;
    assert p in Bases(mount, front) ==> Ensurable(h, t, p);
    InWithDirs(t, Bases(mount, front), p, mode, owner);
    if p !in tree {
      StaysClosed(tree, p, Directory(mode, Process));
      StaysClosed(tree, p, Directory(mode, owner));
    }
  }

  lemma InWithDirs(t: Tree, dirs: set<Path>, p: Path, mode: nat, owner: Owner)
    ensures p in WithDirs(t, dirs, mode, owner) <==> p in t || p in dirs
    ensures p in t ==> WithDirs(t, dirs, mode, owner)[p] == t[p]
    ensures p !in t && p in dirs ==> WithDirs(t, dirs, mode, owner)[p] == Directory(mode, owner)
  {
  }

  lemma DirAdded(t: Tree, dirs: set<Path>, p: Path, mode: nat, owner: Owner)
    ensures var tree := WithDirs(t, dirs, mode, owner);
      WithDirs(t, dirs + {p}, mode, owner) == if p in tree then tree else tree[p := Directory(mode, owner)]
  {
    var tree := WithDirs(t, dirs, mode, owner);
    if p in tree {
      assert WithDirs(t, dirs + {p}, mode, owner) == tree;
    } else {
      assert WithDirs(t, dirs + {p}, mode, owner) == tree[p := Directory(mode, owner)];
    }
  }

  lemma StaysClosed(t: Tree, p: Path, node: Node)
    requires Closed(t) && p != [] && p !in t && HasDir(t, Parent(p)) && node.Directory?
    ensures Closed(t[p := node])
  {
  }

  /** Where an error ends the loop: the joins before it are all ensured, this one cannot be, and it
      is on the tree, with its first owner, exactly when only the change of owner failed. */
  ghost predicate StoppedAt(h: Host, t: Tree, mount: Path, parts: seq<string>, n: nat, mode: nat, owner: Owner, r: Tree)
    requires n < |parts|
  {
    var p, done := mount + JoinParts([], parts[..n + 1]), WithDirs(t, Bases(mount, parts[..n]), mode, owner);
    && AllEnsurable(h, t, Bases(mount, parts[..n])) && !Ensurable(h, t, p)
    && r == if p !in t && h.mkdirOk(p) then done[p := Directory(mode, Process)] else done
  }

  ghost predicate Stopped(h: Host, t: Tree, mount: Path, parts: seq<string>, mode: nat, owner: Owner, r: Tree) {
    exists n: nat | n < |parts| :: StoppedAt(h, t, mount, parts, n, mode, owner, r)
  }

  lemma {:induction false} EnsuredSoFar(h: Host, t: Tree, mount: Path, parts: seq<string>, mode: nat, owner: Owner)
    requires Closed(t) && HasDir(t, mount)
    ensures var r := EnsureParts(h, t, mount, parts, mode, owner);
      && (r.ok <==> AllEnsurable(h, t, Bases(mount, parts)))
      && (r.ok ==> r.tree == WithDirs(t, Bases(mount, parts), mode, owner)
                   && HasDir(r.tree, mount) && HasDir(r.tree, mount + JoinParts([], parts)))
      && Closed(r.tree)
  {
    if parts == [] {
      AppendEmpty(mount);
      assert WithDirs(t, {}, mode, owner) == t;
    } else {
      var front := parts[..|parts| - 1];
      EnsuredSoFar(h, t, mount, front, mode, owner);
      var before := EnsureParts(h, t, mount, front, mode, owner);
      assert Bases(mount, parts) == Bases(mount, front) + {mount + JoinParts([], parts)};
      if before.ok {
        StepAdds(h, t, mount, parts, mode, owner);
        InWithDirs(t, Bases(mount, parts), mount, mode, owner);
      }
      hide EnsureOne, Closed, WithDirs, Bases, Ensurable;
    }
  }

  lemma {:induction false} StopsSomewhere(h: Host, t: Tree, mount: Path, parts: seq<string>, mode: nat, owner: Owner) returns (n: nat)
    requires Closed(t) && HasDir(t, mount) && !EnsureParts(h, t, mount, parts, mode, owner).ok
    ensures n < |parts| && StoppedAt(h, t, mount, parts, n, mode, owner, EnsureParts(h, t, mount, parts, mode, owner).tree)
  {
    var front := parts[..|parts| - 1];
    EnsuredSoFar(h, t, mount, front, mode, owner);
    if EnsureParts(h, t, mount, front, mode, owner).ok {
      n := |parts| - 1;
      assert parts[..n + 1] == parts;
      StepStops(h, t, mount, parts, mode, owner);
    } else {
      n := StopsSomewhere(h, t, mount, front, mode, owner);
      assert front[..n] == parts[..n] && front[..n + 1] == parts[..n + 1];
    }
  }

  lemma PartsStop(h: Host, t: Tree, mount: Path, parts: seq<string>, mode: nat, owner: Owner)
    requires Closed(t) && HasDir(t, mount)
    ensures var r := EnsureParts(h, t, mount, parts, mode, owner); !r.ok ==> Stopped(h, t, mount, parts, mode, owner, r.tree)
  {
    if !EnsureParts(h, t, mount, parts, mode, owner).ok {
      var n := StopsSomewhere(h, t, mount, parts, mode, owner);
    }
  }

  lemma StepStops(h: Host, t: Tree, mount: Path, parts: seq<string>, mode: nat, owner: Owner)
    requires parts != [] && Closed(t) && HasDir(t, mount) && !EnsureParts(h, t, mount, parts, mode, owner).ok
    requires EnsureParts(h, t, mount, parts[..|parts| - 1], mode, owner).ok
    ensures StoppedAt(h, t, mount, parts, |parts| - 1, mode, owner, EnsureParts(h, t, mount, parts, mode, owner).tree)
  {
    var n := |parts| - 1;
    EnsuredSoFar(h, t, mount, parts[..n], mode, owner);
    assert parts[..n + 1] == parts;
    var p, tree := mount + JoinParts([], parts), WithDirs(t, Bases(mount, parts[..n]), mode, owner);
    StepAdds(h, t, mount, parts, mode, owner);
    NextIsMakeable(tree, mount, JoinParts([], parts[..n]), parts[n]);
    InWithDirs(t, Bases(mount, parts[..n]), p, mode, owner);
    hide Stat, JoinPart, WithDirs, Bases;
    assert p in Bases(mount, parts[..n]) ==> Ensurable(h, t, p);
  }

  // ---------------------------------------------------------------- main results

  /** When the target is not there yet: the run succeeds exactly when every growing join of the
      path is a directory or can be made and handed over; it then adds exactly the missing ones,
      with the given mode and owner, and touches nothing else. */
  lemma EnsureAddsExactlyTheMissing(h: Host, t: Tree, mount: Path, path: string, mode: nat, owner: Owner)
    requires Closed(t) && HasDir(t, mount)
    ensures var r, parts := Ensure(h, t, mount, path, mode, owner), Split(path, '/');
      var found := Stat(t, JoinParts(mount, parts));
      && (r.ok <==> found == IsDirectory
                    || (found == Missing && |parts| > 1 && AllEnsurable(h, t, Bases(mount, parts))))
      && (r.ok ==> r.tree == if found == IsDirectory then t else WithDirs(t, Bases(mount, parts), mode, owner))
  {
    EnsuredSoFar(h, t, mount, Split(path, '/'), mode, owner);
    hide Split, Stat, EnsureParts, WithDirs, Bases, AllEnsurable;
  }

  /** A run that fails leaves the tree as it was or with an initial run of the joins added; the
      last of them may still have its first owner. The tree stays closed either way. */
  lemma FailureLeavesAnInitialRun(h: Host, t: Tree, mount: Path, path: string, mode: nat, owner: Owner)
    requires Closed(t) && HasDir(t, mount)
    ensures var r, parts := Ensure(h, t, mount, path, mode, owner), Split(path, '/');
      && Closed(r.tree)
      && (!r.ok ==> r.tree == t || Stopped(h, t, mount, parts, mode, owner, r.tree))
  {
    hide Split, Stat, EnsureParts, Closed, Stopped, HasDir, AllEnsurable, WithDirs, JoinParts;
    var parts := Split(path, '/');
    EnsuredSoFar(h, t, mount, parts, mode, owner);
    PartsStop(h, t, mount, parts, mode, owner);
  }

  lemma {:induction false} PartsKeep(h: Host, t: Tree, mount: Path, parts: seq<string>, mode: nat, owner: Owner, p: Path)
    requires p in t
    ensures p in EnsureParts(h, t, mount, parts, mode, owner).tree && EnsureParts(h, t, mount, parts, mode, owner).tree[p] == t[p]
  {
    if parts != [] {
      PartsKeep(h, t, mount, parts[..|parts| - 1], mode, owner, p);
      var before := EnsureParts(h, t, mount, parts[..|parts| - 1], mode, owner);
      MissingIsAbsent(before.tree, mount + JoinParts([], parts));
      hide Stat;
    }
  }

  lemma MissingIsAbsent(t: Tree, p: Path)
    ensures p != [] && Stat(t, p) == Missing && Stat(t, Parent(p)) == IsDirectory ==> p !in t
  {
  }

  /** Nothing that is there is ever changed, by success or failure. */
  lemma ExistingIsNeverChanged(h: Host, t: Tree, mount: Path, path: string, mode: nat, owner: Owner, p: Path)
    requires p in t
    ensures var r := Ensure(h, t, mount, path, mode, owner); p in r.tree && r.tree[p] == t[p]
  {
    PartsKeep(h, t, mount, Split(path, '/'), mode, owner, p);
    hide EnsureParts, Split, Stat;
  }

  // ---------------------------------------------------------------- running it again

  /** The second tree is the first with some directories added. */
  ghost predicate Grown(t: Tree, u: Tree) {
    && (forall p :: p in t ==> p in u && u[p] == t[p])
    && (forall p :: p in u && p !in t ==> u[p].Directory?)
  }

  /** Adding directories cannot turn "not found" into anything but "found". */
  lemma {:induction false} StatGrows(t: Tree, u: Tree, p: Path)
    requires Closed(t) && Grown(t, u) && (Stat(t, p) == Missing || Stat(t, p) == IsDirectory)
    ensures Stat(u, p) == Missing || Stat(u, p) == IsDirectory
    ensures Stat(t, p) == IsDirectory ==> Stat(u, p) == IsDirectory
    decreases |p|
  {
    if p in t {
      StatClosed(t, p);
    }
    if p != [] {
      StatGrows(t, u, Parent(p));
    }
  }

  lemma DirsGrow(t: Tree, dirs: set<Path>, mode: nat, owner: Owner)
    ensures Grown(t, WithDirs(t, dirs, mode, owner))
  {
  }

  lemma AllThere(t: Tree, dirs: set<Path>, mode: nat, owner: Owner)
    requires forall p :: p in dirs ==> p in t
    ensures WithDirs(t, dirs, mode, owner) == t
  {
  }

  /** After a success a second run does nothing, for any host and any path. */
  lemma SecondRunDoesNothing(h: Host, again: Host, t: Tree, mount: Path, path: string, mode: nat, owner: Owner)
    requires Closed(t) && HasDir(t, mount) && Ensure(h, t, mount, path, mode, owner).ok
    ensures var r := Ensure(h, t, mount, path, mode, owner); Ensure(again, r.tree, mount, path, mode, owner) == r
  {
    var u, parts := Ensure(h, t, mount, path, mode, owner).tree, Split(path, '/');
    var target, dirs := JoinParts(mount, parts), Bases(mount, parts);
    EnsuredSoFar(h, t, mount, parts, mode, owner);
    if Stat(t, target) == Missing {
      DirsGrow(t, dirs, mode, owner);
      StatGrows(t, u, target);
      forall p | p in dirs ensures p in u && u[p].Directory? {
        assert Ensurable(h, t, p);
      }
      EnsuredSoFar(again, u, mount, parts, mode, owner);
      AllThere(u, dirs, mode, owner);
    }
    hide Split, JoinParts, EnsureParts, Stat, Closed, WithDirs, Bases;
  }

  lemma {:induction false} BasesOfPrefix(mount: Path, parts: seq<string>, n: nat)
    requires n <= |parts|
    ensures Bases(mount, parts[..n]) <= Bases(mount, parts)
    ensures n < |parts| ==> mount + JoinParts([], parts[..n + 1]) in Bases(mount, parts)
    decreases |parts|
  {
    if n == |parts| {
      assert parts[..n] == parts;
    } else {
      var front := parts[..|parts| - 1];
      BasesOfPrefix(mount, front, n);
      assert front[..n] == parts[..n];
      if n + 1 < |parts| {
        assert front[..n + 1] == parts[..n + 1];
      } else {
        assert parts[..n + 1] == parts;
      }
    }
  }

  lemma DirsAddUp(t: Tree, some: set<Path>, all: set<Path>, mode: nat, owner: Owner)
    requires some <= all
    ensures WithDirs(WithDirs(t, some, mode, owner), all, mode, owner) == WithDirs(t, all, mode, owner)
  {
  }

  /** A run over a tree to which an initial run of the joins was added completes the others, unless
      the target is one of the joins already added: then it stops at the first look. */
  lemma CompletesIff(again: Host, t: Tree, mount: Path, path: string, done: set<Path>, p: Path, mode: nat, owner: Owner)
    requires var parts := Split(path, '/');
      && Closed(t) && HasDir(t, mount) && Stat(t, JoinParts(mount, parts)) == Missing && |parts| > 1
      && AllEnsurable(again, t, Bases(mount, parts)) && done <= Bases(mount, parts)
      && p in Bases(mount, parts) && p !in done && p !in t
    requires Closed(WithDirs(t, done, mode, owner))
    ensures Ensure(again, WithDirs(t, done, mode, owner), mount, path, mode, owner) == Ensure(again, t, mount, path, mode, owner)
            <==> JoinParts(mount, Split(path, '/')) !in done
  {
    var parts := Split(path, '/');
    var target, all, u := JoinParts(mount, parts), Bases(mount, parts), WithDirs(t, done, mode, owner);
    EnsuredSoFar(again, t, mount, parts, mode, owner);
    DirsGrow(t, done, mode, owner);
    StatGrows(t, u, target);
    InWithDirs(t, done, p, mode, owner);
    InWithDirs(t, done, target, mode, owner);
    InWithDirs(t, all, p, mode, owner);
    if target in t {
      StatClosed(t, target);
    }
    if target in u {
      StatClosed(u, target);
    }
    StatFindsOnTree(u, target);
    forall q | q in all ensures Ensurable(again, u, q) {
      assert Ensurable(again, t, q);
      InWithDirs(t, done, q, mode, owner);
    }
    assert HasDir(u, mount);
    EnsuredSoFar(again, u, mount, parts, mode, owner);
    DirsAddUp(t, done, all, mode, owner);
    hide Split, JoinParts, EnsureParts, Stat, Closed, WithDirs, Bases, Grown;
  }

  lemma StatFindsOnTree(t: Tree, p: Path)
    ensures Stat(t, p) == IsDirectory ==> p in t
  {
  }

  /** A run that fails on one host and is repeated on another gives what the other host alone would
      have given exactly when, at the first join the first host could not ensure, it was making the
      directory that failed and not handing it over, and the target is not one of the joins before
      it (it can be when the path goes back up, and then the second run stops at its first look). */
  lemma RepairedIff(h: Host, again: Host, t: Tree, mount: Path, path: string, mode: nat, owner: Owner) returns (n: nat)
    requires Closed(t) && HasDir(t, mount) && owner.Given?
    requires !Ensure(h, t, mount, path, mode, owner).ok && Ensure(again, t, mount, path, mode, owner).ok
    ensures var parts := Split(path, '/');
      && n < |parts| && AllEnsurable(h, t, Bases(mount, parts[..n]))
      && var p := mount + JoinParts([], parts[..n + 1]);
      && !Ensurable(h, t, p)
      && (Ensure(again, Ensure(h, t, mount, path, mode, owner).tree, mount, path, mode, owner)
          == Ensure(again, t, mount, path, mode, owner)
          <==> !h.mkdirOk(p) && JoinParts(mount, parts) !in Bases(mount, parts[..n]))
  {
    var parts := Split(path, '/');
    EnsuredSoFar(again, t, mount, parts, mode, owner);
    n := StopsSomewhere(h, t, mount, parts, mode, owner);
    EnsuredSoFar(h, t, mount, parts, mode, owner);
    BasesOfPrefix(mount, parts, n);
    var p, done := mount + JoinParts([], parts[..n + 1]), Bases(mount, parts[..n]);
    assert Ensurable(again, t, p) && p !in t;
    assert p in done ==> Ensurable(h, t, p);
    var r := Ensure(h, t, mount, path, mode, owner).tree;
    var single := Ensure(again, t, mount, path, mode, owner).tree;
    if h.mkdirOk(p) {
      assert r[p] == Directory(mode, Process);
      ExistingIsNeverChanged(again, r, mount, path, mode, owner, p);
      InWithDirs(t, Bases(mount, parts), p, mode, owner);
      assert single[p] == Directory(mode, owner);
    } else {
      CompletesIff(again, t, mount, path, done, p, mode, owner);
    }
  }

  /** After a success that had something to add, every join reads as asked for if and only if every
      join that was there before did. */
  lemma AskedForIff(h: Host, t: Tree, mount: Path, path: string, mode: nat, owner: Owner)
    requires Closed(t) && HasDir(t, mount) && Ensure(h, t, mount, path, mode, owner).ok
    requires Stat(t, JoinParts(mount, Split(path, '/'))) == Missing
    ensures var u, dirs := Ensure(h, t, mount, path, mode, owner).tree, Bases(mount, Split(path, '/'));
      (forall p :: p in dirs ==> p in u && u[p] == Directory(mode, owner))
      <==> (forall p :: p in dirs && p in t ==> t[p] == Directory(mode, owner))
  {
    EnsuredSoFar(h, t, mount, Split(path, '/'), mode, owner);
    hide Split, JoinParts, EnsureParts, Stat, Closed, Bases;
  }

  // ---------------------------------------------------------------- a concrete failure

  const HELPFUL := Host(_ => true, _ => true)
  const NO_CHOWN := Host(_ => true, _ => false)

  lemma OneName(mount: Path, name: string)
    requires '/' !in name && name != "" && name != "." && name != ".."
    ensures Split("/" + name, '/') == ["", name]
    ensures JoinParts(mount, ["", name]) == mount + [name] && JoinParts(mount, [""]) == mount
  {
    SplitOne(name, '/');
    SplitAppend("", name, '/');
    assert "" + ['/'] + name == "/" + name;
    hide Split;
    assert ["", name][..1] == [""] && [""][..0] == [];
    assert JoinParts(mount, []) == mount;
    assert JoinParts(mount, [""]) == mount;
  }

  /** One new directory: when its change of owner fails, running the action again on a host that
      refuses nothing succeeds and leaves it with its first owner. */
  lemma FailedChownStays(t: Tree, mount: Path, name: string, mode: nat, owner: Owner)
    requires Closed(t) && HasDir(t, mount) && mount + [name] !in t && owner.Given?
    requires '/' !in name && name != "" && name != "." && name != ".."
    ensures var path, p := "/" + name, mount + [name];
      var failed := Ensure(NO_CHOWN, t, mount, path, mode, owner);
      var again := Ensure(HELPFUL, failed.tree, mount, path, mode, owner);
      && !failed.ok && again.ok && p in again.tree && again.tree[p] == Directory(mode, Process)
      && Ensure(HELPFUL, t, mount, path, mode, owner).tree == t[p := Directory(mode, owner)]
  {
    var path, p, parts := "/" + name, mount + [name], ["", name];
    OneName(mount, name);
    OneName([], name);
    assert [] + [name] == [name] && mount + [] == mount && Parent(p) == mount;
    assert parts[..1] == [""] && [""][..0] == [];
    StatClosed(t, mount);
    assert Stat(t, p) == Missing;
    hide Split, JoinParts;
    assert EnsureParts(NO_CHOWN, t, mount, [""], mode, owner) == Result(t, true);
    assert EnsureParts(HELPFUL, t, mount, [""], mode, owner) == Result(t, true);
    var made := t[p := Directory(mode, Process)];
    assert EnsureParts(HELPFUL, t, mount, parts, mode, owner) == Result(t[p := Directory(mode, owner)], true);
    assert EnsureParts(NO_CHOWN, t, mount, parts, mode, owner) == Result(made, false);
    StaysClosed(t, p, Directory(mode, Process));
    StatClosed(made, p);
    hide EnsureParts, Stat;
    var failed := Ensure(NO_CHOWN, t, mount, path, mode, owner);
    assert Stat(t, JoinParts(mount, Split(path, '/'))) == Missing;
    assert failed == Result(made, false);
    assert Stat(made, JoinParts(mount, Split(path, '/'))) == IsDirectory;
    var again := Ensure(HELPFUL, failed.tree, mount, path, mode, owner);
    assert again == Result(made, true);
    assert Ensure(HELPFUL, t, mount, path, mode, owner).tree == t[p := Directory(mode, owner)];
  }
}
