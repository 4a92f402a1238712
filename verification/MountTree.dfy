/** The mount tree that the actions write into: filter, stable sort by path depth, mount in
    order. The kernel's rule is the latest mount covering a path. */
module MountTree {
  import opened Sequences
  import opened Text

  datatype Filesystem = Filesystem(device: string, format: string, point: string, options: seq<string>)
  datatype Mount = Mount(device: string, target: string, fstype: string)

  const MOUNT_POINT := "/mountAction"

  // ---------------------------------------------------------------- paths

  function Count(s: string, c: char): nat {
    if s == "" then 0 else Count(s[..|s| - 1], c) + (if s[|s| - 1] == c then 1 else 0)
  }

  function PathDepth(p: string): nat { Count(TrimRight(TrimLeft(p, '/'), '/'), '/') }

  /** A mount point is a path prefix of q, component by component. */
  predicate Covers(p: string, q: string) { p == "/" || p == q || p + "/" <= q }

  // Absolute, not the root, with a single slash at its start and none at its end.
  predicate CleanPoint(p: string) {
    |p| > 1 && p[0] == '/' && p[1] != '/' && p[|p| - 1] != '/'
  }

  predicate GoodPoint(p: string) { p == "/" || CleanPoint(p) }

  lemma {:induction false} CountAppend(a: string, b: string, c: char)
    ensures Count(a + b, c) == Count(a, c) + Count(b, c)
  {
    if b == "" {
      assert a + b == a;
    } else {
      CountAppend(a, b[..|b| - 1], c);
      assert (a + b)[..|a + b| - 1] == a + b[..|b| - 1];
    }
  }

  lemma DepthOfClean(p: string)
    requires CleanPoint(p)
    ensures PathDepth(p) == Count(p, '/') - 1
  {
    assert p == ["/"[0]] + p[1..];
    CountAppend([p[0]], p[1..], '/');
    assert [p[0]][..0] == "";
    assert TrimLeft(p, '/') == TrimLeft(p[1..], '/') == p[1..];
    assert p[1..][|p| - 2] == p[|p| - 1];
  }

  ghost function Places(s: string, c: char): set<int> { set i | 0 <= i < |s| && s[i] == c }

  lemma {:induction false} CountPlaces(s: string, c: char)
    ensures Count(s, c) == |Places(s, c)|
  {
    if s != "" {
      var n := |s| - 1;
      CountPlaces(s[..n], c);
      if s[n] == c {
        assert Places(s, c) == Places(s[..n], c) + {n};
      } else {
        assert Places(s, c) == Places(s[..n], c);
      }
    } else {
      assert Places(s, c) == {};
    }
  }

  /** The depth of a mount point is the number of its slashes but the first. */
  lemma DepthCountsSlashes(p: string)
    requires CleanPoint(p)
    ensures PathDepth(p) == |Places(p, '/')| - 1
  {
    DepthOfClean(p);
    CountPlaces(p, '/');
  }

  /** A point strictly above another has a smaller depth. */
  lemma AncestorIsShallower(p: string, q: string)
    requires CleanPoint(p) && CleanPoint(q) && Covers(p, q) && p != q
    ensures PathDepth(p) < PathDepth(q)
  {
    DepthOfClean(p);
    DepthOfClean(q);
    assert q == p + "/" + q[|p| + 1..];
    CountAppend(p, "/", '/');
    CountAppend(p + "/", q[|p| + 1..], '/');
    assert "/"[..0] == "";
  }

  /** Of two points covering one path, one covers the other. */
  lemma CoversNest(p: string, q: string, path: string)
    requires GoodPoint(p) && GoodPoint(q) && Covers(p, path) && Covers(q, path) && |p| <= |q|
    ensures Covers(p, q) && (|p| == |q| ==> p == q)
  {
    if p != "/" {
      assert p == path[..|p|] && q == path[..|q|];
      if |p| < |q| {
        assert path[|p|] == '/' && q[|p|] == '/';
        assert q[..|p| + 1] == p + "/";
      }
    }
  }

  // ---------------------------------------------------------------- the view of a list of points

  /** Index of the latest point covering a path, -1 when none does. */
  function LastCover(points: seq<string>, path: string): (i: int)
    ensures -1 <= i < |points|
    ensures i >= 0 ==> Covers(points[i], path)
    ensures forall j :: i < j < |points| ==> !Covers(points[j], path)
  {
    if points == [] then -1
    else if Covers(points[|points| - 1], path) then |points| - 1
    else LastCover(points[..|points| - 1], path)
  }

  /** No point comes before one that is strictly above it. */
  ghost predicate AncestorsFirst(points: seq<string>) {
    forall i, j :: 0 <= i < j < |points| ==> !(Covers(points[j], points[i]) && points[j] != points[i])
  }

  /** Point i is the longest one covering the path, the last of its equals. */
  ghost predicate LongestCover(points: seq<string>, path: string, i: int) {
    && 0 <= i < |points| && Covers(points[i], path)
    && forall j :: 0 <= j < |points| && Covers(points[j], path) ==>
         |points[j]| < |points[i]| || (points[j] == points[i] && j <= i)
  }

  /** Ancestors first makes the latest covering mount the longest-prefix one. */
  lemma LatestIsLongest(points: seq<string>, path: string)
    requires AncestorsFirst(points) && forall p :: p in points ==> GoodPoint(p)
    ensures LastCover(points, path) >= 0 ==> LongestCover(points, path, LastCover(points, path))
  {
    var w := LastCover(points, path);
    if w >= 0 {
      forall j | 0 <= j < |points| && Covers(points[j], path)
        ensures |points[j]| < |points[w]| || (points[j] == points[w] && j <= w)
      {
        if |points[j]| >= |points[w]| {
          CoversNest(points[w], points[j], path);
        }
      }
    }
  }

  // ---------------------------------------------------------------- filter and stable sort

  predicate Keeps(f: Filesystem) {
    f.point != "" && f.point != "/" && f.format != "swap" && f.format != "vfat"
  }

  /** What the filter lets through, in metadata order. */
  function Kept(extras: seq<Filesystem>): (kept: seq<Filesystem>)
    ensures forall f :: f in kept <==> f in extras && Keeps(f)
  {
    if extras == [] then []
    else
      var rest, f := Kept(extras[..|extras| - 1]), extras[|extras| - 1];
      assert extras == extras[..|extras| - 1] + [f];
      if Keeps(f) then rest + [f] else rest
  }

  function Depth(f: Filesystem): nat { PathDepth(f.point) }

  /** Insert after everything that is not deeper. */
  function Insert(s: seq<Filesystem>, x: Filesystem): (t: seq<Filesystem>)
    ensures |t| == |s| + 1 && multiset(t) == multiset(s) + multiset{x}
  {
    if s == [] || Depth(s[|s| - 1]) <= Depth(x) then s + [x]
    else
      assert s == s[..|s| - 1] + [s[|s| - 1]];
      Insert(s[..|s| - 1], x) + [s[|s| - 1]]
  }

  /** The stable sort by depth, ascending. */
  function StableSort(s: seq<Filesystem>): (t: seq<Filesystem>)
    ensures multiset(t) == multiset(s)
  {
    if s == [] then []
    else
      assert s == s[..|s| - 1] + [s[|s| - 1]];
      Insert(StableSort(s[..|s| - 1]), s[|s| - 1])
  }

  ghost predicate Sorted(s: seq<Filesystem>) {
    forall i, j :: 0 <= i < j < |s| ==> Depth(s[i]) <= Depth(s[j])
  }

  /** The filesystems at one depth, in order. */
  ghost function AtDepth(s: seq<Filesystem>, n: nat): seq<Filesystem> {
    if s == [] then []
    else AtDepth(s[..|s| - 1], n) + (if Depth(s[|s| - 1]) == n then [s[|s| - 1]] else [])
  }

  /** The filesystems at one mount point, in order. */
  ghost function AtPoint(s: seq<Filesystem>, p: string): seq<Filesystem> {
    if s == [] then []
    else AtPoint(s[..|s| - 1], p) + (if s[|s| - 1].point == p then [s[|s| - 1]] else [])
  }

  lemma InsertMembers(s: seq<Filesystem>, x: Filesystem)
    ensures forall f :: f in Insert(s, x) ==> f == x || f in s
  {
    forall f | f in Insert(s, x) ensures f == x || f in s {
      assert f in multiset(Insert(s, x));
    }
  }

  lemma {:induction false} InsertSorts(s: seq<Filesystem>, x: Filesystem)
    requires Sorted(s)
    ensures Sorted(Insert(s, x))
  {
    hide Depth;
    if s != [] && Depth(s[|s| - 1]) > Depth(x) {
      var before, last := s[..|s| - 1], s[|s| - 1];
      InsertSorts(before, x);
      InsertMembers(before, x);
      assert Insert(s, x) == Insert(before, x) + [last];
      hide Insert;
      forall f | f in before ensures Depth(f) <= Depth(last) {
        var k :| 0 <= k < |before| && s[k] == f;
      }
    }
  }

  lemma AtDepthSnoc(s: seq<Filesystem>, x: Filesystem, n: nat)
    ensures AtDepth(s + [x], n) == AtDepth(s, n) + (if Depth(x) == n then [x] else [])
  {
    assert (s + [x])[..|s|] == s;
  }

  lemma {:induction false} InsertIsStable(s: seq<Filesystem>, x: Filesystem, n: nat)
    ensures AtDepth(Insert(s, x), n) == AtDepth(s + [x], n)
  {
    hide Depth;
    if s != [] && Depth(s[|s| - 1]) > Depth(x) {
      var before, last := s[..|s| - 1], s[|s| - 1];
      InsertIsStable(before, x, n);
      AtDepthSnoc(before, x, n);
      AtDepthSnoc(s, x, n);
      AtDepthSnoc(Insert(before, x), last, n);
      hide AtDepth;
    }
  }

  /** The sort orders by depth and keeps the metadata order within every depth. */
  lemma {:induction false} StableSortKeeps(s: seq<Filesystem>, n: nat)
    ensures Sorted(StableSort(s)) && AtDepth(StableSort(s), n) == AtDepth(s, n)
  {
    if s != [] {
      hide Insert, Sorted, Depth;
      var before, last := s[..|s| - 1], s[|s| - 1];
      StableSortKeeps(before, n);
      InsertSorts(StableSort(before), last);
      InsertIsStable(StableSort(before), last, n);
      AtDepthSnoc(StableSort(before), last, n);
      AtDepthSnoc(before, last, n);
      TakeSnoc(s);
      hide AtDepth;
    } else {
      assert Sorted([]);
    }
  }

  lemma AtPointSnoc(s: seq<Filesystem>, x: Filesystem, p: string)
    ensures AtPoint(s + [x], p) == AtPoint(s, p) + (if x.point == p then [x] else [])
  {
    assert (s + [x])[..|s|] == s;
  }

  /** Filesystems at one point are all at its depth. */
  lemma {:induction false} AtPointWithinDepth(s: seq<Filesystem>, p: string)
    ensures AtPoint(s, p) == AtPoint(AtDepth(s, PathDepth(p)), p)
  {
    hide PathDepth;
    if s != [] {
      var before, last := s[..|s| - 1], s[|s| - 1];
      AtPointWithinDepth(before, p);
      AtPointSnoc(AtDepth(before, PathDepth(p)), last, p);
      AppendEmpty(AtDepth(before, PathDepth(p)));
      AppendEmpty(AtPoint(before, p));
    }
  }

  function Order(extras: seq<Filesystem>): seq<Filesystem> { StableSort(Kept(extras)) }

  method FilterExtras(extras: seq<Filesystem>) returns (out: seq<Filesystem>)
    ensures out == Order(extras)
  {
    out := [];
    for i := 0 to |extras|
      invariant out == Kept(extras[..i])
    {
      var f := extras[i];
      assert extras[..i + 1][..i] == extras[..i];
      if f.point == "" || f.point == "/" {
        continue;
      }
      match f.format {
        case "swap" => continue;
        case "vfat" => continue;
        case _ =>
      }
      out := out + [f];
    }
    assert extras[..|extras|] == extras;
    out := StableSort(out);
  }

  lemma SameMembers(a: seq<Filesystem>, b: seq<Filesystem>)
    requires multiset(a) == multiset(b)
    ensures forall f :: f in a <==> f in b
  {
    forall f ensures f in a <==> f in b {
      assert f in multiset(a) <==> f in multiset(b);
    }
  }

  // ---------------------------------------------------------------- mounting

  function MountOf(f: Filesystem): Mount { Mount(f.device, MOUNT_POINT + f.point, f.format) }

  function MountsOf(s: seq<Filesystem>): seq<Mount> {
    seq(|s|, i requires 0 <= i < |s| => MountOf(s[i]))
  }

  /** The mount namespace of the action. Which directories can be made and which mounts the
      kernel accepts is up to the host. */
  class Namespace {
    var mounts: seq<Mount>
    const mkdirOk: string -> bool
    const mountOk: Mount -> bool

    constructor (mkdirOk: string -> bool, mountOk: Mount -> bool)
      ensures mounts == [] && this.mkdirOk == mkdirOk && this.mountOk == mountOk
    {
      this.mounts := [];
      this.mkdirOk := mkdirOk;
      this.mountOk := mountOk;
    }

    predicate Refused(m: Mount) { !mkdirOk(m.target) || !mountOk(m) }

    /** Mounts the ordered list up to, and without, the first entry the host refuses. */
    method MountExtras(extras: seq<Filesystem>) returns (ghost n: nat, ok: bool)
      modifies this`mounts
      ensures n <= |Order(extras)| && (ok <==> n == |Order(extras)|)
      ensures mounts == old(mounts) + MountsOf(Order(extras)[..n])
      ensures forall k :: 0 <= k < n ==> !Refused(MountOf(Order(extras)[k]))
      ensures !ok ==> Refused(MountOf(Order(extras)[n]))
    {
      var order := FilterExtras(extras);
      n := 0;
      for i := 0 to |order|
        invariant n == i && mounts == old(mounts) + MountsOf(order[..i])
        invariant forall k :: 0 <= k < i ==> !Refused(MountOf(order[k]))
      {
        var f := order[i];
        var target := MOUNT_POINT + f.point;
        if !mkdirOk(target) {
          return i, false;
        }
        if !mountOk(Mount(f.device, target, f.format)) {
          return i, false;
        }
        mounts := mounts + [Mount(f.device, target, f.format)];
        assert order[..i + 1] == order[..i] + [f];
        n := n + 1;
      }
      return |order|, true;
    }

    method MountTree(blockDev: string, fsType: string, extras: seq<Filesystem>) returns (ghost n: nat, ok: bool)
      modifies this`mounts
      ensures ok ==> mounts == old(mounts) + Tree(blockDev, fsType, extras, |Order(extras)|)
      ensures mounts == old(mounts)
           || (n <= |Order(extras)| && mounts == old(mounts) + Tree(blockDev, fsType, extras, n))
      ensures ok || Refused(Mount(blockDev, MOUNT_POINT, fsType))
              || (n < |Order(extras)| && Refused(MountOf(Order(extras)[n])))
    {
      n := 0;
      var primary := Mount(blockDev, MOUNT_POINT, fsType);
      if !mkdirOk(MOUNT_POINT) || !mountOk(primary) {
        ok := false;
        return;
      }
      mounts := mounts + [primary];
      n, ok := MountExtras(extras);
      assert Order(extras)[..|Order(extras)|] == Order(extras);
    }
  }

  /** The mounts after the primary device and the first n siblings. */
  function Tree(blockDev: string, fsType: string, extras: seq<Filesystem>, n: nat): seq<Mount>
    requires n <= |Order(extras)|
  {
    [Mount(blockDev, MOUNT_POINT, fsType)] + MountsOf(Order(extras)[..n])
  }

  // The same mounts as points relative to the new root.
  function Points(s: seq<Filesystem>): seq<string> {
    ["/"] + seq(|s|, i requires 0 <= i < |s| => s[i].point)
  }

  /** The kernel's answer for a path of the new root: the latest mount covering it. */
  function View(mounts: seq<Mount>, path: string): (i: int)
    ensures -1 <= i < |mounts|
  {
    LastCover(seq(|mounts|, i requires 0 <= i < |mounts| => mounts[i].target), MOUNT_POINT + path)
  }

  predicate AbsolutePath(path: string) { path != "" && path[0] == '/' }

  lemma CoversBelow(root: string, p: string, path: string)
    requires CleanPoint(p) && root != "" && root + p != "/"
    ensures Covers(root + p, root + path) <==> Covers(p, path)
  {
    DropAppend(root, path);
    DropAppend(root, p);
    Assoc(root, p, "/");
    var x := p + "/";
    DropAppend(root, x);
    if x <= path {
      assert path == x + path[|x|..];
      Assoc(root, x, path[|x|..]);
    }
    if root + x <= root + path {
      assert (root + path)[|root|..][..|x|] == (root + x)[|root|..];
    }
  }

  lemma {:induction false} SameCover(targets: seq<string>, points: seq<string>, path: string)
    requires |targets| == |points| > 0 && AbsolutePath(path)
    requires targets[0] == MOUNT_POINT && points[0] == "/"
    requires forall i :: 0 < i < |points| ==> CleanPoint(points[i]) && targets[i] == MOUNT_POINT + points[i]
    ensures LastCover(targets, MOUNT_POINT + path) == LastCover(points, path)
  {
    var n := |points| - 1;
    if n == 0 {
      assert MOUNT_POINT + "/" <= MOUNT_POINT + path;
    } else {
      SameCover(targets[..n], points[..n], path);
      assert |MOUNT_POINT + points[n]| > 1;
      CoversBelow(MOUNT_POINT, points[n], path);
      hide Covers;
    }
  }

  // ---------------------------------------------------------------- what the tree shows

  /** Every mount point the filter lets through is clean. */
  ghost predicate CleanExtras(extras: seq<Filesystem>) {
    forall f :: f in extras && Keeps(f) ==> CleanPoint(f.point)
  }

  lemma OrderKeeps(extras: seq<Filesystem>)
    ensures Sorted(Order(extras))
    ensures forall f :: f in Order(extras) <==> f in extras && Keeps(f)
  {
    StableSortKeeps(Kept(extras), 0);
    SameMembers(Order(extras), Kept(extras));
  }

  /** What is mounted besides the primary device. */
  lemma MountedSiblings(extras: seq<Filesystem>)
    ensures forall f :: f in Order(extras) <==>
      f in extras && f.point != "" && f.point != "/" && f.format != "swap" && f.format != "vfat"
  {
    OrderKeeps(extras);
    hide Order;
  }

  lemma OrderIsAncestorsFirst(extras: seq<Filesystem>, n: nat)
    requires CleanExtras(extras) && n <= |Order(extras)|
    ensures AncestorsFirst(Points(Order(extras)[..n])) && forall p :: p in Points(Order(extras)[..n]) ==> GoodPoint(p)
  {
    OrderKeeps(extras);
    hide StableSort, Kept, Keeps, Order;
    var points := Points(Order(extras)[..n]);
    forall i | 0 < i < |points| ensures CleanPoint(points[i]) {
      assert points[i] == Order(extras)[i - 1].point && Order(extras)[i - 1] in Order(extras);
    }
    forall i, j | 0 <= i < j < |points| ensures !(Covers(points[j], points[i]) && points[j] != points[i]) {
      assert i > 0 ==> Depth(Order(extras)[i - 1]) <= Depth(Order(extras)[j - 1]);
      if i > 0 && Covers(points[j], points[i]) && points[j] != points[i] {
        AncestorIsShallower(points[j], points[i]);
      }
    }
  }

  lemma ViewOfPoints(blockDev: string, fsType: string, extras: seq<Filesystem>, n: nat, path: string)
    requires CleanExtras(extras) && n <= |Order(extras)| && AbsolutePath(path)
    ensures var i := View(Tree(blockDev, fsType, extras, n), path);
      i >= 0 && LongestCover(Points(Order(extras)[..n]), path, i)
  {
    OrderKeeps(extras);
    var mounts, points := Tree(blockDev, fsType, extras, n), Points(Order(extras)[..n]);
    var targets := seq(|mounts|, i requires 0 <= i < |mounts| => mounts[i].target);
    forall i | 0 < i < |points| ensures CleanPoint(points[i]) && targets[i] == MOUNT_POINT + points[i] {
      assert points[i] == Order(extras)[i - 1].point && Order(extras)[i - 1] in Order(extras);
    }
    SameCover(targets, points, path);
    OrderIsAncestorsFirst(extras, n);
    LatestIsLongest(points, path);
    assert Covers(points[0], path);
  }

  lemma {:induction false} LastAtPoint(s: seq<Filesystem>, i: nat)
    requires i < |s| && forall j :: i < j < |s| ==> s[j].point != s[i].point
    ensures var at := AtPoint(s, s[i].point); at != [] && at[|at| - 1] == s[i]
  {
    if i < |s| - 1 {
      LastAtPoint(s[..|s| - 1], i);
    }
  }

  /** No later entry of the metadata is mounted at the same point. */
  ghost predicate LastEntry(extras: seq<Filesystem>, i: nat) {
    i < |extras| && forall j :: i < j < |extras| && Keeps(extras[j]) ==> extras[j].point != extras[i].point
  }

  lemma KeptSnoc(extras: seq<Filesystem>)
    requires extras != []
    ensures var before, last := Kept(extras[..|extras| - 1]), extras[|extras| - 1];
      Kept(extras) == if Keeps(last) then before + [last] else before
  {
    hide Keeps;
  }

  lemma LastEntryGrows(extras: seq<Filesystem>, i: nat)
    requires extras != [] && LastEntry(extras[..|extras| - 1], i)
    requires var last := extras[|extras| - 1]; !(Keeps(last) && last.point == extras[i].point)
    ensures LastEntry(extras, i)
  {
    hide Keeps;
    assert forall j :: 0 <= j < |extras| - 1 ==> extras[..|extras| - 1][j] == extras[j];
  }

  /** The last of what is kept at a point, in the metadata. */
  ghost predicate LastAt(extras: seq<Filesystem>, p: string, i: nat) {
    && LastEntry(extras, i) && extras[i].point == p
    && var at := AtPoint(Kept(extras), p); at != [] && at[|at| - 1] == extras[i]
  }

  lemma LastAtGrows(extras: seq<Filesystem>, p: string, i: nat)
    requires extras != [] && LastAt(extras[..|extras| - 1], p, i)
    requires var last := extras[|extras| - 1]; !(Keeps(last) && last.point == p)
    ensures LastAt(extras, p, i)
  {
    LastEntryGrows(extras, i);
    KeptSnoc(extras);
    AtPointSnoc(Kept(extras[..|extras| - 1]), extras[|extras| - 1], p);
    AppendEmpty(AtPoint(Kept(extras[..|extras| - 1]), p));
    hide Keeps, AtPoint, Kept, LastEntry;
  }

  lemma LastAtLast(extras: seq<Filesystem>)
    requires extras != [] && Keeps(extras[|extras| - 1])
    ensures LastAt(extras, extras[|extras| - 1].point, |extras| - 1)
  {
    KeptSnoc(extras);
    AtPointSnoc(Kept(extras[..|extras| - 1]), extras[|extras| - 1], extras[|extras| - 1].point);
    hide Keeps, AtPoint, Kept;
  }

  lemma {:induction false} LastIsLastEntry(extras: seq<Filesystem>, p: string) returns (i: nat)
    requires exists f :: f in extras && Keeps(f) && f.point == p
    ensures LastAt(extras, p, i)
  {
    hide Keeps, LastAt;
    var n := |extras| - 1;
    if Keeps(extras[n]) && extras[n].point == p {
      LastAtLast(extras);
      i := n;
    } else {
      TakeSnoc(extras);
      i := LastIsLastEntry(extras[..n], p);
      LastAtGrows(extras, p, i);
    }
  }

  /** The filesystem f is what the metadata says a path belongs to: the longest mount point
      covering it, and the last entry for that point. */
  ghost predicate Owns(extras: seq<Filesystem>, path: string, f: Filesystem) {
    && f in extras && Keeps(f) && Covers(f.point, path)
    && (forall g :: g in extras && Keeps(g) && Covers(g.point, path) ==> |g.point| <= |f.point|)
    && exists i: nat :: LastEntry(extras, i) && extras[i] == f
  }

  ghost predicate Unowned(extras: seq<Filesystem>, path: string) {
    forall g :: g in extras && Keeps(g) ==> !Covers(g.point, path)
  }

  lemma CoverBound(order: seq<Filesystem>, path: string, i: int, g: Filesystem)
    requires LongestCover(Points(order), path, i) && g in order && Covers(g.point, path) && CleanPoint(g.point)
    ensures i > 0 && |g.point| <= |order[i - 1].point|
  {
    hide Covers;
    var j :| 0 <= j < |order| && order[j] == g;
    assert Points(order)[j + 1] == g.point;
  }

  lemma LastOfPoint(order: seq<Filesystem>, path: string, i: int)
    requires LongestCover(Points(order), path, i) && i > 0
    ensures Covers(order[i - 1].point, path)
    ensures var at := AtPoint(order, order[i - 1].point); at != [] && at[|at| - 1] == order[i - 1]
  {
    hide Covers;
    forall j | i - 1 < j < |order| ensures order[j].point != order[i - 1].point {
      assert Points(order)[j + 1] == order[j].point;
    }
    LastAtPoint(order, i - 1);
  }

  lemma OrderAtPoint(extras: seq<Filesystem>, p: string)
    ensures AtPoint(Order(extras), p) == AtPoint(Kept(extras), p)
  {
    StableSortKeeps(Kept(extras), PathDepth(p));
    AtPointWithinDepth(Order(extras), p);
    AtPointWithinDepth(Kept(extras), p);
  }

  lemma LastAtPointIsLastEntry(extras: seq<Filesystem>, f: Filesystem)
    requires f in extras && Keeps(f)
    requires var at := AtPoint(Kept(extras), f.point); at != [] && at[|at| - 1] == f
    ensures exists i: nat :: LastEntry(extras, i) && extras[i] == f
  {
    hide Keeps, AtPoint, Kept, LastEntry;
    var i := LastIsLastEntry(extras, f.point);
  }

  lemma WinnerOwns(extras: seq<Filesystem>, path: string, i: int)
    requires CleanExtras(extras) && 0 <= i <= |Order(extras)| && LongestCover(Points(Order(extras)), path, i)
    ensures i == 0 ==> Unowned(extras, path)
    ensures i > 0 ==> Owns(extras, path, Order(extras)[i - 1])
  {
    OrderKeeps(extras);
    hide Covers, Keeps, CleanPoint, Order, AtPoint, Kept, LongestCover, Sorted, Points, LastEntry;
    forall g | g in extras && Keeps(g) && Covers(g.point, path)
      ensures i > 0 && |g.point| <= |Order(extras)[i - 1].point|
    {
      CoverBound(Order(extras), path, i, g);
    }
    if i > 0 {
      var f := Order(extras)[i - 1];
      assert f in Order(extras);
      LastOfPoint(Order(extras), path, i);
      OrderAtPoint(extras, f.point);
      LastAtPointIsLastEntry(extras, f);
    }
  }

  /** The mount view: after a complete run, the latest mount covering any path is the
      longest-prefix one of the metadata, or the primary device when no sibling covers it. */
  lemma MountView(blockDev: string, fsType: string, extras: seq<Filesystem>, path: string)
    requires CleanExtras(extras) && AbsolutePath(path)
    ensures var order := Order(extras); var tree := Tree(blockDev, fsType, extras, |order|); var i := View(tree, path);
      && i >= 0
      && (i == 0 ==> Unowned(extras, path) && tree[i] == Mount(blockDev, "/mountAction", fsType))
      && (i > 0 ==> var f := order[i - 1];
                    Owns(extras, path, f) && tree[i] == Mount(f.device, "/mountAction" + f.point, f.format))
  {
    hide Covers, LongestCover, Owns, Unowned, View, Order;
    assert Order(extras)[..|Order(extras)|] == Order(extras);
    ViewOfPoints(blockDev, fsType, extras, |Order(extras)|, path);
    WinnerOwns(extras, path, View(Tree(blockDev, fsType, extras, |Order(extras)|), path));
  }

  ghost predicate StrictlyAbove(g: Filesystem, f: Filesystem) { Covers(g.point, f.point) && g.point != f.point }

  /** Each mounted sibling is itself visible at its mount point, and everything listed above it
      is already mounted: a run cut short anywhere has shadowed nothing. */
  lemma NothingIsShadowed(blockDev: string, fsType: string, extras: seq<Filesystem>, n: nat, k: nat)
    requires CleanExtras(extras) && k < n <= |Order(extras)|
    ensures var order, tree := Order(extras), Tree(blockDev, fsType, extras, n);
      && var i := View(tree, order[k].point);
      && i >= 0 && tree[i].target == MOUNT_POINT + order[k].point
    ensures forall g :: g in extras && Keeps(g) && StrictlyAbove(g, Order(extras)[k]) ==> g in Order(extras)[..k]
  {
    var order := Order(extras);
    OrderKeeps(extras);
    hide StableSort, Kept, Keeps, View;
    var f := order[k];
    assert f in order;
    ViewOfPoints(blockDev, fsType, extras, n, f.point);
    var points, i := Points(order[..n]), View(Tree(blockDev, fsType, extras, n), f.point);
    assert points[k + 1] == f.point;
    assert |points[k + 1]| <= |points[i]|;
    CoversNest(f.point, points[i], f.point);
    forall g | g in extras && Keeps(g) && StrictlyAbove(g, f) ensures g in order[..k] {
      var j :| 0 <= j < |order| && order[j] == g;
      AncestorIsShallower(g.point, f.point);
      assert j < k;
    }
  }

  lemma OwnerIsUnique(extras: seq<Filesystem>, others: seq<Filesystem>, path: string, f: Filesystem, g: Filesystem)
    requires CleanExtras(extras) && AbsolutePath(path)
    requires forall x :: x in extras <==> x in others
    requires forall x, y :: x in extras && y in extras && Keeps(x) && Keeps(y) && x.point == y.point ==> x == y
    requires Owns(extras, path, f) && Owns(others, path, g)
    ensures f == g
  {
    assert |f.point| == |g.point|;
    CoversNest(f.point, g.point, path);
  }

  /** With distinct mount points the view does not depend on the order of the metadata. */
  lemma ViewIgnoresOrder(blockDev: string, fsType: string, extras: seq<Filesystem>, others: seq<Filesystem>, path: string)
    requires CleanExtras(extras) && AbsolutePath(path)
    requires forall x :: x in extras <==> x in others
    requires forall x, y :: x in extras && y in extras && Keeps(x) && Keeps(y) && x.point == y.point ==> x == y
    ensures var a, b := Tree(blockDev, fsType, extras, |Order(extras)|), Tree(blockDev, fsType, others, |Order(others)|);
      View(a, path) >= 0 && View(b, path) >= 0 && a[View(a, path)] == b[View(b, path)]
  {
    hide Covers, Keeps, CleanPoint, View, Kept, StableSort;
    assert CleanExtras(others);
    MountView(blockDev, fsType, extras, path);
    MountView(blockDev, fsType, others, path);
    var a, b := Tree(blockDev, fsType, extras, |Order(extras)|), Tree(blockDev, fsType, others, |Order(others)|);
    var i, j := View(a, path), View(b, path);
    if i > 0 && j > 0 {
      OwnerIsUnique(extras, others, path, Order(extras)[i - 1], Order(others)[j - 1]);
    }
  }
}
