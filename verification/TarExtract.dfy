/** Tar extraction in two phases: entries in archive order, hard links remembered in a map and
    made afterwards in whatever order the map is walked. The file system is a map from paths to
    inodes and a map from inodes to contents. */
module TarExtract {
  import opened Options
  import opened Paths
  import opened Sequences

  datatype Inode = Regular(data: string) | SymbolicLink(value: string)
  datatype Node = Directory | Ref(inode: nat)
  datatype Tree = Tree(names: map<Path, Node>, inodes: map<nat, Inode>, next: nat)

  // Corrupt: the archive cannot be read on. A file that is cut off in the archive is not complete.
  datatype Entry =
    | Dir(name: Path)
    | HardLink(name: Path, target: Path)
    | Symlink(name: Path, value: string)
    | File(name: Path, data: string, complete: bool)
    | Unhandled(name: Path)
    | Corrupt

  // The tree that is left behind, whether or not an error ended the work.
  datatype Result = Result(tree: Tree, ok: bool)

  // ---------------------------------------------------------------- system calls

  // The extraction root, [], always exists.
  predicate IsDir(names: map<Path, Node>, p: Path) { p == [] || (p in names && names[p].Directory?) }

  /** os.MkdirAll: nothing is made when something on the way is not a directory. */
  function MkdirAll(names: map<Path, Node>, p: Path): Option<map<Path, Node>>
    decreases |p|
  {
    if p == [] then Some(names)
    else if p in names then (if names[p].Directory? then Some(names) else None)
    else
      match MkdirAll(names, Parent(p))
      case None => None
      case Some(made) => Some(made[p := Directory])
  }

  function MakeSymlink(t: Tree, p: Path, value: string): Result {
    if p == [] || p in t.names then Result(t, true)
    else if !IsDir(t.names, Parent(p)) then Result(t, false)
    else Result(Tree(t.names[p := Ref(t.next)], t.inodes[t.next := SymbolicLink(value)], t.next + 1), true)
  }

  /** Missing directories first (an error there is ignored), then create or truncate, then write. */
  function WriteFile(t: Tree, p: Path, data: string): Result {
    if p == [] then Result(t, false)
    else
      var made := MkdirAll(t.names, Parent(p));
      var names := if made.Some? then made.value else t.names;
      if !IsDir(names, Parent(p)) then Result(t.(names := names), false)
      else if p !in names then
        Result(Tree(names[p := Ref(t.next)], t.inodes[t.next := Regular(data)], t.next + 1), true)
      else if names[p].Ref? && names[p].inode in t.inodes && t.inodes[names[p].inode].Regular? then
        Result(t.(names := names, inodes := t.inodes[names[p].inode := Regular(data)]), true)
      else Result(t.(names := names), false)
  }

  // When os.Link works: the old name is no directory, and the new one is free in a directory.
  predicate Linkable(names: map<Path, Node>, target: Path, name: Path) {
    && target in names && names[target].Ref?
    && name != [] && name !in names && IsDir(names, Parent(name))
  }

  function Link(t: Tree, target: Path, name: Path): Result {
    if Linkable(t.names, target, name) then Result(t.(names := t.names[name := t.names[target]]), true)
    else Result(t, false)
  }

  // ---------------------------------------------------------------- the two phases

  /** What the entry loop does on the spot; a hard link is only remembered. */
  function Perform(t: Tree, e: Entry): Result {
    match e
    case Dir(p) =>
      var made := MkdirAll(t.names, p);
      if made.Some? then Result(t.(names := made.value), true) else Result(t, false)
    case HardLink(_, _) => Result(t, true)
    case Symlink(p, value) => MakeSymlink(t, p, value)
    case File(p, data, complete) =>
      var r := WriteFile(t, p, data);
      if complete then r else r.(ok := false)
    case Unhandled(_) => Result(t, true)
    case Corrupt => Result(t, false)
  }

  /** The entry loop: the first error ends it. */
  function Unpack(t: Tree, entries: seq<Entry>): Result {
    if entries == [] then Result(t, true)
    else
      var before := Unpack(t, entries[..|entries| - 1]);
      if before.ok then Perform(before.tree, entries[|entries| - 1]) else before
  }

  /** The remembered hard links; the last one for a name counts. */
  function Deferred(entries: seq<Entry>): map<Path, Path> {
    if entries == [] then map[]
    else
      var before, e := Deferred(entries[..|entries| - 1]), entries[|entries| - 1];
      if e.HardLink? then before[e.name := e.target] else before
  }

  /** The link loop, walking the names in the given order. */
  function LinkAll(t: Tree, links: map<Path, Path>, order: seq<Path>): Result
    requires forall p :: p in order ==> p in links
  {
    if order == [] then Result(t, true)
    else
      var name := order[|order| - 1];
      assert name in order;
      var before := LinkAll(t, links, order[..|order| - 1]);
      if before.ok then Link(before.tree, links[name], name) else before
  }

  /** The order names every remembered link once. */
  ghost predicate WalkOf(order: seq<Path>, links: map<Path, Path>) {
    && (forall p :: p in order <==> p in links)
    && (forall i, j :: 0 <= i < j < |order| ==> order[i] != order[j])
  }

  ghost function Extract(t: Tree, entries: seq<Entry>, order: seq<Path>): Result
    requires WalkOf(order, Deferred(entries))
  {
    var unpacked := Unpack(t, entries);
    if unpacked.ok then LinkAll(unpacked.tree, Deferred(entries), order) else unpacked
  }

  // ---------------------------------------------------------------- the program

  class Extraction {
    var tree: Tree

    constructor (tree: Tree)
      ensures this.tree == tree
    {
      this.tree := tree;
    }

    /** One entry that is not a hard link. */
    method Process(e: Entry) returns (ok: bool)
      requires !e.HardLink?
      modifies this
      ensures Result(tree, ok) == Perform(old(tree), e)
    {
      ok := true;
      match e {
        case Dir(p) =>
          var made := MkdirAll(tree.names, p);
          if made.None? {
            return false;
          }
          tree := tree.(names := made.value);
        case Symlink(p, value) =>
          var r := MakeSymlink(tree, p, value);
          tree, ok := r.tree, r.ok;
        case File(p, data, complete) =>
          var r := WriteFile(tree, p, data);
          tree, ok := r.tree, r.ok && complete;
        case Unhandled(_) =>
        case Corrupt =>
          ok := false;
      }
    }

    /** The map's iteration order is arbitrary: any remaining name may come next. */
    method MakeLinks(links: map<Path, Path>) returns (ok: bool, ghost order: seq<Path>)
      modifies this
      ensures WalkOf(order, links)
      ensures Result(tree, ok) == LinkAll(old(tree), links, order)
    {
      hide Link, LinkAll, PartWalk;
      var remaining := links.Keys;
      order := [];
      StartOfWalk(tree, links);
      while remaining != {}
        invariant PartWalk(order, remaining, links) && forall p :: p in order ==> p in links
        invariant Result(tree, true) == LinkAll(old(tree), links, order)
        decreases |remaining|
      {
        var name :| name in remaining;
        WalkOn(order, remaining, links, name);
        LinkAllSnoc(old(tree), links, order, name);
        order, remaining := order + [name], remaining - {name};
        var r := Link(tree, links[name], name);
        tree := r.tree;
        if !r.ok {
          ghost var rest := RestOfWalk(order, remaining, links);
          StopsAtFailure(old(tree), links, order, rest);
          return false, order + rest;
        }
      }
      ok := true;
      WalkDone(order, links);
    }

    method ExtractTarDirectory(entries: seq<Entry>) returns (ok: bool, ghost order: seq<Path>)
      modifies this
      ensures WalkOf(order, Deferred(entries))
      ensures Result(tree, ok) == Extract(old(tree), entries, order)
    {
      var hardLinks: map<Path, Path> := map[];
      for i := 0 to |entries|
        invariant hardLinks == Deferred(entries[..i])
        invariant Result(tree, true) == Unpack(old(tree), entries[..i])
      {
        var e := entries[i];
        assert entries[..i + 1][..i] == entries[..i];
        if e.HardLink? {
          hardLinks := hardLinks[e.name := e.target];
        } else {
          var done := Process(e);
          if !done {
            StopsUnpacking(old(tree), entries, i + 1);
            order := SomeWalk(Deferred(entries).Keys);
            return false, order;
          }
        }
      }
      assert entries[..|entries|] == entries;
      ok, order := MakeLinks(hardLinks);
    }
  }

  ghost function SomeWalk(names: set<Path>): (walk: seq<Path>)
    ensures forall p :: p in walk <==> p in names
    ensures forall i, j :: 0 <= i < j < |walk| ==> walk[i] != walk[j]
  {
    if names == {} then []
    else
      var p :| p in names;
      SomeWalk(names - {p}) + [p]
  }

  /** The names walked so far, each once, and the ones that remain. */
  ghost predicate PartWalk(order: seq<Path>, remaining: set<Path>, links: map<Path, Path>) {
    && (forall p :: p in links <==> p in order || p in remaining)
    && (forall p :: p in order ==> p !in remaining)
    && (forall i, j :: 0 <= i < j < |order| ==> order[i] != order[j])
  }

  lemma StartOfWalk(t: Tree, links: map<Path, Path>)
    ensures PartWalk([], links.Keys, links) && LinkAll(t, links, []) == Result(t, true)
  {
  }

  lemma WalkOn(order: seq<Path>, remaining: set<Path>, links: map<Path, Path>, name: Path)
    requires PartWalk(order, remaining, links) && name in remaining
    ensures name in links && PartWalk(order + [name], remaining - {name}, links)
    ensures forall p :: p in order + [name] ==> p in links
  {
  }

  lemma RestOfWalk(order: seq<Path>, remaining: set<Path>, links: map<Path, Path>) returns (rest: seq<Path>)
    requires PartWalk(order, remaining, links)
    ensures WalkOf(order + rest, links) && forall p :: p in order ==> p in links
  {
    rest := SomeWalk(remaining);
    var walk := order + rest;
    forall i, j | 0 <= i < j < |walk| ensures walk[i] != walk[j] {
      assert i < |order| <= j ==> rest[j - |order|] in remaining;
    }
  }

  lemma WalkDone(order: seq<Path>, links: map<Path, Path>)
    requires PartWalk(order, {}, links)
    ensures WalkOf(order, links)
  {
  }

  lemma LinkAllSnoc(t: Tree, links: map<Path, Path>, order: seq<Path>, name: Path)
    requires name in links && forall p :: p in order ==> p in links
    ensures LinkAll(t, links, order + [name]) ==
      var before := LinkAll(t, links, order);
      if before.ok then Link(before.tree, links[name], name) else before
  {
    assert (order + [name])[..|order|] == order;
  }

  lemma {:induction false} StopsAtFailure(t: Tree, links: map<Path, Path>, order: seq<Path>, rest: seq<Path>)
    requires forall p :: p in order + rest ==> p in links
    requires forall p :: p in order ==> p in links
    requires !LinkAll(t, links, order).ok
    ensures LinkAll(t, links, order + rest) == LinkAll(t, links, order)
  {
    if rest == [] {
      AppendEmpty(order);
    } else {
      var front, name := rest[..|rest| - 1], rest[|rest| - 1];
      AppendSnoc(order, rest);
      assert forall p :: p in order + front ==> p in order + rest;
      assert name in order + rest;
      StopsAtFailure(t, links, order, front);
      LinkAllSnoc(t, links, order + front, name);
    }
  }

  lemma {:induction false} StopsUnpacking(t: Tree, entries: seq<Entry>, n: nat)
    requires n <= |entries| && !Unpack(t, entries[..n]).ok
    ensures Unpack(t, entries) == Unpack(t, entries[..n])
    decreases |entries|
  {
    if n == |entries| {
      assert entries[..n] == entries;
    } else {
      assert entries[..|entries| - 1][..n] == entries[..n];
      StopsUnpacking(t, entries[..|entries| - 1], n);
    }
  }

  // ---------------------------------------------------------------- order independence

  /** No hard link's target is the name of another hard link (or its own). */
  ghost predicate NoChains(links: map<Path, Path>) { forall p :: p in links ==> links[p] !in links }

  /** Every link can be made on the tree as the entries left it. */
  ghost predicate AllLinkable(t: Tree, links: map<Path, Path>) {
    forall p :: p in links ==> Linkable(t.names, links[p], p)
  }

  /** A link that is made late could have been made first, if its target is no link. */
  lemma {:induction false} LinkedWasLinkable(t: Tree, links: map<Path, Path>, order: seq<Path>, p: Path)
    requires (forall q :: q in order ==> q in links) && LinkAll(t, links, order).ok
    ensures forall q :: q in LinkAll(t, links, order).tree.names && q !in order ==>
      q in t.names && LinkAll(t, links, order).tree.names[q] == t.names[q]
    ensures forall q :: q in t.names ==> q in LinkAll(t, links, order).tree.names
    ensures forall q :: q in LinkAll(t, links, order).tree.names && q in order ==>
      LinkAll(t, links, order).tree.names[q].Ref?
    ensures p in order ==> p != [] && p !in t.names && IsDir(t.names, Parent(p))
    ensures p in order && links[p] !in links ==> Linkable(t.names, links[p], p)
  {
    if order != [] {
      var front, name := order[..|order| - 1], order[|order| - 1];
      TakeSnoc(order);
      LinkedWasLinkable(t, links, front, p);
      LinkAllSnoc(t, links, front, name);
      hide LinkAll;
      assert forall q :: q in order <==> q in front || q == name;
      var before := LinkAll(t, links, front).tree;
      assert Linkable(before.names, links[name], name);
    }
  }

  lemma {:induction false} LinkAllInodes(t: Tree, links: map<Path, Path>, order: seq<Path>)
    requires forall p :: p in order ==> p in links
    ensures var u := LinkAll(t, links, order).tree; u.inodes == t.inodes && u.next == t.next
  {
    if order != [] {
      LinkAllInodes(t, links, order[..|order| - 1]);
    }
  }

  /** What a successful walk leaves: the names there were, and every walked name with the node of its
      target, wherever that came from. */
  lemma {:induction false} WalkLinks(t: Tree, links: map<Path, Path>, order: seq<Path>)
    requires (forall p :: p in order ==> p in links) && LinkAll(t, links, order).ok
    ensures var names := LinkAll(t, links, order).tree.names;
      && (forall p :: p in names <==> p in t.names || p in order)
      && (forall p :: p in t.names ==> names[p] == t.names[p])
      && (forall p :: p in order ==> p !in t.names && links[p] in names && names[p] == names[links[p]])
  {
    if order != [] {
      var front, name := order[..|order| - 1], order[|order| - 1];
      TakeSnoc(order);
      WalkLinks(t, links, front);
      LinkAllSnoc(t, links, front, name);
      hide LinkAll;
      assert forall q :: q in order <==> q in front || q == name;
      assert Linkable(LinkAll(t, links, front).tree.names, links[name], name);
    }
  }

  ghost predicate KeepsNames(t: Tree, u: Tree) {
    forall p :: p in t.names ==> p in u.names && u.names[p] == t.names[p]
  }

  /** However far a walk has come, it agrees with any complete one: the target of a walked name was
      there before the walk or was walked before it. */
  lemma {:induction false} WalkAgrees(t: Tree, links: map<Path, Path>, part: seq<Path>, whole: seq<Path>)
    requires (forall p :: p in part ==> p in links) && LinkAll(t, links, part).ok
    requires WalkOf(whole, links) && LinkAll(t, links, whole).ok
    ensures KeepsNames(LinkAll(t, links, part).tree, LinkAll(t, links, whole).tree)
  {
    WalkLinks(t, links, whole);
    if part != [] {
      var front, name := part[..|part| - 1], part[|part| - 1];
      TakeSnoc(part);
      assert name in part;
      WalkAgrees(t, links, front, whole);
      LinkAllSnoc(t, links, front, name);
      hide LinkAll;
      assert Linkable(LinkAll(t, links, front).tree.names, links[name], name);
    }
  }

  /** Two walks that both succeed end in the same tree, whether or not links chain. */
  lemma SuccessfulWalksAgree(t: Tree, links: map<Path, Path>, a: seq<Path>, b: seq<Path>)
    requires WalkOf(a, links) && WalkOf(b, links) && LinkAll(t, links, a).ok && LinkAll(t, links, b).ok
    ensures LinkAll(t, links, a) == LinkAll(t, links, b)
  {
    WalkLinks(t, links, a);
    WalkLinks(t, links, b);
    WalkAgrees(t, links, a, b);
    LinkAllInodes(t, links, a);
    LinkAllInodes(t, links, b);
    hide LinkAll;
    assert LinkAll(t, links, a).tree.names == LinkAll(t, links, b).tree.names;
  }

  /** Linking whatever can be linked works in any order. */
  lemma {:induction false} AllLinked(t: Tree, links: map<Path, Path>, order: seq<Path>)
    requires NoChains(links) && AllLinkable(t, links)
    requires (forall p :: p in order ==> p in links) && forall i, j :: 0 <= i < j < |order| ==> order[i] != order[j]
    ensures LinkAll(t, links, order).ok
  {
    if order != [] {
      var front, name := order[..|order| - 1], order[|order| - 1];
      TakeSnoc(order);
      AllLinked(t, links, front);
      WalkLinks(t, links, front);
      LinkAllSnoc(t, links, front, name);
      assert name in order && name !in front;
      hide LinkAll;
      assert Linkable(t.names, links[name], name);
    }
  }

  lemma WalksOrNot(t: Tree, links: map<Path, Path>, order: seq<Path>)
    requires NoChains(links) && WalkOf(order, links)
    ensures LinkAll(t, links, order).ok <==> AllLinkable(t, links)
  {
    if AllLinkable(t, links) {
      AllLinked(t, links, order);
    }
    if LinkAll(t, links, order).ok {
      forall p | p in links ensures Linkable(t.names, links[p], p) {
        LinkedWasLinkable(t, links, order, p);
      }
    }
  }

  /** With no chains, the links all come about in every order or in none, and then the tree is the
      same for every order. */
  lemma LinkOrderIsIrrelevant(t: Tree, links: map<Path, Path>, a: seq<Path>, b: seq<Path>)
    requires NoChains(links) && WalkOf(a, links) && WalkOf(b, links)
    ensures LinkAll(t, links, a).ok <==> LinkAll(t, links, b).ok
    ensures LinkAll(t, links, a).ok ==> LinkAll(t, links, a) == LinkAll(t, links, b)
  {
    WalksOrNot(t, links, a);
    WalksOrNot(t, links, b);
    if LinkAll(t, links, a).ok {
      SuccessfulWalksAgree(t, links, a, b);
    }
  }

  /** Moving one name to the front of a walk. */
  lemma WalkStartingWith(links: map<Path, Path>, p: Path) returns (order: seq<Path>)
    requires p in links
    ensures WalkOf(order, links) && order != [] && order[0] == p
  {
    var rest := SomeWalk(links.Keys - {p});
    order := [p] + rest;
  }

  /** The condition is exact: when the links can be made in some order, they can be made in every
      order if and only if no link's target is the name of a link. */
  lemma EveryOrderWorksIffNoChains(t: Tree, links: map<Path, Path>, some: seq<Path>)
    requires WalkOf(some, links) && LinkAll(t, links, some).ok
    ensures (forall order :: WalkOf(order, links) ==> LinkAll(t, links, order).ok) <==> NoChains(links)
  {
    if NoChains(links) {
      forall order | WalkOf(order, links) ensures LinkAll(t, links, order).ok {
        LinkOrderIsIrrelevant(t, links, some, order);
      }
    } else {
      var p :| p in links && links[p] in links;
      LinkedWasLinkable(t, links, some, links[p]);
      var order := WalkStartingWith(links, p);
      ChainFirstFails(t, links, order, p);
    }
  }

  lemma ChainFirstFails(t: Tree, links: map<Path, Path>, order: seq<Path>, p: Path)
    requires WalkOf(order, links) && order != [] && order[0] == p
    requires p in links && links[p] !in t.names
    ensures !LinkAll(t, links, order).ok
  {
    LinkAllSnoc(t, links, [], p);
    assert [] + [p] == [p];
    var rest := order[1..];
    assert order == [p] + rest;
    StopsAtFailure(t, links, [p], rest);
  }

  /** Extraction as a whole: without chains, its success, and the final tree on success, do not
      depend on the order in which the map is walked. */
  lemma ExtractionIgnoresMapOrder(t: Tree, entries: seq<Entry>, a: seq<Path>, b: seq<Path>)
    requires NoChains(Deferred(entries)) && WalkOf(a, Deferred(entries)) && WalkOf(b, Deferred(entries))
    ensures Extract(t, entries, a).ok <==> Extract(t, entries, b).ok
    ensures Extract(t, entries, a).ok ==> Extract(t, entries, a) == Extract(t, entries, b)
  {
    LinkOrderIsIrrelevant(Unpack(t, entries).tree, Deferred(entries), a, b);
  }

  /** Two extractions that both succeed end in the same tree, whatever the archive. */
  lemma SuccessfulExtractionsAgree(t: Tree, entries: seq<Entry>, a: seq<Path>, b: seq<Path>)
    requires WalkOf(a, Deferred(entries)) && WalkOf(b, Deferred(entries))
    requires Extract(t, entries, a).ok && Extract(t, entries, b).ok
    ensures Extract(t, entries, a) == Extract(t, entries, b)
  {
    SuccessfulWalksAgree(Unpack(t, entries).tree, Deferred(entries), a, b);
  }

  // ---------------------------------------------------------------- against in-order extraction

  /** The plain meaning of the archive: every entry, links too, at its place. */
  ghost function InOrder(t: Tree, entries: seq<Entry>): Result {
    if entries == [] then Result(t, true)
    else
      var before, e := InOrder(t, entries[..|entries| - 1]), entries[|entries| - 1];
      if !before.ok then before
      else if e.HardLink? then Link(before.tree, e.target, e.name)
      else Perform(before.tree, e)
  }

  /** The full tree is the plain one plus the links, none of which the plain one has. */
  ghost predicate Ahead(full: Tree, plain: Tree, links: map<Path, Path>) {
    && full.inodes == plain.inodes && full.next == plain.next
    && AllLinkable(plain, links)
    && full.names == plain.names + map p | p in links :: plain.names[links[p]]
  }

  lemma SameDirs(full: Tree, plain: Tree, links: map<Path, Path>, p: Path)
    requires Ahead(full, plain, links)
    ensures IsDir(full.names, p) <==> IsDir(plain.names, p)
  {
    assert p in links ==> Linkable(plain.names, links[p], p);
  }

  /** Only directories no longer than the path are added. */
  lemma {:induction false} MkdirAllAdds(names: map<Path, Node>, p: Path)
    ensures MkdirAll(names, p).Some? ==> forall q :: q in MkdirAll(names, p).value ==> q in names || |q| <= |p|
    decreases |p|
  {
    if p != [] && p !in names {
      MkdirAllAdds(names, Parent(p));
    }
  }

  lemma {:induction false} MkdirAllAhead(full: Tree, plain: Tree, links: map<Path, Path>, p: Path)
    requires Ahead(full, plain, links) && MkdirAll(full.names, p).Some?
    ensures MkdirAll(plain.names, p).Some?
    ensures Ahead(full.(names := MkdirAll(full.names, p).value), plain.(names := MkdirAll(plain.names, p).value), links)
    ensures forall q :: q in plain.names ==> q in MkdirAll(plain.names, p).value
    decreases |p|
  {
    SameDirs(full, plain, links, p);
    assert p in links ==> Linkable(plain.names, links[p], p);
    if p != [] && p !in full.names {
      MkdirAllAhead(full, plain, links, Parent(p));
      MkdirAllAdds(plain.names, Parent(p));
      var f, g := MkdirAll(full.names, Parent(p)).value, MkdirAll(plain.names, Parent(p)).value;
      NameAhead(full.(names := f), plain.(names := g), links, p, Directory);
    }
  }

  /** A new name that is no link. */
  lemma NameAhead(full: Tree, plain: Tree, links: map<Path, Path>, p: Path, node: Node)
    requires Ahead(full, plain, links) && p !in links && p !in plain.names
    ensures Ahead(full.(names := full.names[p := node]), plain.(names := plain.names[p := node]), links)
  {
    var g := plain.(names := plain.names[p := node]);
    forall q | q in links ensures Linkable(g.names, links[q], q) {
      assert Linkable(plain.names, links[q], q);
    }
  }

  lemma SymlinkAhead(full: Tree, plain: Tree, links: map<Path, Path>, p: Path, value: string)
    requires Ahead(full, plain, links) && p !in links && MakeSymlink(full, p, value).ok
    ensures MakeSymlink(plain, p, value).ok
    ensures Ahead(MakeSymlink(full, p, value).tree, MakeSymlink(plain, p, value).tree, links)
  {
    if p != [] && p !in full.names {
      SameDirs(full, plain, links, Parent(p));
      NameAhead(full, plain, links, p, Ref(full.next));
    }
  }

  lemma FileAhead(full: Tree, plain: Tree, links: map<Path, Path>, p: Path, data: string)
    requires Ahead(full, plain, links) && p !in links && WriteFile(full, p, data).ok
    ensures WriteFile(plain, p, data).ok
    ensures Ahead(WriteFile(full, p, data).tree, WriteFile(plain, p, data).tree, links)
  {
    DirOrNothing(full.names, Parent(p));
    MkdirAllAhead(full, plain, links, Parent(p));
    var f := full.(names := MkdirAll(full.names, Parent(p)).value);
    var g := plain.(names := MkdirAll(plain.names, Parent(p)).value);
    SameDirs(f, g, links, Parent(p));
    hide MkdirAll;
    if p !in f.names {
      NameAhead(f, g, links, p, Ref(full.next));
    }
  }

  /** Where a directory is in the end, making it did not fail. */
  lemma DirOrNothing(names: map<Path, Node>, p: Path)
    ensures IsDir(names, p) ==> MkdirAll(names, p).Some?
  {
  }

  lemma LinkAhead(full: Tree, plain: Tree, links: map<Path, Path>, target: Path, name: Path)
    requires Ahead(full, plain, links) && Link(full, target, name).ok && target !in links && target != name
    ensures name !in links && Ahead(Link(full, target, name).tree, plain, links[name := target])
  {
    SameDirs(full, plain, links, Parent(name));
    assert Linkable(plain.names, target, name);
    var more := links[name := target];
    forall q | q in more ensures Linkable(plain.names, more[q], q) {
      assert q != name ==> Linkable(plain.names, links[q], q);
    }
  }

  lemma PerformAhead(full: Tree, plain: Tree, links: map<Path, Path>, e: Entry)
    requires Ahead(full, plain, links) && !e.HardLink? && (!e.Corrupt? ==> e.name !in links) && Perform(full, e).ok
    ensures Perform(plain, e).ok && Ahead(Perform(full, e).tree, Perform(plain, e).tree, links)
  {
    hide Ahead, MkdirAll, MakeSymlink, WriteFile;
    match e {
      case Dir(p) => MkdirAllAhead(full, plain, links, p);
      case Symlink(p, value) => SymlinkAhead(full, plain, links, p, value);
      case File(p, data, complete) => FileAhead(full, plain, links, p, data);
      case Unhandled(_) =>
    }
  }

  ghost predicate LinkAt(entries: seq<Entry>, i: nat, p: Path, target: Path) {
    i < |entries| && entries[i].HardLink? && entries[i].name == p && entries[i].target == target
  }

  /** Entry i is the last hard link for its name. */
  ghost predicate LastLinkAt(entries: seq<Entry>, i: nat, p: Path, target: Path) {
    LinkAt(entries, i, p, target) && forall j :: i < j < |entries| && entries[j].HardLink? ==> entries[j].name != p
  }

  /** What is remembered of a name is the target of its last hard link. */
  lemma {:induction false} DeferredNames(entries: seq<Entry>)
    ensures forall p :: p in Deferred(entries) ==> exists i: nat :: LastLinkAt(entries, i, p, Deferred(entries)[p])
    ensures forall i :: 0 <= i < |entries| && entries[i].HardLink? ==> entries[i].name in Deferred(entries)
  {
    if entries != [] {
      var front, last := entries[..|entries| - 1], entries[|entries| - 1];
      DeferredNames(front);
      forall p | p in Deferred(entries) ensures exists i: nat :: LastLinkAt(entries, i, p, Deferred(entries)[p]) {
        if last.HardLink? && last.name == p {
          assert LastLinkAt(entries, |front|, p, last.target);
        } else {
          var i: nat :| LastLinkAt(front, i, p, Deferred(front)[p]);
          assert forall j :: 0 <= j < |front| ==> front[j] == entries[j];
          assert LastLinkAt(entries, i, p, Deferred(front)[p]);
        }
      }
    }
  }

  /** No entry of another kind comes back to the name of a hard link; in particular when all names
      are distinct. */
  ghost predicate LinksLeftAlone(entries: seq<Entry>) {
    forall i, j :: 0 <= i < j < |entries| && entries[i].HardLink? && !entries[j].HardLink? && !entries[j].Corrupt? ==>
      entries[i].name != entries[j].name
  }

  /** No archive entry links to the name of a hard link. */
  ghost predicate NoEntryChains(entries: seq<Entry>) {
    forall i, j :: 0 <= i < |entries| && 0 <= j < |entries| && entries[i].HardLink? && entries[j].HardLink? ==>
      entries[i].target != entries[j].name
  }

  lemma {:induction false} InOrderIsAhead(t: Tree, entries: seq<Entry>)
    requires LinksLeftAlone(entries) && NoEntryChains(entries) && InOrder(t, entries).ok
    ensures Unpack(t, entries).ok
    ensures Ahead(InOrder(t, entries).tree, Unpack(t, entries).tree, Deferred(entries))
  {
    if entries != [] {
      var front, e := entries[..|entries| - 1], entries[|entries| - 1];
      InOrderIsAhead(t, front);
      DeferredNames(front);
      var full, plain, links := InOrder(t, front).tree, Unpack(t, front).tree, Deferred(front);
      LastIsNew(entries);
      hide Ahead, LinksLeftAlone, NoEntryChains;
      if e.HardLink? {
        LinkAhead(full, plain, links, e.target, e.name);
      } else {
        PerformAhead(full, plain, links, e);
      }
    } else {
      assert t.names + map[] == t.names;
    }
  }

  lemma LastIsNew(entries: seq<Entry>)
    requires entries != [] && LinksLeftAlone(entries) && NoEntryChains(entries)
    ensures var links, e := Deferred(entries[..|entries| - 1]), entries[|entries| - 1];
      && (!e.Corrupt? && !e.HardLink? ==> e.name !in links)
      && (e.HardLink? ==> e.target !in links && e.target != e.name)
  {
    var front, e := entries[..|entries| - 1], entries[|entries| - 1];
    DeferredNames(front);
    assert forall i :: 0 <= i < |front| ==> front[i] == entries[i];
  }

  /** Walking the links brings the plain tree to the full one. */
  lemma WalkCatchesUp(full: Tree, plain: Tree, links: map<Path, Path>, order: seq<Path>)
    requires Ahead(full, plain, links) && NoChains(links) && WalkOf(order, links)
    ensures LinkAll(plain, links, order) == Result(full, true)
  {
    AllLinked(plain, links, order);
    WalkLinks(plain, links, order);
    LinkAllInodes(plain, links, order);
    hide LinkAll;
    var names := LinkAll(plain, links, order).tree.names;
    forall p | p in links ensures names[p] == plain.names[links[p]] {
      assert Linkable(plain.names, links[p], p);
    }
    assert names == full.names;
  }

  /** Deferring is faithful: when link names are not used again, no link targets a link and the
      archive can be extracted in its own order, the two-phase extraction succeeds for every order of
      the map and gives that very tree, shared inodes included. */
  lemma DeferringIsFaithful(t: Tree, entries: seq<Entry>, order: seq<Path>)
    requires LinksLeftAlone(entries) && NoEntryChains(entries) && InOrder(t, entries).ok
    requires WalkOf(order, Deferred(entries))
    ensures Extract(t, entries, order) == InOrder(t, entries)
  {
    InOrderIsAhead(t, entries);
    DeferredNames(entries);
    assert NoChains(Deferred(entries));
    hide InOrder, Unpack, LinkAll, Deferred, Ahead, NoChains, WalkOf;
    WalkCatchesUp(InOrder(t, entries).tree, Unpack(t, entries).tree, Deferred(entries), order);
  }

  // ---------------------------------------------------------------- what extraction keeps

  /** Everything sits in a directory, and every name that is no directory has its inode. */
  ghost predicate Sound(t: Tree) {
    && (forall p :: p in t.names && p != [] ==> IsDir(t.names, Parent(p)))
    && (forall p :: p in t.names && t.names[p].Ref? ==> t.names[p].inode in t.inodes)
    && (forall i :: i in t.inodes ==> i < t.next)
  }

  lemma {:induction false} MkdirAllSound(t: Tree, p: Path)
    requires Sound(t)
    ensures var made := MkdirAll(t.names, p); made.Some? ==>
      && Sound(t.(names := made.value)) && IsDir(made.value, p)
      && (forall q :: q in t.names ==> q in made.value && made.value[q] == t.names[q])
    decreases |p|
  {
    if p != [] && p !in t.names {
      MkdirAllSound(t, Parent(p));
      MkdirAllAdds(t.names, Parent(p));
      var made := MkdirAll(t.names, Parent(p));
      if made.Some? {
        DirSound(t.(names := made.value), p);
      }
      hide Sound;
    }
  }

  lemma DirSound(t: Tree, p: Path)
    requires Sound(t) && p != [] && p !in t.names && IsDir(t.names, Parent(p))
    ensures Sound(t.(names := t.names[p := Directory]))
  {
    var u := t.(names := t.names[p := Directory]);
    forall q | q in u.names && q != [] ensures IsDir(u.names, Parent(q)) {
      assert q != p ==> IsDir(t.names, Parent(q));
    }
  }

  /** A new inode for a free name in a directory. */
  lemma NodeSound(t: Tree, p: Path, content: Inode)
    requires Sound(t) && p != [] && p !in t.names && IsDir(t.names, Parent(p))
    ensures Sound(Tree(t.names[p := Ref(t.next)], t.inodes[t.next := content], t.next + 1))
  {
    var u := Tree(t.names[p := Ref(t.next)], t.inodes[t.next := content], t.next + 1);
    forall q | q in u.names && q != [] ensures IsDir(u.names, Parent(q)) {
      assert q != p ==> IsDir(t.names, Parent(q));
    }
  }

  lemma FileSound(t: Tree, p: Path, data: string)
    requires Sound(t)
    ensures Sound(WriteFile(t, p, data).tree)
    ensures forall q :: q in t.names ==> q in WriteFile(t, p, data).tree.names && WriteFile(t, p, data).tree.names[q] == t.names[q]
  {
    if p != [] {
      MkdirAllSound(t, Parent(p));
      var made := MkdirAll(t.names, Parent(p));
      var u := t.(names := if made.Some? then made.value else t.names);
      if p !in u.names && IsDir(u.names, Parent(p)) {
        NodeSound(u, p, Regular(data));
      }
      hide MkdirAll;
    }
  }

  lemma PerformSound(t: Tree, e: Entry)
    requires Sound(t)
    ensures Sound(Perform(t, e).tree)
    ensures forall q :: q in t.names ==> q in Perform(t, e).tree.names && Perform(t, e).tree.names[q] == t.names[q]
  {
    match e {
      case Dir(p) => MkdirAllSound(t, p);
      case File(p, data, _) => FileSound(t, p, data);
      case Symlink(p, value) =>
        if p != [] && p !in t.names && IsDir(t.names, Parent(p)) {
          NodeSound(t, p, SymbolicLink(value));
        }
      case _ =>
    }
    hide MkdirAll, WriteFile, Sound;
  }

  lemma {:induction false} UnpackSound(t: Tree, entries: seq<Entry>)
    requires Sound(t)
    ensures var u := Unpack(t, entries).tree;
      Sound(u) && forall q :: q in t.names ==> q in u.names && u.names[q] == t.names[q]
  {
    if entries != [] {
      hide Sound, Perform;
      UnpackSound(t, entries[..|entries| - 1]);
      PerformSound(Unpack(t, entries[..|entries| - 1]).tree, entries[|entries| - 1]);
    }
  }

  lemma {:induction false} LinkAllSound(t: Tree, links: map<Path, Path>, order: seq<Path>)
    requires Sound(t) && forall p :: p in order ==> p in links
    ensures var u := LinkAll(t, links, order).tree;
      Sound(u) && forall q :: q in t.names ==> q in u.names && u.names[q] == t.names[q]
  {
    if order != [] {
      LinkAllSound(t, links, order[..|order| - 1]);
    }
  }

  /** Whether it succeeds or stops half-way, extraction keeps the tree sound and never takes a
      name away or points it at another inode. */
  lemma ExtractionKeepsNames(t: Tree, entries: seq<Entry>, order: seq<Path>)
    requires Sound(t) && WalkOf(order, Deferred(entries))
    ensures var u := Extract(t, entries, order).tree;
      Sound(u) && forall q :: q in t.names ==> q in u.names && u.names[q] == t.names[q]
  {
    UnpackSound(t, entries);
    hide Sound;
    LinkAllSound(Unpack(t, entries).tree, Deferred(entries), order);
  }

  // ---------------------------------------------------------------- when an entry can be processed

  // On the way to p, p left out.
  ghost predicate Above(q: Path, p: Path) { [] < q < p }

  /** What is there on the way to p is a directory. */
  ghost predicate WayClear(names: map<Path, Node>, p: Path) {
    forall q :: q in names && Above(q, p) ==> names[q].Directory?
  }

  ghost predicate DirFeasible(names: map<Path, Node>, p: Path) {
    WayClear(names, p) && (p != [] && p in names ==> names[p].Directory?)
  }

  /** When the entry can be carried out: missing directories are no obstacle to a directory or a file,
      but they are to a symbolic link; a file may replace a file, a symbolic link gives way to
      anything, and an entry of another type never ends the loop. */
  ghost predicate Feasible(t: Tree, e: Entry) {
    match e
    case Dir(p) => DirFeasible(t.names, p)
    case HardLink(_, _) => true
    case Symlink(p, _) =>
      p == [] || p in t.names || Parent(p) == [] || (Parent(p) in t.names && t.names[Parent(p)].Directory?)
    case File(p, _, complete) =>
      && complete && p != [] && WayClear(t.names, p)
      && (p in t.names ==> exists data :: HasInode(t, p, Regular(data)))
    case Unhandled(_) => true
    case Corrupt => false
  }

  /** The names there were, and p and what leads to it; the new ones but p are directories. */
  ghost predicate LeadsTo(before: map<Path, Node>, after: map<Path, Node>, p: Path) {
    && (forall q :: q in after <==> q in before || Above(q, p) || (q == p && p != []))
    && (forall q :: q in before ==> after[q] == before[q])
    && (forall q :: q in after && q !in before && q != p ==> after[q].Directory?)
  }

  /** A name for a new inode, or the inode that the name had. */
  ghost predicate Stored(t: Tree, u: Tree, p: Path, content: Inode) {
    && p in u.names && u.names[p].Ref?
    && (p !in t.names ==> u.names[p] == Ref(t.next) && u.next == t.next + 1)
    && (p in t.names ==> u.next == t.next)
    && u.inodes == t.inodes[u.names[p].inode := content]
  }

  /** What carrying the entry out does, and nothing else. */
  ghost predicate CarriedOut(t: Tree, u: Tree, e: Entry) {
    match e
    case Dir(p) =>
      LeadsTo(t.names, u.names, p) && (p != [] ==> u.names[p].Directory?) && u.inodes == t.inodes && u.next == t.next
    case Symlink(p, value) =>
      if p == [] || p in t.names then u == t
      else u.names == t.names[p := Ref(t.next)] && Stored(t, u, p, SymbolicLink(value))
    case File(p, data, _) => LeadsTo(t.names, u.names, p) && Stored(t, u, p, Regular(data))
    case _ => u == t
  }

  lemma AboveParent(p: Path)
    requires p != []
    ensures forall q :: Above(q, p) <==> Above(q, Parent(p)) || (q == Parent(p) && q != [])
  {
    forall q ensures Above(q, p) <==> Above(q, Parent(p)) || (q == Parent(p) && q != []) {
      if [] < q < p {
        assert q <= Parent(p);
      }
      if [] < q <= Parent(p) {
        assert q < p;
      }
    }
  }

  lemma {:induction false} WayIsThere(t: Tree, p: Path)
    requires Sound(t) && p in t.names
    ensures forall q :: Above(q, p) ==> q in t.names && t.names[q].Directory?
    decreases |p|
  {
    if p == [] {
      assert forall q :: !Above(q, p);
    } else {
      AboveParent(p);
      assert IsDir(t.names, Parent(p));
      if Parent(p) != [] {
        WayIsThere(t, Parent(p));
      }
      hide Above;
    }
  }

  lemma NothingAboveRoot()
    ensures forall q :: !Above(q, [])
  {
  }

  lemma FeasibleFromParent(names: map<Path, Node>, p: Path)
    requires p != []
    ensures WayClear(names, p) <==> DirFeasible(names, Parent(p))
  {
    AboveParent(p);
    hide Above;
  }

  lemma LeadsOn(before: map<Path, Node>, after: map<Path, Node>, p: Path, node: Node)
    requires p != [] && p !in before && LeadsTo(before, after, Parent(p)) && (Parent(p) != [] ==> after[Parent(p)].Directory?)
    ensures p !in after && LeadsTo(before, after[p := node], p)
  {
    AboveParent(p);
    assert !Above(p, p) && Parent(p) != p;
    assert !Above(p, Parent(p));
    hide Above;
  }

  lemma {:induction false} MkdirAllIff(t: Tree, p: Path)
    requires Sound(t)
    ensures MkdirAll(t.names, p).Some? <==> DirFeasible(t.names, p)
    ensures MkdirAll(t.names, p).Some? ==>
      var made := MkdirAll(t.names, p).value; LeadsTo(t.names, made, p) && (p != [] ==> p in made && made[p].Directory?)
    decreases |p|
  {
    NothingAboveRoot();
    if p in t.names {
      WayIsThere(t, p);
    } else if p != [] {
      MkdirAllIff(t, Parent(p));
      FeasibleFromParent(t.names, p);
      var made := MkdirAll(t.names, Parent(p));
      if made.Some? {
        LeadsOn(t.names, made.value, p, Directory);
      }
      hide LeadsTo, DirFeasible;
      assert DirFeasible(t.names, p) <==> WayClear(t.names, p) by { NewIsFeasible(t.names, p); }
    }
    hide Above, Sound;
  }

  lemma NewIsFeasible(names: map<Path, Node>, p: Path)
    requires p !in names
    ensures DirFeasible(names, p) <==> WayClear(names, p)
  {
  }

  lemma FileIff(t: Tree, p: Path, data: string)
    requires Sound(t)
    ensures WriteFile(t, p, data).ok <==> Feasible(t, File(p, data, true))
    ensures WriteFile(t, p, data).ok ==> CarriedOut(t, WriteFile(t, p, data).tree, File(p, data, true))
  {
    if p != [] {
      MkdirAllIff(t, Parent(p));
      FeasibleFromParent(t.names, p);
      DirOrNothing(t.names, Parent(p));
      var made := MkdirAll(t.names, Parent(p));
      if p in t.names {
        WayIsThere(t, p);
        DirIsKept(t.names, Parent(p));
      } else if made.Some? {
        LeadsOn(t.names, made.value, p, Ref(t.next));
      }
      hide MkdirAll, Above, DirFeasible, WayClear;
    }
  }

  /** An entry succeeds exactly when it is feasible, and then does exactly what it says. */
  lemma PerformIff(t: Tree, e: Entry)
    requires Sound(t)
    ensures Perform(t, e).ok <==> Feasible(t, e)
    ensures Perform(t, e).ok ==> CarriedOut(t, Perform(t, e).tree, e)
  {
    match e {
      case Dir(p) => MkdirAllIff(t, p);
      case File(p, data, _) => FileIff(t, p, data);
      case _ =>
    }
    hide MkdirAll, WriteFile, Sound;
  }

  /** The entry loop succeeds exactly when every entry is feasible where its turn comes. */
  ghost predicate AllFeasible(t: Tree, entries: seq<Entry>) {
    forall i :: 0 <= i < |entries| ==> Feasible(Unpack(t, entries[..i]).tree, entries[i])
  }

  lemma {:induction false} UnpackIff(t: Tree, entries: seq<Entry>)
    requires Sound(t)
    ensures Unpack(t, entries).ok <==> AllFeasible(t, entries)
  {
    if entries != [] {
      var n := |entries| - 1;
      UnpackIff(t, entries[..n]);
      UnpackSound(t, entries[..n]);
      PerformIff(Unpack(t, entries[..n]).tree, entries[n]);
      assert forall i :: 0 <= i < n ==> entries[..n][..i] == entries[..i] && entries[..n][i] == entries[i];
      hide Perform, Feasible, Sound;
      assert AllFeasible(t, entries) <==> AllFeasible(t, entries[..n]) && Feasible(Unpack(t, entries[..n]).tree, entries[n]);
    }
  }

  /** Each link's name is free in a directory, and its target is no directory: it is on the tree, or
      the name of a link made before. */
  ghost predicate LinksFeasible(names: map<Path, Node>, links: map<Path, Path>, order: seq<Path>)
    requires forall p :: p in order ==> p in links
  {
    forall k :: 0 <= k < |order| ==> LinkFeasible(names, order[k], links[order[k]], order[..k])
  }

  ghost predicate LinkFeasible(names: map<Path, Node>, name: Path, target: Path, made: seq<Path>) {
    && name != [] && name !in names
    && (Parent(name) == [] || (Parent(name) in names && names[Parent(name)].Directory?))
    && (target in made || (target in names && names[target].Ref?))
  }

  lemma LinksFeasibleSnoc(names: map<Path, Node>, links: map<Path, Path>, front: seq<Path>, name: Path)
    requires name in links && forall p :: p in front ==> p in links
    ensures forall p :: p in front + [name] ==> p in links
    ensures LinksFeasible(names, links, front + [name]) <==>
      LinksFeasible(names, links, front) && LinkFeasible(names, name, links[name], front)
  {
    var order := front + [name];
    assert forall i :: 0 <= i < |front| ==> order[..i] == front[..i] && order[i] == front[i];
    assert order[..|front|] == front && order[|front|] == name;
    hide LinkFeasible;
  }

  lemma {:induction false} LinkAllIff(t: Tree, links: map<Path, Path>, order: seq<Path>)
    requires forall p :: p in order ==> p in links
    requires forall i, j :: 0 <= i < j < |order| ==> order[i] != order[j]
    ensures LinkAll(t, links, order).ok <==> LinksFeasible(t.names, links, order)
  {
    if order != [] {
      var n := |order| - 1;
      var front, name := order[..n], order[n];
      TakeSnoc(order);
      LinkAllIff(t, links, front);
      LinkAllSnoc(t, links, front, name);
      LinksFeasibleSnoc(t.names, links, front, name);
      hide LinkAll, LinkFeasible, LinksFeasible;
      if LinkAll(t, links, front).ok {
        WalkLinks(t, links, front);
        LinkedWasLinkable(t, links, front, name);
        LinkableNext(t.names, LinkAll(t, links, front).tree.names, links, front, name);
      }
    }
  }

  lemma LinkableNext(names: map<Path, Node>, after: map<Path, Node>, links: map<Path, Path>, front: seq<Path>, name: Path)
    requires name in links && name !in front
    requires (forall p :: p in after <==> p in names || p in front) && forall p :: p in names ==> after[p] == names[p]
    requires forall p :: p in front ==> p !in names && after[p].Ref?
    ensures Linkable(after, links[name], name) <==> LinkFeasible(names, name, links[name], front)
  {
  }

  /** The whole extraction succeeds exactly when every entry is feasible in its turn and then every
      link in its. */
  lemma ExtractIff(t: Tree, entries: seq<Entry>, order: seq<Path>)
    requires Sound(t) && WalkOf(order, Deferred(entries))
    ensures Extract(t, entries, order).ok <==>
      AllFeasible(t, entries) && LinksFeasible(Unpack(t, entries).tree.names, Deferred(entries), order)
  {
    UnpackIff(t, entries);
    LinkAllIff(Unpack(t, entries).tree, Deferred(entries), order);
    hide AllFeasible, Unpack, LinkAll, Deferred, LinksFeasible;
  }

  // ---------------------------------------------------------------- what is extracted

  /** Every inode is still there and still of its kind, and only a file entry's own inode changes. */
  ghost predicate OnlyWrites(t: Tree, u: Tree, e: Entry) {
    forall i :: i in t.inodes ==>
      && i in u.inodes
      && (|| u.inodes[i] == t.inodes[i]
          || (e.File? && e.name in u.names && u.names[e.name] == Ref(i) && t.inodes[i].Regular? && u.inodes[i].Regular?))
  }

  ghost predicate HasInode(t: Tree, p: Path, content: Inode) {
    p in t.names && t.names[p].Ref? && t.names[p].inode in t.inodes && t.inodes[t.names[p].inode] == content
  }

  /** The tree shows what the entry asks for: a file's data if nothing else was written to its inode
      since (written), a symbolic link's value if the name was free (free). */
  ghost predicate Shows(t: Tree, e: Entry, free: bool, written: bool) {
    match e
    case Dir(p) => IsDir(t.names, p)
    case File(p, data, complete) =>
      p != [] && complete && p in t.names && t.names[p].Ref? && (written ==> HasInode(t, p, Regular(data)))
    case Symlink(p, value) => p == [] || (p in t.names && (free ==> HasInode(t, p, SymbolicLink(value))))
    case HardLink(_, _) => true
    case Unhandled(_) => true
    case Corrupt => false
  }

  lemma FileWrites(t: Tree, p: Path, data: string)
    requires Sound(t) && WriteFile(t, p, data).ok
    ensures var u := WriteFile(t, p, data).tree;
      && HasInode(u, p, Regular(data)) && p != []
      && OnlyWrites(t, u, File(p, data, true))
  {
    MkdirAllSound(t, Parent(p));
    OnlyDirectoriesAdded(t.names, Parent(p));
    hide MkdirAll, IsDir;
    var made := MkdirAll(t.names, Parent(p));
    var names := if made.Some? then made.value else t.names;
    assert p in names && names[p].Ref? ==> p in t.names;
  }

  lemma {:induction false} OnlyDirectoriesAdded(names: map<Path, Node>, p: Path)
    ensures MkdirAll(names, p).Some? ==> forall q :: q in MkdirAll(names, p).value ==>
      (q in names && MkdirAll(names, p).value[q] == names[q]) || MkdirAll(names, p).value[q].Directory?
    decreases |p|
  {
    if p != [] && p !in names {
      OnlyDirectoriesAdded(names, Parent(p));
    }
  }

  lemma PerformShows(t: Tree, e: Entry)
    requires Sound(t) && Perform(t, e).ok
    ensures var u := Perform(t, e).tree; OnlyWrites(t, u, e) && (e.Corrupt? || Shows(u, e, e.name !in t.names, true))
    ensures !e.Corrupt?
  {
    match e {
      case Dir(p) => MkdirAllSound(t, p);
      case File(p, data, _) => FileWrites(t, p, data);
      case _ =>
    }
    hide MkdirAll, WriteFile;
  }

  /** What was shown stays shown; a file stays written unless the new entry writes its inode. */
  lemma PerformKeepsShown(t: Tree, e: Entry, before: Entry, free: bool, written: bool, still: bool)
    requires Sound(t) && Perform(t, e).ok && Shows(t, before, free, written)
    requires still ==> written
    requires still && e.File? && before.File? && e.name in Perform(t, e).tree.names ==>
      Perform(t, e).tree.names[e.name] != t.names[before.name]
    ensures Shows(Perform(t, e).tree, before, free, still)
  {
    PerformSound(t, e);
    PerformShows(t, e);
    hide Perform, Sound;
  }

  /** No later file entry goes to the inode of entry i. */
  ghost predicate LastWriter(u: Tree, entries: seq<Entry>, i: nat)
    requires i < |entries|
  {
    entries[i].File? ==> forall j :: i < j < |entries| && entries[j].File? ==>
      !SameNode(u, entries[i].name, entries[j].name)
  }

  ghost predicate SameNode(u: Tree, p: Path, q: Path) {
    p in u.names && q in u.names && u.names[p] == u.names[q]
  }

  /** Entry i is shown; whether its name was free is judged by the entries before it, and whether its
      data is still there by the file entries after it. */
  ghost predicate EntryShown(t: Tree, u: Tree, entries: seq<Entry>, i: nat)
    requires i < |entries|
  {
    !entries[i].Corrupt?
    && Shows(u, entries[i], entries[i].name !in Unpack(t, entries[..i]).tree.names, LastWriter(u, entries, i))
  }

  ghost predicate AllShown(t: Tree, u: Tree, entries: seq<Entry>) {
    forall i :: 0 <= i < |entries| ==> EntryShown(t, u, entries, i)
  }

  lemma FileIsThere(t: Tree, u: Tree, entries: seq<Entry>, i: nat)
    requires AllShown(t, u, entries) && i < |entries|
    ensures entries[i].File? ==> entries[i].name in u.names && u.names[entries[i].name].Ref?
  {
    assert EntryShown(t, u, entries, i);
  }

  lemma LastWriterBefore(t: Tree, plain: Tree, u: Tree, entries: seq<Entry>, i: nat)
    requires i < |entries| - 1 && AllShown(t, plain, entries[..|entries| - 1]) && KeepsNames(plain, u)
    ensures LastWriter(u, entries, i) ==> LastWriter(plain, entries[..|entries| - 1], i)
    ensures LastWriter(u, entries, i) && entries[i].File? && entries[|entries| - 1].File? ==>
      !SameNode(u, entries[i].name, entries[|entries| - 1].name)
  {
    var n := |entries| - 1;
    var front := entries[..n];
    FileIsThere(t, plain, front, i);
    hide AllShown;
    if entries[i].File? {
      forall j | i < j < n && front[j].File?
        ensures SameNode(u, entries[i].name, entries[j].name) <==> SameNode(plain, front[i].name, front[j].name)
      {
        FileIsThere(t, plain, front, j);
      }
    }
  }

  /** One more entry, and what was shown before it stays shown. */
  lemma StaysShown(t: Tree, entries: seq<Entry>, i: nat)
    requires Sound(t) && Unpack(t, entries).ok && i < |entries| - 1
    requires AllShown(t, Unpack(t, entries[..|entries| - 1]).tree, entries[..|entries| - 1])
    ensures EntryShown(t, Unpack(t, entries).tree, entries, i)
  {
    var n := |entries| - 1;
    var front, e := entries[..n], entries[n];
    var plain, u := Unpack(t, front).tree, Unpack(t, entries).tree;
    assert front[..i] == entries[..i] && front[i] == entries[i];
    UnpackSound(t, front);
    FileIsThere(t, plain, front, i);
    PerformSound(plain, e);
    LastWriterBefore(t, plain, u, entries, i);
    assert EntryShown(t, plain, front, i);
    hide Perform, Shows, Sound, AllShown, LastWriter, Unpack;
    PerformKeepsShown(plain, e, entries[i], entries[i].name !in Unpack(t, entries[..i]).tree.names,
                      LastWriter(plain, front, i), LastWriter(u, entries, i));
  }

  lemma {:induction false} UnpackedShows(t: Tree, entries: seq<Entry>)
    requires Sound(t) && Unpack(t, entries).ok
    ensures AllShown(t, Unpack(t, entries).tree, entries)
  {
    if entries != [] {
      hide Perform, Shows, Sound, EntryShown;
      var n := |entries| - 1;
      UnpackedShows(t, entries[..n]);
      forall i | 0 <= i < n ensures EntryShown(t, Unpack(t, entries).tree, entries, i) {
        StaysShown(t, entries, i);
      }
      LastIsShown(t, entries);
    }
  }

  lemma LastIsShown(t: Tree, entries: seq<Entry>)
    requires entries != [] && Sound(t) && Unpack(t, entries).ok
    ensures EntryShown(t, Unpack(t, entries).tree, entries, |entries| - 1)
  {
    hide Perform, Shows, Sound;
    UnpackSound(t, entries[..|entries| - 1]);
    PerformShows(Unpack(t, entries[..|entries| - 1]).tree, entries[|entries| - 1]);
  }

  /** What a successful extraction leaves, whatever the tree and the archive: directories are there,
      a file holds its data unless a later file entry goes to the same inode, symbolic links point
      where they should unless their name was taken, and every name that was linked is the very
      inode of its target, chains included. */
  lemma ExtractionShows(t: Tree, entries: seq<Entry>, order: seq<Path>, i: nat)
    requires Sound(t) && i < |entries| && WalkOf(order, Deferred(entries)) && Extract(t, entries, order).ok
    ensures var u, links := Extract(t, entries, order).tree, Deferred(entries);
      && EntryShown(t, u, entries, i)
      && (entries[i].HardLink? ==> entries[i].name in links)
      && forall p :: p in links ==> p in u.names && links[p] in u.names && u.names[p] == u.names[links[p]]
  {
    var plain, links := Unpack(t, entries).tree, Deferred(entries);
    UnpackedShows(t, entries);
    WalkLinks(plain, links, order);
    LinkAllInodes(plain, links, order);
    DeferredNames(entries);
    assert EntryShown(t, plain, entries, i);
    hide Unpack, LinkAll, Deferred, Sound, AllShown;
    var u := Extract(t, entries, order).tree;
    if entries[i].File? {
      forall j | i < j < |entries| && entries[j].File?
        ensures SameNode(u, entries[i].name, entries[j].name) <==> SameNode(plain, entries[i].name, entries[j].name)
      {
        FileIsThere(t, plain, entries, i);
        FileIsThere(t, plain, entries, j);
      }
    }
    assert LastWriter(u, entries, i) == LastWriter(plain, entries, i);
  }

  ghost predicate DistinctNames(entries: seq<Entry>) {
    forall i, j :: 0 <= i < j < |entries| && !entries[i].Corrupt? && !entries[j].Corrupt? ==>
      entries[i].name != entries[j].name
  }

  ghost predicate Unshared(t: Tree) {
    forall p, q :: p in t.names && q in t.names && p != q && t.names[p].Ref? && t.names[q].Ref? ==>
      t.names[p].inode != t.names[q].inode
  }

  lemma PerformUnshared(t: Tree, e: Entry)
    requires Sound(t) && Unshared(t)
    ensures Unshared(Perform(t, e).tree)
  {
    match e {
      case Dir(p) => OnlyDirectoriesAdded(t.names, p);
      case File(p, _, _) =>
        if p != [] {
          OnlyDirectoriesAdded(t.names, Parent(p));
        }
      case _ =>
    }
    hide MkdirAll, IsDir;
  }

  lemma {:induction false} UnpackUnshared(t: Tree, entries: seq<Entry>)
    requires Sound(t) && Unshared(t)
    ensures Unshared(Unpack(t, entries).tree)
  {
    if entries != [] {
      hide Perform, Sound, Unshared;
      UnpackUnshared(t, entries[..|entries| - 1]);
      UnpackSound(t, entries[..|entries| - 1]);
      PerformUnshared(Unpack(t, entries[..|entries| - 1]).tree, entries[|entries| - 1]);
    }
  }

  /** In particular, when names are distinct and the tree it starts from shares no inodes, every file
      of the archive holds its data. */
  lemma FilesHoldTheirData(t: Tree, entries: seq<Entry>, order: seq<Path>, i: nat)
    requires Sound(t) && Unshared(t) && DistinctNames(entries) && i < |entries| && entries[i].File?
    requires WalkOf(order, Deferred(entries)) && Extract(t, entries, order).ok
    ensures HasInode(Extract(t, entries, order).tree, entries[i].name, Regular(entries[i].data))
  {
    var plain, u := Unpack(t, entries).tree, Extract(t, entries, order).tree;
    ExtractionShows(t, entries, order, i);
    UnpackUnshared(t, entries);
    UnpackedShows(t, entries);
    WalkLinks(plain, Deferred(entries), order);
    UnpackSound(t, entries);
    hide Unpack, LinkAll, Deferred, Sound;
    assert u.names[entries[i].name].Ref?;
    FileIsThere(t, plain, entries, i);
    forall j | i < j < |entries| && entries[j].File? ensures !SameNode(u, entries[i].name, entries[j].name) {
      FileIsThere(t, plain, entries, j);
      assert entries[i].name != entries[j].name;
    }
  }

  // ---------------------------------------------------------------- extracting again

  /** The inodes that the file entries of the first pass wrote. */
  ghost function Written(t: Tree, entries: seq<Entry>): set<nat> {
    if entries == [] then {}
    else
      var e, names := entries[|entries| - 1], Unpack(t, entries).tree.names;
      Written(t, entries[..|entries| - 1]) +
      (if e.File? && e.name in names && names[e.name].Ref? then {names[e.name].inode} else {})
  }

  ghost predicate SameKinds(t: Tree, u: Tree) {
    forall i :: i in t.inodes ==> i in u.inodes && (t.inodes[i].Regular? <==> u.inodes[i].Regular?)
  }

  /** The second pass in the middle: names as at the end; what the first pass had written by now
      reads as it did then, and everything else as at the end. */
  ghost predicate Redone(first: Tree, end: Tree, written: set<nat>, now: Tree) {
    && now.names == end.names && now.next == end.next && now.inodes.Keys == end.inodes.Keys
    && SameKinds(first, end) && SameKinds(now, end) && KeepsNames(first, end)
    && (forall i :: i in written ==> i in first.inodes && i in now.inodes && now.inodes[i] == first.inodes[i])
    && (forall i :: i in end.inodes && i !in written ==> now.inodes[i] == end.inodes[i])
  }

  lemma DirIsKept(names: map<Path, Node>, p: Path)
    ensures IsDir(names, p) ==> MkdirAll(names, p) == Some(names)
  {
  }

  lemma FileAgain(now: Tree, p: Path, data: string)
    requires p != [] && p in now.names && now.names[p].Ref? && IsDir(now.names, Parent(p))
    requires now.names[p].inode in now.inodes && now.inodes[now.names[p].inode].Regular?
    ensures WriteFile(now, p, data) == Result(now.(inodes := now.inodes[now.names[p].inode := Regular(data)]), true)
  {
    DirIsKept(now.names, Parent(p));
    hide MkdirAll;
  }

  lemma RedoneStep(before: Tree, end: Tree, written: set<nat>, now: Tree, e: Entry)
    requires Sound(before) && Sound(end) && Redone(before, end, written, now) && Perform(before, e).ok
    requires KeepsNames(Perform(before, e).tree, end) && SameKinds(Perform(before, e).tree, end)
    ensures var first := Perform(before, e).tree;
      var more := if e.File? && e.name in first.names && first.names[e.name].Ref? then {first.names[e.name].inode} else {};
      Perform(now, e).ok && Redone(first, end, written + more, Perform(now, e).tree)
  {
    var first := Perform(before, e).tree;
    PerformShows(before, e);
    PerformSound(before, e);
    match e {
      case Dir(p) => DirIsKept(now.names, p);
      case File(p, data, complete) => RedoneFile(before, first, end, written, now, e);
      case _ =>
    }
    hide MkdirAll, WriteFile, Sound;
  }

  lemma RedoneFile(before: Tree, first: Tree, end: Tree, written: set<nat>, now: Tree, e: Entry)
    requires Sound(end) && Redone(before, end, written, now) && OnlyWrites(before, first, e)
    requires e.File? && Shows(first, e, true, true) && KeepsNames(first, end) && SameKinds(first, end)
    ensures var r := WriteFile(now, e.name, e.data);
      r.ok && Redone(first, end, written + {first.names[e.name].inode}, r.tree)
  {
    assert IsDir(end.names, Parent(e.name));
    assert first.inodes[first.names[e.name].inode] == Regular(e.data);
    FileAgain(now, e.name, e.data);
    hide Sound, IsDir, WriteFile;
  }

  lemma {:induction false} LaterTree(t: Tree, entries: seq<Entry>, n: nat)
    requires Sound(t) && n <= |entries| && Unpack(t, entries).ok
    ensures Unpack(t, entries[..n]).ok
    ensures KeepsNames(Unpack(t, entries[..n]).tree, Unpack(t, entries).tree)
    ensures SameKinds(Unpack(t, entries[..n]).tree, Unpack(t, entries).tree)
    decreases |entries|
  {
    if n == |entries| {
      assert entries[..n] == entries;
    } else {
      hide Perform, Sound;
      var front, e := entries[..|entries| - 1], entries[|entries| - 1];
      LaterTree(t, front, n);
      assert front[..n] == entries[..n];
      UnpackSound(t, front);
      PerformShows(Unpack(t, front).tree, e);
      PerformSound(Unpack(t, front).tree, e);
    }
  }

  lemma {:induction false} UnpackAgain(t: Tree, entries: seq<Entry>, n: nat)
    requires Sound(t) && n <= |entries| && Unpack(t, entries).ok
    ensures var end := Unpack(t, entries).tree; var now := Unpack(end, entries[..n]);
      now.ok && Redone(Unpack(t, entries[..n]).tree, end, Written(t, entries[..n]), now.tree)
  {
    var end := Unpack(t, entries).tree;
    LaterTree(t, entries, n);
    if n > 0 {
      assert entries[..n][..n - 1] == entries[..n - 1];
      UnpackAgain(t, entries, n - 1);
      LaterTree(t, entries, n - 1);
      UnpackSound(t, entries[..n - 1]);
      UnpackSound(t, entries);
      hide Perform, Redone, Sound;
      RedoneStep(Unpack(t, entries[..n - 1]).tree, end, Written(t, entries[..n - 1]),
                 Unpack(end, entries[..n - 1]).tree, entries[n - 1]);
    }
  }

  ghost predicate NoHardLinks(entries: seq<Entry>) {
    forall i :: 0 <= i < |entries| ==> !entries[i].HardLink?
  }

  lemma {:induction false} NothingDeferred(entries: seq<Entry>)
    ensures NoHardLinks(entries) <==> Deferred(entries) == map[]
  {
    if entries != [] {
      var front, last := entries[..|entries| - 1], entries[|entries| - 1];
      NothingDeferred(front);
      assert forall i :: 0 <= i < |front| ==> front[i] == entries[i];
      assert last.HardLink? ==> last.name in Deferred(entries);
    }
  }

  lemma TakenNamesFail(t: Tree, links: map<Path, Path>, order: seq<Path>)
    requires WalkOf(order, links) && links != map[] && forall p :: p in links ==> p in t.names
    ensures !LinkAll(t, links, order).ok
  {
    if LinkAll(t, links, order).ok {
      var p :| p in links;
      LinkedWasLinkable(t, links, order, p);
    }
  }

  /** Extracting the same archive once more, over its own result, succeeds if and only if it holds
      no hard link (a link's name is then taken), and then changes nothing, whatever inodes the tree
      shares and however often the archive repeats a name. */
  lemma ExtractAgainIff(t: Tree, entries: seq<Entry>, order: seq<Path>, again: seq<Path>)
    requires Sound(t) && WalkOf(order, Deferred(entries)) && WalkOf(again, Deferred(entries))
    requires Extract(t, entries, order).ok
    ensures var u := Extract(t, entries, order).tree;
      && (Extract(u, entries, again).ok <==> NoHardLinks(entries))
      && (NoHardLinks(entries) ==> Extract(u, entries, again) == Result(u, true))
  {
    var u, links := Extract(t, entries, order).tree, Deferred(entries);
    NothingDeferred(entries);
    ExtractionKeepsNames(t, entries, order);
    if NoHardLinks(entries) {
      HasFirst(order);
      HasFirst(again);
      UnpackAgain(t, entries, |entries|);
      assert entries[..|entries|] == entries;
      assert Unpack(u, entries).tree.inodes == u.inodes;
    } else {
      WalkLinks(Unpack(t, entries).tree, links, order);
      UnpackSound(u, entries);
      TakenNamesFail(Unpack(u, entries).tree, links, again);
    }
    hide Unpack, Deferred, Sound;
  }

  // ---------------------------------------------------------------- concrete archives

  const EMPTY := Tree(map[], map[], 0)

  lemma PairWalk(t: Tree, links: map<Path, Path>, p: Path, q: Path)
    requires p in links && q in links
    ensures LinkAll(t, links, [p, q]) ==
      var r := Link(t, links[p], p); if r.ok then Link(r.tree, links[q], q) else r
  {
    LinkAllSnoc(t, links, [], p);
    LinkAllSnoc(t, links, [p], q);
    assert [] + [p] == [p] && [p] + [q] == [p, q];
  }

  /** A link to a link: one order of the map makes both, the other fails. */
  lemma ChainDependsOnOrder()
    ensures var t := Tree(map[["f"] := Ref(0)], map[0 := Regular("x")], 1);
      var links: map<Path, Path> := map[["a"] := ["f"], ["b"] := ["a"]];
      && WalkOf([["a"], ["b"]], links) && WalkOf([["b"], ["a"]], links)
      && LinkAll(t, links, [["a"], ["b"]]).ok && !LinkAll(t, links, [["b"], ["a"]]).ok
  {
    var t := Tree(map[["f"] := Ref(0)], map[0 := Regular("x")], 1);
    var links: map<Path, Path> := map[["a"] := ["f"], ["b"] := ["a"]];
    assert ["a"][0] != ["b"][0] && ["f"][0] != ["a"][0] && ["f"][0] != ["b"][0];
    PairWalk(t, links, ["a"], ["b"]);
    PairWalk(t, links, ["b"], ["a"]);
  }

  /** A file two directories down, on an empty tree: its directory is made. */
  lemma MissingParentIsMade()
    ensures var entries := [File(["etc", "hostname"], "x", true)];
      && WalkOf([], Deferred(entries))
      && var r := Extract(EMPTY, entries, []);
      && r.ok && r.tree.names == map[["etc"] := Directory, ["etc", "hostname"] := Ref(0)]
      && r.tree.inodes == map[0 := Regular("x")]
  {
    var p, file := ["etc", "hostname"], File(["etc", "hostname"], "x", true);
    assert [file][..0] == [] && Deferred([]) == map[] && Deferred([file]) == map[];
    assert Parent(p) == ["etc"] && Parent(["etc"]) == [];
    assert p != ["etc"] by { assert |p| != |["etc"]|; }
    assert MkdirAll(EMPTY.names, ["etc"]) == Some(map[["etc"] := Directory]);
    assert Unpack(EMPTY, [file]) == Perform(EMPTY, file);
  }

  /** A file and a hard link to it: extracted once, the archive cannot be extracted again. */
  lemma HardLinkBlocksSecondExtraction()
    ensures var entries := [File(["f"], "x", true), HardLink(["g"], ["f"])];
      && WalkOf([["g"]], Deferred(entries)) && Extract(EMPTY, entries, [["g"]]).ok
      && !Extract(Extract(EMPTY, entries, [["g"]]).tree, entries, [["g"]]).ok
  {
    var file, hard := File(["f"], "x", true), HardLink(["g"], ["f"]);
    var entries := [file, hard];
    assert ["f"][0] != ["g"][0];
    assert entries[..1] == [file] && [file][..0] == [];
    assert Deferred([file]) == map[];
    assert Deferred(entries) == map[["g"] := ["f"]];
    assert Unpack(EMPTY, [file]) == Perform(EMPTY, file);
    assert ["f"][..0] == [] && ["g"][..0] == [];
    var t := Unpack(EMPTY, entries).tree;
    LinkAllSnoc(t, Deferred(entries), [], ["g"]);
    assert [] + [["g"]] == [["g"]];
    ExtractAgainIff(EMPTY, entries, [["g"]], [["g"]]);
    assert !NoHardLinks(entries);
  }
}
