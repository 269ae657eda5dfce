/** Removing a directory tree through an open directory.

    The firmware reads a directory and removes each entry it is given, descending into
    subdirectories, while the directory it is reading shrinks. The module proves that when this
    succeeds, the whole subtree is gone and nothing else is, and that it succeeds unless the global
    state still records a move out of a directory of the subtree and reading that directory is
    what comes first. Removing anything carries out the move, so this happens at most once. */
module RecursiveRemove {
  import opened DirCursor
  import M = MetaLog

  // ---------------------------------------------------------------- the tree

  datatype Node = File(content: string) | Dir(children: map<string, Node>)

  type Path = seq<string>

  datatype Kind = Missing | IsFile(content: string) | IsDir

  /** What there is at a path. */
  function KindAt(node: Node, path: Path): Kind {
    if path == [] then (match node case File(c) => IsFile(c) case Dir(_) => IsDir)
    else if node.Dir? && path[0] in node.children then KindAt(node.children[path[0]], path[1..])
    else Missing
  }

  /** A path that is missing because it runs through a file. */
  ghost predicate ThroughFile(root: Node, path: Path) {
    exists n: nat :: n < |path| && KindAt(root, path[..n]).IsFile?
  }

  /** Whether resolving a path meets a file where it needs a directory. */
  predicate MeetsFile(node: Node, path: Path) {
    path != [] && (node.File? || (path[0] in node.children && MeetsFile(node.children[path[0]], path[1..])))
  }

  lemma {:induction false} MeetsFileIff(node: Node, path: Path)
    ensures MeetsFile(node, path) <==> ThroughFile(node, path)
    ensures MeetsFile(node, path) ==> KindAt(node, path) == Missing
    decreases |path|
  {
    if path != [] {
      assert path[..0] == [];
      if node.Dir? && path[0] in node.children {
        var child, rest := node.children[path[0]], path[1..];
        MeetsFileIff(child, rest);
        forall n: nat | n < |rest|
          ensures KindAt(node, path[..n + 1]) == KindAt(child, rest[..n])
        {
          assert path[..n + 1][1..] == rest[..n];
        }
        if ThroughFile(child, rest) {
          var n: nat :| n < |rest| && KindAt(child, rest[..n]).IsFile?;
          assert KindAt(node, path[..n + 1]).IsFile?;
        }
        if ThroughFile(node, path) {
          var n: nat :| n < |path| && KindAt(node, path[..n]).IsFile?;
          assert KindAt(child, rest[..n - 1]).IsFile?;
        }
      } else if node.File? {
        assert KindAt(node, path[..0]).IsFile?;
      } else {
        forall n: nat | n < |path|
          ensures !KindAt(node, path[..n]).IsFile?
        {
        }
      }
    }
  }

  function At(node: Node, path: Path): Node
    requires KindAt(node, path) != Missing
  {
    if path == [] then node else At(node.children[path[0]], path[1..])
  }

  function RemoveAt(node: Node, path: Path): Node
    requires path != [] && KindAt(node, path) != Missing
  {
    if |path| == 1 then Dir(node.children - {path[0]})
    else Dir(node.children[path[0] := RemoveAt(node.children[path[0]], path[1..])])
  }

  /** Removing a path removes what is at and below it. */
  lemma {:induction false} RemoveAtKinds(node: Node, path: Path, q: Path)
    requires path != [] && KindAt(node, path) != Missing
    ensures KindAt(RemoveAt(node, path), q) == if path <= q then Missing else KindAt(node, q)
  {
    if q != [] && q[0] == path[0] {
      if |path| > 1 {
        RemoveAtKinds(node.children[path[0]], path[1..], q[1..]);
        assert path <= q <==> path[1..] <= q[1..];
      } else {
        assert path <= q;
      }
    }
  }

  lemma {:induction false} ChildKind(node: Node, path: Path, name: string)
    requires KindAt(node, path) != Missing
    ensures var n := At(node, path);
            && (n.Dir? <==> KindAt(node, path) == IsDir)
            && KindAt(node, path + [name]) ==
                 if n.Dir? && name in n.children then KindAt(n.children[name], []) else Missing
  {
    if path == [] {
      assert (path + [name])[1..] == [];
    } else {
      assert (path + [name])[1..] == path[1..] + [name];
      ChildKind(node.children[path[0]], path[1..], name);
    }
  }

  // ---------------------------------------------------------------- what changes

  /** Everything at and below a path is gone, and everything else is as it was. */
  ghost predicate Gone(before: Node, after: Node, path: Path) {
    forall q :: KindAt(after, q) == if path <= q then Missing else KindAt(before, q)
  }

  /** At most something below a path is gone. */
  ghost predicate OnlyRemoved(before: Node, after: Node, path: Path) {
    forall q :: KindAt(after, q) == KindAt(before, q) || (path <= q && KindAt(after, q) == Missing)
  }

  lemma RemovedBelow(a: Node, b: Node, c: Node, path: Path, below: Path)
    requires OnlyRemoved(a, b, path) && OnlyRemoved(b, c, below) && path <= below
    ensures OnlyRemoved(a, c, path)
  {
    forall q
      ensures KindAt(c, q) == KindAt(a, q) || (path <= q && KindAt(c, q) == Missing)
    {
      assert KindAt(c, q) == KindAt(b, q) || (below <= q && KindAt(c, q) == Missing);
      assert KindAt(b, q) == KindAt(a, q) || (path <= q && KindAt(b, q) == Missing);
      if below <= q {
        Prefixes(path, below, q);
      }
    }
  }

  lemma Prefixes(a: Path, b: Path, c: Path)
    requires a <= b <= c
    ensures a <= c
  {
  }

  lemma GoneAll(a: Node, b: Node, c: Node, path: Path)
    requires OnlyRemoved(a, b, path) && Gone(b, c, path)
    ensures Gone(a, c, path)
  {
  }

  lemma GoneIsRemoved(a: Node, b: Node, path: Path)
    requires Gone(a, b, path)
    ensures OnlyRemoved(a, b, path)
  {
  }

  /** Paths are no longer than this. */
  ghost predicate Bounded(root: Node, depth: nat) {
    forall q :: KindAt(root, q) != Missing ==> |q| <= depth
  }

  lemma StaysBounded(a: Node, b: Node, path: Path, depth: nat)
    requires OnlyRemoved(a, b, path) && Bounded(a, depth)
    ensures Bounded(b, depth)
  {
  }

  // ---------------------------------------------------------------- listings

  function EntryAt(root: Node, path: Path, name: string): Entry {
    Entry(name, KindAt(root, path + [name]) == IsDir, false)
  }

  /** The pairs of a directory list what is in it, each once, beside hidden entries. */
  ghost predicate Lists(layout: Layout, root: Node, path: Path) {
    && Chained(layout)
    && (forall name :: KindAt(root, path + [name]) != Missing ==> EntryAt(root, path, name) in Flatten(layout))
    && (forall e :: e in Flatten(layout) && !e.hidden ==>
          && multiset(Flatten(layout))[e] == 1
          && KindAt(root, path + [e.name]) != Missing && e == EntryAt(root, path, e.name))
  }

  /** Taking a child out of the tree and its entry out of the pairs. */
  lemma ListsLess(layout: Layout, root: Node, path: Path, after: Layout, root': Node, e: Entry, pre: seq<Entry>,
        post: seq<Entry>)
    requires Lists(layout, root, path) && Chained(after) && !e.hidden && Gone(root, root', path + [e.name])
    requires Flatten(layout) == pre + [e] + post && Flatten(after) == pre + post
    ensures Lists(after, root', path) && e !in Flatten(after)
    ensures forall x :: x in Flatten(after) ==> x in Flatten(layout) && x != e
  {
    var list, less := Flatten(layout), Flatten(after);
    assert multiset(list) == multiset(less) + multiset{e};
    assert e in list;
    assert e !in less by {
      assert multiset(list)[e] == 1;
    }
    forall name | KindAt(root', path + [name]) != Missing
      ensures EntryAt(root', path, name) in less
    {
      assert !(path + [e.name] <= path + [name]);
      assert EntryAt(root, path, name) in list;
    }
    forall x | x in less && !x.hidden
      ensures multiset(less)[x] == 1 && KindAt(root', path + [x.name]) != Missing && x == EntryAt(root', path, x.name)
    {
      assert x in list;
      assert x.name != e.name;
      assert (path + [x.name])[|path|] == x.name && (path + [e.name])[|path|] == e.name;
      assert !(path + [e.name] <= path + [x.name]);
    }
  }

  /** Taking out a hidden entry. */
  lemma ListsLessHidden(layout: Layout, root: Node, path: Path, after: Layout, h: Entry, pre: seq<Entry>,
        post: seq<Entry>)
    requires Lists(layout, root, path) && Chained(after) && h.hidden
    requires Flatten(layout) == pre + [h] + post && Flatten(after) == pre + post
    ensures Lists(after, root, path)
  {
    var list, less := Flatten(layout), Flatten(after);
    assert multiset(list) == multiset(less) + multiset{h};
    forall x | x in list && x != h
      ensures x in less && multiset(less)[x] == multiset(list)[x]
    {
      assert x in multiset(less);
    }
    forall x | x in less
      ensures x in list
    {
      assert x in multiset(list);
    }
  }

  // ---------------------------------------------------------------- a pending move

  /** The move the global state records, if any: entry m of pair j of a directory. What is in the
      tree is what there is once the move is carried out. */
  datatype Pending = NoPending | MoveOut(dir: Path, layout: Layout, j: nat, m: nat)

  function MoveAt(pending: Pending, path: Path): Move {
    if pending.MoveOut? && pending.dir == path then Moving(pending.j, pending.m) else NoMove
  }

  ghost predicate PendingFits(root: Node, pending: Pending) {
    pending.MoveOut? ==>
      && KindAt(root, pending.dir) == IsDir && Lists(pending.layout, root, pending.dir)
      && MoveFits(pending.layout, Moving(pending.j, pending.m))
  }

  predicate HasNeighbour(pending: Pending) {
    pending.MoveOut? && pending.j < |pending.layout| && pending.m + 1 < |pending.layout[pending.j]|
  }

  /** The entry behind the one to move. */
  function Neighbour(pending: Pending): Entry
    requires HasNeighbour(pending)
  {
    pending.layout[pending.j][pending.m + 1]
  }

  /** Looking a path up needs the struct of each directory on the way. The neighbour's name is
      found, but under an id that leads to no struct (NameSearch.PendingMatch). */
  predicate Shadowed(pending: Pending, path: Path) {
    HasNeighbour(pending) && pending.dir + [Neighbour(pending).name] <= path
  }

  /** The neighbour is a directory, which then hides everything at and below it. */
  predicate HidesDir(pending: Pending, path: Path) {
    Shadowed(pending, path) && Neighbour(pending).isDir
  }

  predicate Quiet(list: seq<Entry>) {
    forall i :: 0 <= i < |list| ==> list[i].hidden
  }

  /** Reading the directory goes past the neighbour before it returns anything. */
  predicate TrappedAt(pending: Pending, path: Path) {
    && HasNeighbour(pending) && pending.dir == path
    && Quiet(Flatten(pending.layout[..pending.j])) && Quiet(pending.layout[pending.j][..pending.m])
  }

  /** What that loses. */
  function LostAt(pending: Pending, path: Path): M.Option<Entry> {
    if TrappedAt(pending, path) then M.Some(Neighbour(pending)) else M.None
  }

  /** The first entry of each directory leads on to the one with the pending move. */
  predicate LedTo(root: Node, layoutOf: (Node, Path) -> Layout, goal: Path, path: Path) {
    && path <= goal
    && forall n :: |path| <= n < |goal| ==>
         var shown := Shown(Flatten(layoutOf(root, goal[..n]))); shown != [] && shown[0].name == goal[n]
  }

  predicate Trapped(root: Node, layoutOf: (Node, Path) -> Layout, pending: Pending, path: Path) {
    pending.MoveOut? && TrappedAt(pending, pending.dir) && LedTo(root, layoutOf, pending.dir, path)
  }

  /** Going on to the first entry of a directory, one is led to where one was led to before. */
  lemma LedOn(root: Node, layoutOf: (Node, Path) -> Layout, pending: Pending, path: Path, name: string)
    requires pending.MoveOut? && path != pending.dir
    requires var shown := Shown(Flatten(layoutOf(root, path))); shown != [] && shown[0].name == name
    ensures Trapped(root, layoutOf, pending, path + [name]) <==> Trapped(root, layoutOf, pending, path)
  {
    var goal, sub := pending.dir, path + [name];
    if path <= goal {
      assert goal[..|path|] == path;
      if goal[|path|] == name {
        assert sub <= goal;
      } else {
        assert sub[|path|] != goal[|path|];
      }
    } else {
      FirstPart(path, name, goal);
    }
  }

  lemma FirstPart(path: Path, name: string, goal: Path)
    ensures path + [name] <= goal ==> path <= goal
  {
  }

  lemma LedNowhere(root: Node, layoutOf: (Node, Path) -> Layout, pending: Pending, path: Path)
    requires pending.MoveOut? && path != pending.dir && Shown(Flatten(layoutOf(root, path))) == []
    ensures !Trapped(root, layoutOf, pending, path)
  {
    var goal := pending.dir;
    if path <= goal {
      assert goal[..|path|] == path;
    }
  }

  /** Below the directory itself, nothing leads to it. */
  lemma LedAway(root: Node, layoutOf: (Node, Path) -> Layout, pending: Pending, name: string)
    requires pending.MoveOut?
    ensures !Trapped(root, layoutOf, pending, pending.dir + [name])
  {
  }

  const STALE_ONE := MoveOut(["d"], [[STALE, NEXT]], 0, 0)
  const ONE_LEFT := Dir(map["d" := Dir(map["b" := File("")])])

  /** A directory of two files, the first of them about to be moved away: removing the directory
      with its contents fails, although nothing goes wrong. */
  lemma TrappedByNeighbour(layoutOf: (Node, Path) -> Layout)
    ensures PendingFits(ONE_LEFT, STALE_ONE) && Trapped(ONE_LEFT, layoutOf, STALE_ONE, ["d"])
  {
    var two := [STALE, NEXT];
    FlattenOne(two);
    assert multiset(two)[NEXT] == 1;
    assert [two][..0] == [];
    forall name
      ensures KindAt(ONE_LEFT, ["d"] + [name]) == if name == "b" then IsFile("") else Missing
    {
      assert (["d"] + [name])[1..] == [name] && [name][1..] == [];
      assert KindAt(Dir(map["b" := File("")]), [name]) == if name == "b" then KindAt(File(""), []) else Missing;
    }
    assert ["d"][1..] == [];
  }

  const STALE_FIRST := MoveOut(["d"], [[STALE, Entry("b", true, false)]], 0, 0)
  const FULL_LEFT := Dir(map["d" := Dir(map["b" := Dir(map["c" := File("")])])])

  /** A subdirectory with contents behind a file about to be moved away: removing it with its
      contents fails, although nothing goes wrong. */
  lemma ShadowedByStale()
    ensures PendingFits(FULL_LEFT, STALE_FIRST)
    ensures Shadowed(STALE_FIRST, ["d", "b"]) && HasChild(FULL_LEFT, ["d", "b"])
  {
    var b, c := Dir(map["c" := File("")]), Entry("b", true, false);
    var d := Dir(map["b" := b]);
    var two := [STALE, c];
    FlattenOne(two);
    assert multiset(two)[c] == 1;
    forall name
      ensures KindAt(FULL_LEFT, ["d"] + [name]) == if name == "b" then IsDir else Missing
    {
      assert (["d"] + [name])[1..] == [name] && [name][1..] == [];
      assert KindAt(d, [name]) == if name == "b" then KindAt(b, []) else Missing;
    }
    assert ["d"][1..] == [];
    assert ["d"] + ["b"] == ["d", "b"];
    var path := ["d", "b"] + ["c"];
    assert path[1..] == ["b", "c"] && ["b", "c"][1..] == ["c"] && ["c"][1..] == [];
    assert KindAt(FULL_LEFT, path) == KindAt(d, ["b", "c"]) == KindAt(b, ["c"]) == KindAt(File(""), []);
  }

  // ---------------------------------------------------------------- the firmware's helper

  datatype Error = None | NoEnt | NotDir | Inval | NotEmpty | Io

  /** How a compaction may split a pair's entries. */
  ghost predicate Splits(split: seq<Entry> -> Layout) {
    forall s :: Flatten(split(s)) == s && Chained(split(s)) && (split(s)[0] == [] ==> s == [])
        && (s == [] ==> |split(s)| == 1)
  }

  /** Every directory is laid out in pairs that list it. */
  ghost predicate LaysOut(layoutOf: (Node, Path) -> Layout) {
    forall n, p :: KindAt(n, p) == IsDir ==> Lists(layoutOf(n, p), n, p)
  }

  ghost function EntriesOf(root: Node, path: Path, names: set<string>): seq<Entry> {
    if names == {} then [] else
    var n :| n in names;
    [EntryAt(root, path, n)] + EntriesOf(root, path, names - {n})
  }

  lemma {:induction false} EntriesAre(root: Node, path: Path, names: set<string>, e: Entry)
    ensures multiset(EntriesOf(root, path, names))[e] ==
            if e.name in names && e == EntryAt(root, path, e.name) then 1 else 0
    decreases names
  {
    if names != {} {
      var n :| n in names
          && EntriesOf(root, path, names) == [EntryAt(root, path, n)] + EntriesOf(root, path, names - {n});
      var rest := EntriesOf(root, path, names - {n});
      EntriesAre(root, path, names - {n}, e);
      assert multiset([EntryAt(root, path, n)] + rest) == multiset{EntryAt(root, path, n)} + multiset(rest);
    }
  }

  ghost function OnePair(root: Node, path: Path): Layout {
    if KindAt(root, path) != IsDir then [[]] else
    ChildKind(root, path, "");
    [EntriesOf(root, path, At(root, path).children.Keys)]
  }

  /** There are such layouts, and ways to split pairs. */
  lemma LayoutsExist()
    ensures exists layoutOf :: LaysOut(layoutOf)
    ensures exists split :: Splits(split)
  {
    var layoutOf := (n, p) => OnePair(n, p);
    forall n, p | KindAt(n, p) == IsDir
      ensures Lists(layoutOf(n, p), n, p)
    {
      OnePairLists(n, p);
    }
    assert LaysOut(layoutOf);
    var split := (s: seq<Entry>) => [s];
    forall s: seq<Entry>
      ensures Flatten(split(s)) == s
    {
      FlattenOne(s);
    }
    assert Splits(split);
  }

  lemma OnePairLists(root: Node, path: Path)
    requires KindAt(root, path) == IsDir
    ensures Lists(OnePair(root, path), root, path)
  {
    ChildKind(root, path, "");
    var names := At(root, path).children.Keys;
    var list := EntriesOf(root, path, names);
    FlattenOne(list);
    forall e: Entry
      ensures multiset(list)[e] == if e.name in names && e == EntryAt(root, path, e.name) then 1 else 0
      ensures e in list <==> multiset(list)[e] > 0
    {
      EntriesAre(root, path, names, e);
    }
    forall name
      ensures KindAt(root, path + [name]) != Missing <==> name in names
    {
      ChildKind(root, path, name);
    }
  }

  ghost predicate HasChild(root: Node, path: Path) {
    exists name :: KindAt(root, path + [name]) != Missing
  }

  class Fs {
    var root: Node
    var pending: Pending
    // how directories are laid out in pairs, how pairs are split, and which removals fail
    const layoutOf: (Node, Path) -> Layout
    const split: seq<Entry> -> Layout
    const fails: (Node, Path) -> bool

    ghost predicate Valid()
      reads this
    {
      LaysOut(layoutOf) && Splits(split) && PendingFits(root, pending)
    }

    /** A mounted filesystem, possibly with a move pending. */
    constructor (tree: Node, move: Pending, layoutOf: (Node, Path) -> Layout, split: seq<Entry> -> Layout,
          fails: (Node, Path) -> bool)
      requires LaysOut(layoutOf) && Splits(split) && PendingFits(tree, move)
      ensures Valid() && root == tree && pending == move
      ensures this.layoutOf == layoutOf && this.split == split && this.fails == fails
    {
      root, pending := tree, move;
      this.layoutOf, this.split, this.fails := layoutOf, split, fails;
    }

    ghost predicate NoFaults() {
      forall n, p :: !fails(n, p)
    }

    ghost predicate Trap(path: Path)
      reads this
    {
      Trapped(root, layoutOf, pending, path)
    }

    /** The pairs a directory is found in. */
    function PairsOf(path: Path): Layout
      reads this
    {
      if pending.MoveOut? && pending.dir == path then pending.layout else layoutOf(root, path)
    }

    /** lfs_remove: files and empty directories, but not the root. It carries out a pending move
        first. */
    method Remove(path: Path) returns (err: Error)
      requires Valid()
      modifies `root, `pending
      ensures Valid() && pending == NoPending
      ensures err == None ==> path != [] && KindAt(old(root), path) != Missing && Gone(old(root), root, path)
      ensures err != None ==> root == old(root)
      ensures err == NoEnt <==> KindAt(old(root), path) == Missing && !ThroughFile(old(root), path)
      ensures err == NotDir <==> ThroughFile(old(root), path)
      ensures err in {NoEnt, NotDir} <==> KindAt(old(root), path) == Missing
      ensures err == Inval <==> path == []
      ensures err == NotEmpty <==> path != [] && KindAt(old(root), path) == IsDir && HasChild(old(root), path)
      ensures err == Io ==> !NoFaults()
    {
      hide ThroughFile;
      pending := NoPending;
      MeetsFileIff(root, path);
      if MeetsFile(root, path) {
        return NotDir;
      }
      if KindAt(root, path) == Missing {
        return NoEnt;
      } else if path == [] {
        return Inval;
      }
      var node := At(root, path);
      forall name
        ensures KindAt(root, path + [name]) != Missing <==> node.Dir? && name in node.children
        ensures node.Dir? <==> KindAt(root, path) == IsDir
      {
        ChildKind(root, path, name);
      }
      if node.Dir? && node.children != map[] {
        var name :| name in node.children;
        assert KindAt(root, path + [name]) != Missing;
        return NotEmpty;
      }
      if fails(root, path) {
        return Io;
      }
      forall q
        ensures KindAt(RemoveAt(root, path), q) == if path <= q then Missing else KindAt(root, q)
      {
        RemoveAtKinds(root, path, q);
      }
      root := RemoveAt(root, path);
      err := None;
    }

    /** recursive_remove: when it succeeds, what was at and below the path is gone and nothing else
        is; when it does not, at most things below the path are gone. It succeeds for anything but
        the root, unless a removal fails, the path is a directory with contents that cannot be
        looked up for now, or reading leads to an entry in front of one that cannot be read for
        now. */
    method RecursiveRemove(path: Path, ghost depth: nat) returns (err: Error)
      requires Valid() && Bounded(root, depth)
      modifies `root, `pending
      ensures Valid() && pending == NoPending
      ensures OnlyRemoved(old(root), root, path)
      ensures err == None ==> path != [] && KindAt(old(root), path) != Missing && Gone(old(root), root, path)
      ensures err == None ==> !old(Trap(path)) && !(Shadowed(old(pending), path) && HasChild(old(root), path))
      ensures KindAt(old(root), path) == Missing ==>
              err == (if ThroughFile(old(root), path) then NotDir else NoEnt) && root == old(root)
      ensures NoFaults() && path != [] && KindAt(old(root), path) != Missing ==>
              err == None || old(Trap(path)) || (Shadowed(old(pending), path) && HasChild(old(root), path))
      decreases if |path| <= depth then depth + 1 - |path| else 0, 2
    {
      hide Lists, Flatten, Splits, Bounded, OnlyRemoved, Gone, KindAt, NoFaults, Trapped, Shadowed, PendingFits,
           HasChild, ThroughFile, LaysOut;
      Unchanged(root, path);
      if KindAt(root, path) != IsDir || Shadowed(pending, path) {
        NotTrapped(root, layoutOf, pending, path);
        if KindAt(root, path) != IsDir {
          NoChild(root, path);
        }
        err := Remove(path);
        if err == None {
          GoneIsRemoved(old(root), root, path);
        }
        return;
      }
      err := RemoveContents(path, depth);
      if err != None {
        return;
      }
      ghost var root1 := root;
      ghost var neighbour := if TrappedAt(old(pending), path) then M.Some(Neighbour(old(pending)).name) else M.None;
      ChildLeft(root1, path, neighbour);
      TrappedOrNot(old(root), layoutOf, old(pending), path);
      err := Remove(path);
      if err == None {
        GoneAll(old(root), root1, root, path);
        GoneIsRemoved(old(root), root, path);
        ExistsBefore(old(root), root1, path);
      }
    }

    /** The loop of recursive_remove, which delete_directory_contents repeats: the contents of an
        open directory go. When it reports success, nothing is left, but for a neighbour it could
        not read. */
    method RemoveContents(path: Path, ghost depth: nat) returns (err: Error)
      requires Valid() && Bounded(root, depth) && KindAt(root, path) == IsDir && !Shadowed(pending, path)
      modifies `root, `pending
      ensures Valid() && (pending == NoPending || (err == None && pending == old(pending) && root == old(root)))
      ensures OnlyRemoved(old(root), root, path) && KindAt(root, path) == IsDir
      ensures err == None ==> forall name :: KindAt(root, path + [name]) != Missing <==>
                TrappedAt(old(pending), path) && name == Neighbour(old(pending)).name
      ensures err == None ==> (old(Trap(path)) ==> path == old(pending).dir)
      ensures NoFaults() && (old(Trap(path)) ==> path == old(pending).dir) ==> err == None
      decreases if |path| <= depth then depth + 1 - |path| else 0, 1
    {
      hide Lists, Flatten, Splits, Bounded, OnlyRemoved, Gone, KindAt, NoFaults, Trapped, Shadowed, PendingFits,
           LaysOut, Reading, GivenBelow, Unread, Taken, MoveFits, TrappedAt, LostAt, LeftOver, AtStart;
      Unchanged(root, path);
      Opened(root, pending, layoutOf, path);
      var dir := new OpenDir(PairsOf(path), MoveAt(pending, path));
      ghost var lost := M.None;
      Starting(dir.pairs, dir.move, dir.id, dir.passed, dir.stable, pending, path, layoutOf, root);
      while true
        invariant dir.Valid() && Lists(dir.pairs, root, path) && OnlyRemoved(old(root), root, path)
        invariant Unread(Flatten(dir.pairs), dir.stable, dir.passed, lost)
        invariant KindAt(root, path) == IsDir && Bounded(root, depth) && Valid() && 0 <= dir.pos
                && !Shadowed(pending, path)
        invariant pending.MoveOut? ==>
                pending == old(pending) && root == old(root) && lost == M.None && Fresh(dir, path)
        invariant pending.NoPending? ==>
                    dir.move == NoMove && (old(Trap(path)) ==> path == old(pending).dir)
                        && lost == LostAt(old(pending), path)
        decreases |Flatten(dir.pairs)|, 2 - dir.pos
      {
        ghost var root0, pending0 := root, pending;
        var info;
        info, lost := ReadEntry(dir, path, lost);
        if info == Dot || info == DotDot {
          continue;
        }
        if info == End {
          ChildrenAre(dir.pairs, root, path, lost, old(pending));
          return None;
        }
        var e := info.entry;
        err := RemoveEntry(path, e, depth);
        RemovedBelow(old(root), root0, root, path, path);
        if err != None {
          return;
        }
        WithoutPending(root, layoutOf, path);
        TakeOut(dir, e, split, root0, root, path, lost);
      }
    }

    /** Nothing was removed yet. */
    ghost predicate Fresh(dir: OpenDir, path: Path)
      reads this, dir
    {
      pending.MoveOut?
          && AtStart(dir.pairs, dir.move, dir.k, dir.id, dir.detached, dir.passed, pending, path, layoutOf, root)
    }

    /** One call of lfs_dir_read within the loop, and what its answer means for the removal. */
    method ReadEntry(dir: OpenDir, path: Path, ghost lost0: M.Option<Entry>)
          returns (info: Info, ghost lost: M.Option<Entry>)
      requires Valid() && dir.Valid() && 0 <= dir.pos && KindAt(root, path) == IsDir && !Shadowed(pending, path)
      requires Lists(dir.pairs, root, path) && Unread(Flatten(dir.pairs), dir.stable, dir.passed, lost0)
      requires if pending.MoveOut? then Fresh(dir, path) && lost0 == M.None else dir.move == NoMove
      modifies dir
      ensures dir.Valid() && dir.pairs == old(dir.pairs) && dir.move == old(dir.move) && dir.stable == old(dir.stable)
      ensures pending.NoPending? ==> lost == lost0
      ensures match info
              case End => LeftOver(Flatten(dir.pairs), lost)
                  && (pending.MoveOut? ==> lost == LostAt(pending, path) && (Trap(path) ==> path == pending.dir))
              case Item(e) =>
                var sub := path + [e.name];
                && Taken(Flatten(dir.pairs), dir.stable, dir.passed, lost, e) && dir.pos > 2
                && KindAt(root, sub) != Missing && (e.isDir <==> KindAt(root, sub) == IsDir) && !Shadowed(pending, sub)
                && (e.isDir && Trap(sub) <==> pending.MoveOut? && path != pending.dir && Trap(path))
                && (pending.MoveOut? ==> lost == LostAt(pending, path))
              case _ =>
                && dir.pos == old(dir.pos) + 1 && old(dir.pos) < 2 && dir.Place() == old(dir.Place()) && lost == lost0
                && Unread(Flatten(dir.pairs), dir.stable, dir.passed, lost) && (pending.MoveOut? ==> Fresh(dir, path))
    {
      hide Lists, Flatten, Splits, KindAt, Trapped, Shadowed, PendingFits, LaysOut,
           Reading, GivenBelow, Answer, Unread, Taken, MoveFits, TrappedAt, LostAt, Overtook, LeftOver, AtStart;
      lost := lost0;
      ghost var passed0 := dir.passed;
      Stays(dir.pairs, dir.move, dir.k, dir.id, dir.detached, dir.passed, pending, path, layoutOf, root);
      info := dir.Read();
      NotOvertaken(dir.pairs, dir.move, dir.detached, dir.k, dir.id, passed0);
      WithoutPending(root, layoutOf, path);
      match info
      case End =>
        if pending.MoveOut? {
          EndOfFirst(root, layoutOf, pending, path, dir.pairs, dir.k, dir.stable);
          lost := LostAt(pending, path);
        } else {
          EndOfLater(Flatten(dir.pairs), dir.stable, dir.passed, lost);
        }
      case Item(e) =>
        if pending.MoveOut? {
          FirstItem(root, layoutOf, pending, path, dir.pairs, dir.k, dir.id, dir.passed, dir.stable, e);
          lost := LostAt(pending, path);
        } else {
          NextItem(dir.pairs, dir.k, dir.id, passed0, dir.passed, dir.stable, lost, e);
        }
        WithoutPending(root, layoutOf, path + [e.name]);
        Listed(dir.pairs, root, path, dir.stable, dir.passed, lost, e);
      case _ =>
        Stays(dir.pairs, dir.move, dir.k, dir.id, dir.detached, dir.passed, pending, path, layoutOf, root);
    }

    /** The removal of one entry that was read. */
    method RemoveEntry(path: Path, e: Entry, ghost depth: nat) returns (err: Error)
      requires Valid() && Bounded(root, depth) && KindAt(root, path) == IsDir
      requires KindAt(root, path + [e.name]) != Missing && (e.isDir <==> KindAt(root, path + [e.name]) == IsDir)
      modifies `root, `pending
      ensures Valid() && pending == NoPending && Bounded(root, depth)
      ensures OnlyRemoved(old(root), root, path) && KindAt(root, path) == IsDir
      ensures err == None ==> Gone(old(root), root, path + [e.name]) && !(e.isDir && old(Trap(path + [e.name])))
      ensures NoFaults() && !Shadowed(old(pending), path + [e.name]) && !(e.isDir && old(Trap(path + [e.name]))) ==>
              err == None
      decreases if |path| <= depth then depth + 1 - |path| else 0, 0
    {
      hide Lists, Flatten, Splits, Bounded, OnlyRemoved, Gone, KindAt, NoFaults, Trapped, Shadowed, PendingFits,
           HasChild, ThroughFile, LaysOut;
      var sub := path + [e.name];
      Deeper(root, sub, depth);
      Unchanged(root, path);
      if e.isDir {
        err := RecursiveRemove(sub, depth);
      } else {
        err := Remove(sub);
        Unchanged(old(root), sub);
      }
      if err == None {
        GoneIsRemoved(old(root), root, sub);
      }
      RemovedBelow(old(root), old(root), root, path, sub);
      StaysBounded(old(root), root, sub, depth);
      StillDir(old(root), root, path, e.name);
    }

    /** delete_directory_contents, which does not carry out a pending move: it reports that what it
        cannot look up for now is missing, and success with a neighbour left. */
    method DeleteContents(path: Path, ghost depth: nat) returns (err: Error)
      requires Valid() && Bounded(root, depth)
      modifies `root, `pending
      ensures Valid() && OnlyRemoved(old(root), root, path)
      ensures var hides := HidesDir(old(pending), path);
              && (hides || (KindAt(old(root), path) == Missing && !ThroughFile(old(root), path)) ==> err == NoEnt)
              && (!hides && (KindAt(old(root), path).IsFile? || ThroughFile(old(root), path)) ==> err == NotDir)
              && (KindAt(old(root), path) == IsDir && Shadowed(old(pending), path) ==> hides)
      ensures KindAt(old(root), path) != IsDir || Shadowed(old(pending), path) ==>
              root == old(root) && pending == old(pending)
      ensures err == None ==> forall name :: KindAt(root, path + [name]) != Missing <==>
                TrappedAt(old(pending), path) && name == Neighbour(old(pending)).name
      ensures NoFaults() && KindAt(old(root), path) == IsDir && !Shadowed(old(pending), path) ==>
              (err == None <==> (old(Trap(path)) ==> path == old(pending).dir))
    {
      hide Lists, Flatten, Splits, Bounded, OnlyRemoved, Gone, KindAt, NoFaults, Trapped, Shadowed, PendingFits,
           TrappedAt;
      hide ThroughFile, MeetsFile;
      Unchanged(root, path);
      MeetsFileIff(root, path);
      if KindAt(root, path) == IsDir && Shadowed(pending, path) {
        ShadowedDir(root, pending, path);
      }
      if HidesDir(pending, path) {
        return NoEnt;
      }
      if KindAt(root, path).IsFile? || MeetsFile(root, path) {
        return NotDir;
      }
      if KindAt(root, path) == Missing {
        return NoEnt;
      }
      err := RemoveContents(path, depth);
    }
  }

  // ---------------------------------------------------------------- the open directory

  /** What is listed existed all the time, and was not passed yet, but for one entry that was
      lost. */
  ghost predicate Unread(list: seq<Entry>, stable: set<Entry>, passed: seq<Entry>, lost: M.Option<Entry>) {
    && (forall e :: e in list && !e.hidden ==> e in stable && (e !in passed || lost == M.Some(e)))
    && (lost.Some? ==> lost.value in list && !lost.value.hidden && lost.value in passed)
  }

  /** The same, with one more entry just read. */
  ghost predicate Taken(list: seq<Entry>, stable: set<Entry>, passed: seq<Entry>, lost: M.Option<Entry>, e: Entry) {
    && (forall x :: x in list && !x.hidden ==> x in stable && (x !in passed || lost == M.Some(x) || x == e))
    && (lost.Some? ==> lost.value in list && !lost.value.hidden && lost.value in passed && lost.value != e)
    && e in list && !e.hidden
  }

  /** What is left at the end. */
  ghost predicate LeftOver(list: seq<Entry>, lost: M.Option<Entry>) {
    && (forall e :: e in list && !e.hidden ==> lost == M.Some(e))
    && (lost.Some? ==> lost.value in list && !lost.value.hidden)
  }

  /** What the removal's commits do to the open directory: the pending move is carried out, and the
      entry is deleted. */
  method TakeOut(dir: OpenDir, e: Entry, split: seq<Entry> -> Layout, ghost root0: Node, ghost root: Node, path: Path,
        ghost lost: M.Option<Entry>)
    requires dir.Valid() && Splits(split) && Lists(dir.pairs, root0, path) && Gone(root0, root, path + [e.name])
    requires Taken(Flatten(dir.pairs), dir.stable, dir.passed, lost, e)
    modifies dir
    ensures dir.Valid() && dir.move == NoMove && Lists(dir.pairs, root, path)
    ensures Unread(Flatten(dir.pairs), dir.stable, dir.passed, lost)
    ensures |Flatten(dir.pairs)| < |Flatten(old(dir.pairs))| && dir.pos >= old(dir.pos) - 2
  {
    hide Lists, Flatten, Splits, Gone, Reading, Unread, Taken, FitsAll, ApplyAll, Deleted, Drops, Pieces, Others,
         FixEach, DirCursor.Remove;
    if dir.move.Moving? {
      var j, m := dir.move.j, dir.move.m;
      ghost var pairs, stable := dir.pairs, dir.stable;
      var pieces := split(DirCursor.Remove(dir.pairs[j], m));
      TakesOut(pairs, j, m, dir.id, dir.pos, pieces, split);
      dir.Demove(pieces);
      StaysChained(dir.pairs, dir.detached, dir.k, dir.id, dir.passed, dir.stable);
      StaleTaken(pairs, j, m, dir.pairs, root0, path, stable, dir.passed, lost, e);
    }
    ghost var pairs, stable := dir.pairs, dir.stable;
    Somewhere(dir.pairs, dir.stable, dir.passed, lost, e);
    var k: nat, i: nat :| k < |dir.pairs| && i < |dir.pairs[k]| && dir.pairs[k][i] == e;
    var pieces := split(DirCursor.Remove(dir.pairs[k], i));
    TakesOut(pairs, k, i, dir.id, dir.pos, pieces, split);
    dir.Commit(k, [Delete(i)], pieces);
    StaysChained(dir.pairs, dir.detached, dir.k, dir.id, dir.passed, dir.stable);
    EntryTaken(pairs, k, i, dir.pairs, root0, root, path, stable, dir.passed, lost);
  }

  lemma StaleTaken(pairs: Layout, j: nat, m: nat, after: Layout, root: Node, path: Path, stable: set<Entry>,
      passed: seq<Entry>, lost: M.Option<Entry>, e: Entry)
    requires j < |pairs| && m < |pairs[j]| && pairs[j][m].hidden && Lists(pairs, root, path) && Chained(after)
    requires Taken(Flatten(pairs), stable, passed, lost, e)
    requires Flatten(after) == Flatten(pairs[..j]) + DirCursor.Remove(pairs[j], m) + Flatten(pairs[j + 1..])
    ensures Lists(after, root, path) && |Flatten(after)| < |Flatten(pairs)|
    ensures Taken(Flatten(after), stable - {pairs[j][m]}, passed, lost, e)
  {
    hide Flatten, Lists, DirCursor.Remove;
    Around(pairs, j, m);
    var h, pre, post := pairs[j][m], Flatten(pairs[..j]) + pairs[j][..m], pairs[j][m + 1..] + Flatten(pairs[j + 1..]);
    ListsLessHidden(pairs, root, path, after, h, pre, post);
    forall x
      ensures x in Flatten(pairs) && x != h ==> x in Flatten(after)
      ensures x in Flatten(after) ==> x in Flatten(pairs)
    {
    }
  }

  lemma EntryTaken(pairs: Layout, k: nat, i: nat, after: Layout, root0: Node, root: Node, path: Path,
      stable: set<Entry>, passed: seq<Entry>, lost: M.Option<Entry>)
    requires k < |pairs| && i < |pairs[k]| && Lists(pairs, root0, path) && Chained(after)
    requires Gone(root0, root, path + [pairs[k][i].name]) && Taken(Flatten(pairs), stable, passed, lost, pairs[k][i])
    requires Flatten(after) == Flatten(pairs[..k]) + DirCursor.Remove(pairs[k], i) + Flatten(pairs[k + 1..])
    ensures Lists(after, root, path) && |Flatten(after)| < |Flatten(pairs)|
    ensures Unread(Flatten(after), stable - {pairs[k][i]}, passed, lost)
  {
    hide Flatten, Lists, Gone, DirCursor.Remove;
    Around(pairs, k, i);
    var e, pre, post := pairs[k][i], Flatten(pairs[..k]) + pairs[k][..i], pairs[k][i + 1..] + Flatten(pairs[k + 1..]);
    ListsLess(pairs, root0, path, after, root, e, pre, post);
    forall x
      ensures x in Flatten(pairs) && x != e ==> x in Flatten(after)
    {
    }
  }

  /** An entry stands at one place only. */
  lemma SamePlace(pairs: Layout, e: Entry, k: nat, i: nat, l: nat, n: nat)
    requires multiset(Flatten(pairs))[e] == 1
    requires k < |pairs| && i < |pairs[k]| && pairs[k][i] == e && l < |pairs| && n < |pairs[l]| && pairs[l][n] == e
    ensures k == l && i == n
  {
    hide Flatten;
    Around(pairs, k, i);
    PlaceAt(pairs, l);
    PlaceAt(pairs, k);
    var pre, post := Flatten(pairs[..k]) + pairs[k][..i], pairs[k][i + 1..] + Flatten(pairs[k + 1..]);
    assert multiset(Flatten(pairs)) == multiset(pre) + multiset{e} + multiset(post);
    assert e !in multiset(pre) && e !in multiset(post);
    var place := |Flatten(pairs[..l])| + n;
    assert (pre + [e] + post)[place] == e;
    assert place == |pre|;
    if k < l {
      PrefixPlace(pairs, k, l);
      assert false;
    } else if l < k {
      PrefixPlace(pairs, l, k);
      assert false;
    }
  }

  lemma PrefixPlace(pairs: Layout, k: nat, l: nat)
    requires k < l <= |pairs|
    ensures |Flatten(pairs[..l])| >= |Flatten(pairs[..k])| + |pairs[k]|
    ensures Flatten(pairs[..k + 1]) <= Flatten(pairs[..l])
  {
    hide Flatten;
    FlattenAt(pairs, k);
    FlattenConcat(pairs[..k + 1], pairs[k + 1..l]);
    assert pairs[..l] == pairs[..k + 1] + pairs[k + 1..l];
  }

  // ---------------------------------------------------------------- the first entry

  lemma {:induction false} ShownIn(list: seq<Entry>, e: Entry)
    ensures e in Shown(list) <==> e in list && !e.hidden
    decreases |list|
  {
    if list != [] {
      var front := list[..|list| - 1];
      ShownIn(front, e);
      assert list == front + [list[|list| - 1]];
    }
  }

  lemma QuietIff(list: seq<Entry>)
    ensures Quiet(list) <==> Shown(list) == []
  {
    forall i | 0 <= i < |list|
      ensures list[i] in Shown(list) <==> !list[i].hidden
    {
      ShownIn(list, list[i]);
    }
    if Quiet(list) && Shown(list) != [] {
      ShownIn(list, Shown(list)[0]);
      assert false;
    }
  }

  /** What was returned before the reader overtook anything is what it went past. */
  lemma GivenIsShown(pairs: Layout, move: Move, k: nat, id: nat)
    requires MoveFits(pairs, move) && k < |pairs| && id <= |pairs[k]| && !Overtook(pairs, move, false, k, id)
    ensures GivenBelow(pairs, move, k, id) == Shown(Flatten(pairs[..k]) + pairs[k][..id])
  {
    hide Flatten, Shown, AnswersBelow;
    AnswersCount(pairs, move, k);
    AnswersAre(pairs[k], MoveIn(move, k), id);
    ShownConcat(Flatten(pairs[..k]), pairs[k][..id]);
  }

  lemma {:induction false} AnswersGrow(pairs: Layout, move: Move, a: nat, b: nat)
    requires a <= b <= |pairs|
    ensures Answers(pairs, move, a) <= Answers(pairs, move, b)
    decreases b
  {
    if a < b {
      AnswersGrow(pairs, move, a, b - 1);
    }
  }

  /** Ids that answered nothing are hidden or behind the entry to move. */
  lemma {:induction false} NothingBelow(entries: seq<Entry>, mv: M.Option<nat>, n: nat, i: nat)
    requires AnswersBelow(entries, mv, n) == [] && i < n
    ensures Answer(entries, mv, i) == M.None
  {
    if i < n - 1 {
      NothingBelow(entries, mv, n - 1, i);
    }
  }

  /** The ids in front of the first answer gave nothing. */
  lemma BeforeFirst(pairs: Layout, move: Move, k: nat, id: nat, e: Entry)
    requires MoveFits(pairs, move) && k < |pairs| && 0 < id <= |pairs[k]|
    requires GivenBelow(pairs, move, k, id) == [e] && Answer(pairs[k], MoveIn(move, k), id - 1) == M.Some(e)
    ensures Answers(pairs, move, k) == [] && AnswersBelow(pairs[k], MoveIn(move, k), id - 1) == []
    ensures GivenBelow(pairs, move, k, id - 1) == []
  {
    hide AnswersBelow, Answers, Answer;
    StepAnswers(pairs, move, k, id - 1);
    var before := GivenBelow(pairs, move, k, id - 1);
    assert |before + [e]| == 1;
    GivenParts(pairs, move, k, id - 1);
  }

  lemma GivenParts(pairs: Layout, move: Move, k: nat, id: nat)
    requires k < |pairs|
    ensures GivenBelow(pairs, move, k, id) == Answers(pairs, move, k) + AnswersBelow(pairs[k], MoveIn(move, k), id)
  {
  }

  /** Nothing was returned from a pair in front of the reader. */
  lemma NothingIn(pairs: Layout, move: Move, j: nat, k: nat)
    requires j < k <= |pairs| && Answers(pairs, move, k) == []
    ensures Answers(pairs, move, j) == [] && AnswersBelow(pairs[j], MoveIn(move, j), |pairs[j]|) == []
  {
    AnswersGrow(pairs, move, j + 1, k);
    AnswersGrow(pairs, move, j, j + 1);
  }

  predicate TrappedIn(pairs: Layout, j: nat, m: nat) {
    && j < |pairs| && m + 1 < |pairs[j]| && Quiet(Flatten(pairs[..j])) && Quiet(pairs[j][..m])
  }

  /** If nothing was returned from the pair of the move in front of id n, nothing was to be
      returned in front of the entry to move. */
  lemma QuietFront(pairs: Layout, j: nat, m: nat, n: nat)
    requires MoveFits(pairs, Moving(j, m)) && m <= n && j < |pairs|
    requires Answers(pairs, Moving(j, m), j) == [] && AnswersBelow(pairs[j], M.Some(m), n) == []
    ensures Quiet(Flatten(pairs[..j])) && Quiet(pairs[j][..m])
  {
    hide Flatten, Shown, Answers, AnswersBelow;
    AnswersCount(pairs, Moving(j, m), j);
    QuietIff(Flatten(pairs[..j]));
    forall i | 0 <= i < m
      ensures pairs[j][..m][i].hidden
    {
      NothingBelow(pairs[j], M.Some(m), n, i);
    }
  }

  /** While a move is pending, the first entry returned comes from behind the entry to move exactly
      if nothing is to be returned from in front of it. */
  lemma FirstOvertakes(pairs: Layout, j: nat, m: nat, k: nat, id: nat, e: Entry)
    requires MoveFits(pairs, Moving(j, m)) && k < |pairs| && 0 < id <= |pairs[k]|
    requires GivenBelow(pairs, Moving(j, m), k, id) == [e]
            && Answer(pairs[k], MoveIn(Moving(j, m), k), id - 1) == M.Some(e)
    ensures Overtook(pairs, Moving(j, m), false, k, id) <==> TrappedIn(pairs, j, m)
  {
    hide Flatten, Answers, AnswersBelow, GivenBelow, Quiet;
    var move := Moving(j, m);
    BeforeFirst(pairs, move, k, id, e);
    if Overtook(pairs, move, false, k, id) {
      if k > j {
        NothingIn(pairs, move, j, k);
        QuietFront(pairs, j, m, |pairs[j]|);
      } else {
        QuietFront(pairs, j, m, id - 1);
      }
    } else if m + 1 < |pairs[j]| {
      LoudFront(pairs, j, m, k, id - 1);
    }
  }

  lemma LoudFront(pairs: Layout, j: nat, m: nat, k: nat, i: nat)
    requires j < |pairs| && m < |pairs[j]| && k < |pairs| && i < |pairs[k]| && !pairs[k][i].hidden
    requires k < j || (k == j && i < m)
    ensures !Quiet(Flatten(pairs[..j])) || !Quiet(pairs[j][..m])
  {
    hide Flatten;
    if k < j {
      PlaceAt(pairs[..j], k);
      assert pairs[..j][k] == pairs[k];
      assert Flatten(pairs[..j])[|Flatten(pairs[..j][..k])| + i] == pairs[k][i];
    } else {
      assert pairs[j][..m][i] == pairs[j][i];
    }
  }

  /** Then the entries the reader went past are the one behind the entry to move, and possibly the
      one it returned. */
  lemma FirstPassed(pairs: Layout, j: nat, m: nat, k: nat, id: nat, e: Entry, x: Entry)
    requires MoveFits(pairs, Moving(j, m)) && k < |pairs| && 0 < id <= |pairs[k]|
    requires GivenBelow(pairs, Moving(j, m), k, id) == [e]
            && Answer(pairs[k], MoveIn(Moving(j, m), k), id - 1) == M.Some(e)
    requires Overtook(pairs, Moving(j, m), false, k, id)
    requires x in Flatten(pairs[..k]) + pairs[k][..id] && !x.hidden
    ensures x == pairs[j][m + 1] || x == e
  {
    hide Flatten, Answers, AnswersBelow, GivenBelow, Shown;
    var move := Moving(j, m);
    BeforeFirst(pairs, move, k, id, e);
    if x in pairs[k][..id] {
      var i :| 0 <= i < id && pairs[k][i] == x;
      if i < id - 1 {
        NothingBelow(pairs[k], MoveIn(move, k), id - 1, i);
      } else if k == j && i > m + 1 {
        NothingBelow(pairs[k], MoveIn(move, k), id - 1, i - 1);
      }
    } else {
      AnswersCount(pairs, move, k);
      ShownIn(Flatten(pairs[..k]), x);
      if k > j {
        var n := pairs[j][m + 1];
        PlaceAt(pairs[..k], j);
        assert pairs[..k][j] == pairs[j];
        assert Flatten(pairs[..k])[|Flatten(pairs[..k][..j])| + (m + 1)] == n;
        ShownIn(Flatten(pairs[..k]), n);
        OnlyOne(Shown(Flatten(pairs[..k])), n, x);
      }
    }
  }

  lemma OnlyOne(s: seq<Entry>, a: Entry, b: Entry)
    requires |s| == 1 && a in s && b in s
    ensures a == b
  {
  }

  lemma Upto(pairs: Layout, k: nat, id: nat)
    requires k < |pairs| && id <= |pairs[k]|
    ensures PlaceOf(pairs, false, k, id) <= |Flatten(pairs)|
    ensures Flatten(pairs)[..PlaceOf(pairs, false, k, id)] == Flatten(pairs[..k]) + pairs[k][..id]
  {
    hide Flatten;
    FlattenAt(pairs, k);
    assert (Flatten(pairs[..k]) + pairs[k] + Flatten(pairs[k + 1..]))[..|Flatten(pairs[..k])| + id] ==
        Flatten(pairs[..k]) + pairs[k][..id];
  }

  lemma PassedAre(pairs: Layout, k: nat, id: nat, passed: seq<Entry>, stable: set<Entry>, x: Entry)
    requires Reading(pairs, false, k, id, passed, stable) && x in stable
    ensures k < |pairs| && id <= |pairs[k]|
    ensures multiset(passed)[x] == multiset(Flatten(pairs[..k]) + pairs[k][..id])[x] <= multiset(Flatten(pairs))[x] == 1
    ensures x in passed ==> x in Flatten(pairs[..k]) + pairs[k][..id]
  {
    Upto(pairs, k, id);
    var g, list := PlaceOf(pairs, false, k, id), Flatten(pairs);
    assert list == list[..g] + list[g..];
    assert x in passed <==> multiset(passed)[x] > 0;
  }

  /** After the first entry was returned from a directory with the pending move. */
  lemma FirstTaken(pairs: Layout, j: nat, m: nat, k: nat, id: nat, passed: seq<Entry>, stable: set<Entry>, e: Entry)
    requires Reading(pairs, false, k, id, passed, stable) && MoveFits(pairs, Moving(j, m))
    requires k < |pairs| && 0 < id <= |pairs[k]| && Unread(Flatten(pairs), stable, [], M.None)
    requires GivenBelow(pairs, Moving(j, m), k, id) == [e]
            && Answer(pairs[k], MoveIn(Moving(j, m), k), id - 1) == M.Some(e)
    requires !Overtook(pairs, Moving(j, m), false, k, id) ==> passed == [e]
    ensures Taken(Flatten(pairs), stable, passed, if TrappedIn(pairs, j, m) then M.Some(pairs[j][m + 1]) else M.None, e)
    ensures j < |pairs| && m + 1 < |pairs[j]| ==>
            e != pairs[j][m + 1] && pairs[j][m + 1] in Flatten(pairs) && !pairs[j][m + 1].hidden
  {
    hide Flatten, Answers, AnswersBelow, GivenBelow, Shown, TrappedIn, Reading;
    var move, list := Moving(j, m), Flatten(pairs);
    FirstOvertakes(pairs, j, m, k, id, e);
    var p := M.Synthetic(MoveIn(move, k), id - 1).value;
    InFlatten(pairs, k, p);
    if m + 1 < |pairs[j]| {
      InFlatten(pairs, j, m + 1);
      if e == pairs[j][m + 1] {
        PassedAre(pairs, k, id, passed, stable, e);
        SamePlace(pairs, e, k, p, j, m + 1);
        assert false;
      }
    }
    if Overtook(pairs, move, false, k, id) {
      forall x | x in list && !x.hidden && x in passed
        ensures x == pairs[j][m + 1] || x == e
      {
        PassedAre(pairs, k, id, passed, stable, x);
        FirstPassed(pairs, j, m, k, id, e, x);
      }
      var n := pairs[j][m + 1];
      PassedAre(pairs, k, id, passed, stable, n);
      if k > j {
        InFlatten(pairs[..k], j, m + 1);
      } else {
        assert pairs[k][..id][m + 1] == n;
      }
      assert n in Flatten(pairs[..k]) + pairs[k][..id];
      assert multiset(Flatten(pairs[..k]) + pairs[k][..id])[n] > 0;
    }
    TrappedHas(pairs, j, m);
  }

  lemma TrappedHas(pairs: Layout, j: nat, m: nat)
    ensures TrappedIn(pairs, j, m) ==> j < |pairs| && m + 1 < |pairs[j]|
  {
  }

  lemma InFlatten(pairs: Layout, k: nat, i: nat)
    requires k < |pairs| && i < |pairs[k]|
    ensures pairs[k][i] in Flatten(pairs)
  {
    hide Flatten;
    PlaceAt(pairs, k);
    assert Flatten(pairs)[|Flatten(pairs[..k])| + i] == pairs[k][i];
  }

  lemma NotOvertaken(pairs: Layout, move: Move, detached: bool, k: nat, id: nat, passed: seq<Entry>)
    ensures move == NoMove ==> !Overtook(pairs, move, detached, k, id)
    ensures passed + [] == passed
  {
  }

  /** After any other entry was returned. */
  lemma NextItem(pairs: Layout, k: nat, id: nat, passed0: seq<Entry>, passed: seq<Entry>, stable: set<Entry>,
        lost: M.Option<Entry>, e: Entry)
    requires Reading(pairs, false, k, id, passed, stable) && k < |pairs| && 0 < id <= |pairs[k]|
    requires Unread(Flatten(pairs), stable, passed0, lost) && passed == passed0 + [e]
    requires !e.hidden && Answer(pairs[k], M.None, id - 1) == M.Some(e)
    ensures Taken(Flatten(pairs), stable, passed, lost, e)
  {
    hide Flatten, Reading;
    InFlatten(pairs, k, id - 1);
    if lost == M.Some(e) {
      PassedAre(pairs, k, id, passed, stable, e);
      Twice(passed0, e);
      assert false;
    }
  }

  lemma Twice(passed: seq<Entry>, e: Entry)
    requires e in passed
    ensures multiset(passed + [e])[e] >= 2
  {
    assert multiset(passed)[e] > 0;
  }

  // ---------------------------------------------------------------- steps of the removal

  lemma Opened(root: Node, pending: Pending, layoutOf: (Node, Path) -> Layout, path: Path)
    requires LaysOut(layoutOf) && PendingFits(root, pending) && KindAt(root, path) == IsDir
    ensures var pairs := if pending.MoveOut? && pending.dir == path then pending.layout else layoutOf(root, path);
            && Lists(pairs, root, path) && Chained(pairs) && MoveFits(pairs, MoveAt(pending, path))
            && forall e :: e in Flatten(pairs) && !e.hidden ==> multiset(Flatten(pairs))[e] == 1
  {
  }

  /** An open directory from which nothing was returned yet, while a move is pending somewhere. */
  ghost predicate AtStart(pairs: Layout, move: Move, k: nat, id: nat, detached: bool, passed: seq<Entry>,
      pending: Pending, path: Path, layoutOf: (Node, Path) -> Layout, root: Node)
  {
    && pending.MoveOut? && pairs == (if pending.dir == path then pending.layout else layoutOf(root, path))
    && move == MoveAt(pending, path) && passed == []
    && !detached && k < |pairs| && GivenBelow(pairs, move, k, id) == []
  }

  lemma Stays(pairs: Layout, move: Move, k: nat, id: nat, detached: bool, passed: seq<Entry>,
      pending: Pending, path: Path, layoutOf: (Node, Path) -> Layout, root: Node)
    ensures AtStart(pairs, move, k, id, detached, passed, pending, path, layoutOf, root) <==>
            && pending.MoveOut? && pairs == (if pending.dir == path then pending.layout else layoutOf(root, path))
            && move == MoveAt(pending, path) && passed == []
            && !detached && k < |pairs| && GivenBelow(pairs, move, k, id) == []
  {
  }

  lemma Starting(pairs: Layout, move: Move, id: nat, passed: seq<Entry>, stable: set<Entry>,
      pending: Pending, path: Path, layoutOf: (Node, Path) -> Layout, root: Node)
    requires Reading(pairs, false, 0, id, passed, stable) && PlaceOf(pairs, false, 0, id) == 0 && passed == []
    requires stable == set e | e in Flatten(pairs) && !e.hidden
    requires move == MoveAt(pending, path)
    requires pairs == if pending.MoveOut? && pending.dir == path then pending.layout else layoutOf(root, path)
    ensures Unread(Flatten(pairs), stable, [], M.None)
    ensures pending.MoveOut? ==> AtStart(pairs, move, 0, id, false, passed, pending, path, layoutOf, root)
    ensures pending.NoPending? ==>
            move == NoMove && LostAt(pending, path) == M.None && !Trapped(root, layoutOf, pending, path)
  {
    NothingGiven(pairs, move, id, passed, stable);
  }

  lemma WithoutPending(root: Node, layoutOf: (Node, Path) -> Layout, path: Path)
    ensures !Trapped(root, layoutOf, NoPending, path) && !TrappedAt(NoPending, path) && !Shadowed(NoPending, path)
  {
  }

  /** What reading the first entry of a directory tells while a move is pending somewhere. */
  lemma FirstItem(root: Node, layoutOf: (Node, Path) -> Layout, pending: Pending, path: Path, pairs: Layout, k: nat,
      id: nat, passed: seq<Entry>, stable: set<Entry>, e: Entry)
    requires pending.MoveOut? && PendingFits(root, pending) && !Shadowed(pending, path)
    requires pairs == if pending.dir == path then pending.layout else layoutOf(root, path)
    requires Lists(pairs, root, path) && Reading(pairs, false, k, id, passed, stable)
    requires Unread(Flatten(pairs), stable, [], M.None) && k < |pairs| && 0 < id <= |pairs[k]|
    requires var move := MoveAt(pending, path);
             && MoveFits(pairs, move) && GivenBelow(pairs, move, k, id) == [e] && !e.hidden
             && Answer(pairs[k], MoveIn(move, k), id - 1) == M.Some(e)
             && (!Overtook(pairs, move, false, k, id) ==> passed == [e])
    ensures Taken(Flatten(pairs), stable, passed, LostAt(pending, path), e)
    ensures var sub := path + [e.name];
            && !Shadowed(pending, sub)
            && (Trapped(root, layoutOf, pending, sub)
                <==> path != pending.dir && Trapped(root, layoutOf, pending, path))
            && (Trapped(root, layoutOf, pending, sub) ==> KindAt(root, sub) == IsDir)
  {
    hide Flatten, GivenBelow, Reading, Shown, Trapped, KindAt, Quiet, Answer, Lists;
    var move, sub := MoveAt(pending, path), path + [e.name];
    if path == pending.dir {
      FirstTaken(pairs, move.j, move.m, k, id, passed, stable, e);
      LedAway(root, layoutOf, pending, e.name);
      if HasNeighbour(pending) {
        NamesDiffer(pairs, root, path, e, Neighbour(pending));
      }
    } else {
      FirstOfList(pairs, k, id, e);
      LedOn(root, layoutOf, pending, path, e.name);
      FirstElsewhere(pairs, k, id, passed, stable, e);
      if sub <= pending.dir {
        DirsOnTheWay(root, pending.dir, sub);
      }
      NotShadowed(pending, path, e.name);
    }
    LedIn(root, layoutOf, pending, sub);
  }

  lemma LedIn(root: Node, layoutOf: (Node, Path) -> Layout, pending: Pending, path: Path)
    ensures Trapped(root, layoutOf, pending, path) ==> pending.MoveOut? && path <= pending.dir
  {
  }

  lemma FirstElsewhere(pairs: Layout, k: nat, id: nat, passed: seq<Entry>, stable: set<Entry>, e: Entry)
    requires Reading(pairs, false, k, id, passed, stable) && k < |pairs| && 0 < id <= |pairs[k]|
    requires Unread(Flatten(pairs), stable, [], M.None) && !e.hidden && Answer(pairs[k], M.None, id - 1) == M.Some(e)
    requires !Overtook(pairs, NoMove, false, k, id) ==> passed == [e]
    ensures Taken(Flatten(pairs), stable, passed, M.None, e)
  {
    assert [] + [e] == [e];
    NextItem(pairs, k, id, [], passed, stable, M.None, e);
  }

  lemma FirstOfList(pairs: Layout, k: nat, id: nat, e: Entry)
    requires k < |pairs| && id <= |pairs[k]| && GivenBelow(pairs, NoMove, k, id) == [e]
    ensures var shown := Shown(Flatten(pairs)); shown != [] && shown[0] == e
  {
    hide Flatten, GivenBelow, Shown;
    GivenIsShown(pairs, NoMove, k, id);
    Upto(pairs, k, id);
    var g, list := PlaceOf(pairs, false, k, id), Flatten(pairs);
    assert list == list[..g] + list[g..];
    ShownConcat(list[..g], list[g..]);
  }

  lemma NamesDiffer(pairs: Layout, root: Node, path: Path, e: Entry, n: Entry)
    requires Lists(pairs, root, path) && e in Flatten(pairs) && n in Flatten(pairs) && !e.hidden && !n.hidden && e != n
    ensures e.name != n.name && !(path + [n.name] <= path + [e.name])
  {
    assert (path + [n.name])[|path|] == n.name && (path + [e.name])[|path|] == e.name;
  }

  lemma NotShadowed(pending: Pending, path: Path, name: string)
    requires pending.MoveOut? && path != pending.dir && !Shadowed(pending, path)
    ensures !Shadowed(pending, path + [name])
  {
    if HasNeighbour(pending) {
      LastPart(pending.dir, Neighbour(pending).name, path, name);
    }
  }

  lemma LastPart(a: Path, x: string, b: Path, y: string)
    ensures a + [x] <= b + [y] ==> a + [x] <= b || a == b
  {
    var d := a + [x];
    if d <= b + [y] {
      if |d| <= |b| {
        assert d == (b + [y])[..|d|] == b[..|d|];
      } else {
        assert a == d[..|b|] == (b + [y])[..|b|] == b;
      }
    }
  }

  lemma {:induction false} DirsOnTheWay(root: Node, goal: Path, path: Path)
    requires path <= goal && KindAt(root, goal) == IsDir
    ensures KindAt(root, path) == IsDir
  {
    if path != [] {
      assert path[1..] <= goal[1..] && path[0] == goal[0];
      DirsOnTheWay(root.children[goal[0]], goal[1..], path[1..]);
    }
  }

  /** What cannot be opened is not where one is led to. */
  lemma NotTrapped(root: Node, layoutOf: (Node, Path) -> Layout, pending: Pending, path: Path)
    requires PendingFits(root, pending) && (KindAt(root, path) != IsDir || Shadowed(pending, path))
    ensures !Trapped(root, layoutOf, pending, path)
  {
    if Trapped(root, layoutOf, pending, path) {
      if KindAt(root, path) != IsDir {
        DirsOnTheWay(root, pending.dir, path);
      }
      assert false;
    }
  }

  /** A directory that cannot be looked up is at or below a neighbour that is one. */
  lemma ShadowedDir(root: Node, pending: Pending, path: Path)
    requires PendingFits(root, pending) && KindAt(root, path) == IsDir && Shadowed(pending, path)
    ensures HidesDir(pending, path)
  {
    var n := Neighbour(pending);
    InFlatten(pending.layout, pending.j, pending.m + 1);
    DirsOnTheWay(root, path, pending.dir + [n.name]);
  }

  lemma NoChild(root: Node, path: Path)
    requires KindAt(root, path) != IsDir
    ensures !HasChild(root, path)
  {
    forall name
      ensures KindAt(root, path + [name]) == Missing
    {
      if KindAt(root, path) == Missing {
        MissingBelow(root, path, name);
      } else {
        ChildKind(root, path, name);
      }
    }
  }

  lemma {:induction false} MissingBelow(root: Node, path: Path, name: string)
    requires KindAt(root, path) == Missing
    ensures KindAt(root, path + [name]) == Missing
  {
    assert (path + [name])[1..] == path[1..] + [name];
    if root.Dir? && path[0] in root.children {
      MissingBelow(root.children[path[0]], path[1..], name);
    }
  }

  lemma ChildLeft(root: Node, path: Path, lost: M.Option<string>)
    requires forall name :: KindAt(root, path + [name]) != Missing <==> lost == M.Some(name)
    ensures HasChild(root, path) <==> lost.Some?
  {
    if lost.Some? {
      assert KindAt(root, path + [lost.value]) != Missing;
    }
  }

  lemma TrappedOrNot(root: Node, layoutOf: (Node, Path) -> Layout, pending: Pending, path: Path)
    ensures TrappedAt(pending, path) ==> Trapped(root, layoutOf, pending, path)
    ensures Trapped(root, layoutOf, pending, path) && path == pending.dir ==> TrappedAt(pending, path)
  {
  }

  lemma EndOfFirst(root: Node, layoutOf: (Node, Path) -> Layout, pending: Pending, path: Path, pairs: Layout, k: nat,
        stable: set<Entry>)
    requires pending.MoveOut? && pairs == if pending.dir == path then pending.layout else layoutOf(root, path)
    requires k + 1 == |pairs| && GivenBelow(pairs, MoveAt(pending, path), k, |pairs[k]|) == []
    requires MoveFits(pairs, MoveAt(pending, path))
    ensures LeftOver(Flatten(pairs), LostAt(pending, path))
    ensures Trapped(root, layoutOf, pending, path) ==> path == pending.dir
  {
    hide Flatten, GivenBelow, Shown, Trapped, Quiet, Answers, AnswersBelow;
    var move, list := MoveAt(pending, path), Flatten(pairs);
    AllGiven(pairs, move, k);
    AnswersCount(pairs, move, |pairs|);
    assert pairs[..|pairs|] == pairs;
    forall e
      ensures e in Shown(list) <==> e in list && !e.hidden
    {
      ShownIn(list, e);
    }
    if path != pending.dir {
      LedNowhere(root, layoutOf, pending, path);
    } else if HasNeighbour(pending) {
      var n := Neighbour(pending);
      NothingIn(pairs, move, pending.j, |pairs|);
      QuietFront(pairs, pending.j, pending.m, |pairs[pending.j]|);
      InFlatten(pairs, pending.j, pending.m + 1);
      forall e | e in Shown(list)
        ensures e == n
      {
        OnlyOne(Shown(list), e, n);
      }
    }
  }

  lemma EndOfLater(list: seq<Entry>, stable: set<Entry>, passed: seq<Entry>, lost: M.Option<Entry>)
    requires Unread(list, stable, passed, lost)
    requires forall e :: e in stable ==> multiset(passed)[e] == 1
    ensures LeftOver(list, lost)
  {
    forall e | e in list && !e.hidden
      ensures lost == M.Some(e)
    {
      assert e in multiset(passed);
    }
  }

  /** What is left in the listing is left in the tree. */
  lemma ChildrenAre(layout: Layout, root: Node, path: Path, lost: M.Option<Entry>, pending: Pending)
    requires Lists(layout, root, path) && LeftOver(Flatten(layout), lost) && lost == LostAt(pending, path)
    ensures forall name ::
              KindAt(root, path + [name]) != Missing <==> TrappedAt(pending, path) && name == Neighbour(pending).name
  {
  }

  lemma Listed(layout: Layout, root: Node, path: Path, stable: set<Entry>, passed: seq<Entry>, lost: M.Option<Entry>,
        e: Entry)
    requires Lists(layout, root, path) && Taken(Flatten(layout), stable, passed, lost, e)
    ensures KindAt(root, path + [e.name]) != Missing && (e.isDir <==> KindAt(root, path + [e.name]) == IsDir)
  {
  }

  lemma Somewhere(pairs: Layout, stable: set<Entry>, passed: seq<Entry>, lost: M.Option<Entry>, e: Entry)
    requires Taken(Flatten(pairs), stable, passed, lost, e)
    ensures exists k: nat, i: nat :: k < |pairs| && i < |pairs[k]| && pairs[k][i] == e
  {
    InSome(pairs, e);
  }

  lemma {:induction false} InSome(pairs: Layout, e: Entry)
    requires e in Flatten(pairs)
    ensures exists k: nat, i: nat :: k < |pairs| && i < |pairs[k]| && pairs[k][i] == e
  {
    if e !in pairs[0] {
      InSome(pairs[1..], e);
      var k: nat, i: nat :| k < |pairs[1..]| && i < |pairs[1..][k]| && pairs[1..][k][i] == e;
      assert pairs[k + 1][i] == e;
    }
  }

  lemma Around(pairs: Layout, k: nat, i: nat)
    requires k < |pairs| && i < |pairs[k]|
    ensures var pre, post := Flatten(pairs[..k]) + pairs[k][..i], pairs[k][i + 1..] + Flatten(pairs[k + 1..]);
            && Flatten(pairs) == pre + [pairs[k][i]] + post
            && Flatten(pairs[..k]) + DirCursor.Remove(pairs[k], i) + Flatten(pairs[k + 1..]) == pre + post
  {
    hide Flatten;
    FlattenAt(pairs, k);
    assert pairs[k] == pairs[k][..i] + [pairs[k][i]] + pairs[k][i + 1..];
  }

  lemma StaysChained(pairs: Layout, detached: bool, k: nat, id: nat, passed: seq<Entry>, stable: set<Entry>)
    requires Reading(pairs, detached, k, id, passed, stable)
    ensures Chained(pairs)
  {
  }

  lemma Deeper(root: Node, sub: Path, depth: nat)
    requires Bounded(root, depth) && KindAt(root, sub) != Missing
    ensures |sub| <= depth
  {
  }

  lemma StillDir(root0: Node, root: Node, path: Path, name: string)
    requires OnlyRemoved(root0, root, path + [name]) && KindAt(root0, path) == IsDir
    ensures KindAt(root, path) == IsDir
  {
    assert !(path + [name] <= path);
  }

  lemma ExistsBefore(root0: Node, root: Node, path: Path)
    requires OnlyRemoved(root0, root, path) && KindAt(root, path) != Missing
    ensures KindAt(root0, path) != Missing
  {
  }

  /** Deleting one entry, as a commit. */
  lemma TakesOut(pairs: Layout, k: nat, i: nat, id: nat, pos: int, pieces: Layout, split: seq<Entry> -> Layout)
    requires k < |pairs| && i < |pairs[k]| && Splits(split)
    requires pieces == split(DirCursor.Remove(pairs[k], i))
    ensures var attrs := [Delete(i)];
            && FitsAll(pairs[k], attrs, Others(pairs, k))
            && ApplyAll(pairs[k], attrs, Others(pairs, k)) == DirCursor.Remove(pairs[k], i)
            && Deleted(pairs[k], attrs, Others(pairs, k)) == {pairs[k][i]}
            && FixEach(id, pos, attrs).1 >= pos - 1
            && (!Drops(pairs, k, attrs) ==> Pieces(pieces, DirCursor.Remove(pairs[k], i), k))
  {
    var attrs := [Delete(i)];
    assert attrs[1..] == [];
    assert FixEach(id, pos, attrs) == Fix(id, pos, Delete(i));
  }

  lemma Unchanged(root: Node, path: Path)
    ensures OnlyRemoved(root, root, path)
  {
  }
}
