/** Zipping and unzipping give back the same trees and contents. */
module ArchiveRoundTrip {
  import opened Basics
  import Paths
  import Unzip
  import opened Zip

  // ---------------------------------------------------------------------
  // What stands at a path of a tree
  // ---------------------------------------------------------------------

  function ChildNamed(children: seq<Child>, name: Name): Option<Tree> {
    if children == [] then None
    else if children[|children| - 1].name == name then Some(children[|children| - 1].tree)
    else ChildNamed(children[..|children| - 1], name)
  }

  /** Follows the names down from the root of the tree. */
  function NodeAt(tree: Tree, path: Inner): Option<Node>
    decreases |path|
  {
    if path == [] then Some(if tree.File? then FileNode(tree.bytes) else DirectoryNode)
    else if tree.File? || ChildNamed(tree.children, path[0]).None? then None
    else NodeAt(ChildNamed(tree.children, path[0]).value, path[1..])
  }

  ghost function Lookup(disk: Disk, path: Inner): Option<Node> {
    if path in disk then Some(disk[path]) else None
  }

  lemma {:induction false} FlatIsTheTree(at: Inner, tree: Tree, path: Inner)
    requires WellNamed(tree)
    ensures Lookup(Flat(at, tree), at + path) == NodeAt(tree, path)
    decreases tree, 0
  {
    if path == [] {
      assert at + path == at;
      FlatIsBeneath(at, tree);
    } else if tree.Directory? {
      FlatChildrenAreTheTree(at, tree.children, path);
    }
  }

  lemma {:induction false} FlatChildrenAreTheTree(at: Inner, children: seq<Child>, path: Inner)
    requires WellNamedChildren(children) && path != []
    ensures Lookup(FlatChildren(at, children), at + path)
         == if ChildNamed(children, path[0]).None? then None else NodeAt(ChildNamed(children, path[0]).value, path[1..])
    decreases children, |children|
  {
    if children != [] {
      var init, last := children[..|children| - 1], children[|children| - 1];
      FlatChildrenAreTheTree(at, init, path);
      FlatIsBeneath(at + [last.name], last.tree);
      if path[0] == last.name {
        FlatIsTheTree(at + [last.name], last.tree, path[1..]);
        assert at + [last.name] + path[1..] == at + path;
        OtherChildrenAreElsewhere(at, init, path);
      } else {
        assert (at + path)[|at|] != last.name;
        assert !(at + [last.name] <= at + path);
      }
    }
  }

  lemma OtherChildrenAreElsewhere(at: Inner, children: seq<Child>, path: Inner)
    requires path != [] && forall i :: 0 <= i < |children| ==> children[i].name != path[0]
    ensures at + path !in FlatChildren(at, children)
  {
    FlatChildrenAreBeneath(at, children);
    assert (at + path)[|at|] == path[0];
  }

  // ---------------------------------------------------------------------
  // Several sources
  // ---------------------------------------------------------------------

  /** The sources that exist are named, with distinct names, and are trees. */
  ghost predicate Packable(sources: seq<Source>) {
    && (forall i :: 0 <= i < |sources| && sources[i].tree.Some? ==>
          sources[i].name.Some? && WellNamed(sources[i].tree.value))
    && (forall i, j :: 0 <= i < j < |sources| && sources[i].tree.Some? && sources[j].tree.Some? ==>
          sources[i].name != sources[j].name)
  }

  ghost function Standing(source: Source): Disk {
    if source.tree.Some? && source.name.Some? then Flat([source.name.value], source.tree.value) else map[]
  }

  ghost function Forest(sources: seq<Source>): Disk {
    if sources == [] then map[] else Forest(sources[..|sources| - 1]) + Standing(sources[|sources| - 1])
  }

  /** The path starts with the name of a source that exists. */
  ghost predicate UnderSomeSource(sources: seq<Source>, p: Inner) {
    p != [] && exists i :: 0 <= i < |sources| && sources[i].tree.Some? && sources[i].name == Some(p[0])
  }

  lemma {:induction false} ForestIsNamed(sources: seq<Source>)
    ensures forall p :: p in Forest(sources) ==> UnderSomeSource(sources, p)
  {
    if sources != [] {
      var init, last := sources[..|sources| - 1], sources[|sources| - 1];
      ForestIsNamed(init);
      if last.tree.Some? && last.name.Some? {
        FlatIsBeneath([last.name.value], last.tree.value);
      }
      forall p | p in Forest(sources) ensures UnderSomeSource(sources, p) {
        if p in Standing(last) {
          assert sources[|sources| - 1].name == Some(p[0]);
        } else {
          assert UnderSomeSource(init, p);
          var i :| 0 <= i < |init| && init[i].tree.Some? && init[i].name == Some(p[0]);
          assert sources[i] == init[i];
        }
      }
    }
  }

  /** Unpacking an archive into an empty directory always succeeds, and gives
      the sources side by side. */
  lemma {:induction false} UnpackedArchive(sources: seq<Source>)
    requires Packable(sources)
    ensures Unpacked(map[], Archive(sources)) == Some(Forest(sources))
  {
    if sources != [] {
      var init, last := sources[..|sources| - 1], sources[|sources| - 1];
      UnpackedArchive(init);
      UnpackedAppend(map[], Archive(init), Packed(last));
      if last.tree.Some? {
        LastIsClear(sources);
      }
      UnpackSource(Forest(init), last);
    }
  }

  lemma LastIsClear(sources: seq<Source>)
    requires sources != [] && Packable(sources) && sources[|sources| - 1].tree.Some?
    ensures Clear(Forest(sources[..|sources| - 1]), [sources[|sources| - 1].name.value], false)
  {
    var init, last := sources[..|sources| - 1], sources[|sources| - 1];
    ForestIsNamed(init);
    assert forall i :: 0 <= i < |init| ==> init[i] == sources[i];
  }

  lemma UnpackSource(disk: Disk, source: Source)
    requires source.tree.Some? ==>
               source.name.Some? && WellNamed(source.tree.value) && Clear(disk, [source.name.value], false)
    ensures Unpacked(disk, Packed(source)) == Some(disk + Standing(source))
  {
    if source.tree.None? {
      assert disk + Standing(source) == disk;
    } else {
      var at, tree := [source.name.value], source.tree.value;
      if tree.Directory? {
        var made := disk + map[at := DirectoryNode];
        assert made == disk[at := DirectoryNode];
        UnpackOne(disk, DirectoryEntry(at));
        DirectoryUnpacks(disk, at);
        UnpackedAppend(disk, [DirectoryEntry(at)], Visits(at, tree));
        assert Clear(made, at, true);
        UnpackTree(made, at, tree);
        MergeInTurn(disk, map[at := DirectoryNode], Flat(at, tree));
        FlatIsBeneath(at, tree);
        assert map[at := DirectoryNode] + Flat(at, tree) == Flat(at, tree);
      } else {
        assert Clear(disk, at, false);
        UnpackTree(disk, at, tree);
      }
    }
  }

  /** Zip, then unzip: at every path under a source's name stands what stands
      there in the source, and nothing stands anywhere else. */
  lemma {:induction false} ZipThenUnpack(sources: seq<Source>, i: nat, path: Inner)
    requires Packable(sources) && i < |sources| && sources[i].tree.Some?
    ensures Unpacked(map[], Archive(sources)).Some?
    ensures Lookup(Unpacked(map[], Archive(sources)).value, [sources[i].name.value] + path)
         == NodeAt(sources[i].tree.value, path)
  {
    UnpackedArchive(sources);
    ForestHasSource(sources, i, path);
  }

  lemma {:induction false} ForestHasSource(sources: seq<Source>, i: nat, path: Inner)
    requires Packable(sources) && i < |sources| && sources[i].tree.Some?
    ensures Lookup(Forest(sources), [sources[i].name.value] + path) == NodeAt(sources[i].tree.value, path)
  {
    var init, last := sources[..|sources| - 1], sources[|sources| - 1];
    var p := [sources[i].name.value] + path;
    if i == |sources| - 1 {
      FlatIsTheTree([last.name.value], last.tree.value, path);
      LastIsClear(sources);
      assert [last.name.value] <= p;
    } else {
      ForestHasSource(init, i, path);
      if last.tree.Some? {
        FlatIsBeneath([last.name.value], last.tree.value);
        assert p[0] != last.name.value;
      }
    }
  }

  lemma NothingElseUnpacked(sources: seq<Source>, p: Inner)
    requires Packable(sources) && Unpacked(map[], Archive(sources)).Some?
    requires p in Unpacked(map[], Archive(sources)).value
    ensures UnderSomeSource(sources, p)
  {
    UnpackedArchive(sources);
    ForestIsNamed(sources);
  }

  // ---------------------------------------------------------------------
  // Through `unzip_file`
  // ---------------------------------------------------------------------

  /** What stands under one top-level name. */
  ghost function Under(disk: Disk, name: Name): Disk {
    map p | p in Beneath(disk, name) && [name] + p in disk :: disk[[name] + p]
  }

  ghost function Beneath(disk: Disk, name: Name): set<Inner> {
    set q | q in disk && [name] <= q :: q[1..]
  }

  lemma UnderLookup(disk: Disk, name: Name, path: Inner)
    ensures Lookup(Under(disk, name), path) == Lookup(disk, [name] + path)
  {
    var q := [name] + path;
    assert q[1..] == path && [name] <= q;
    if path in Beneath(disk, name) {
      var q' :| q' in disk && [name] <= q' && q'[1..] == path;
      assert q' == [name] + path;
    }
  }

  /** The listing of the temporary directory, in any order. */
  ghost predicate IsListing(entries: seq<Unzip.Entry<Disk>>, disk: Disk) {
    && Unzip.DistinctNames(entries)
    && (forall e :: e in entries ==>
          && [e.name] in disk && e.content == Under(disk, e.name)
          && e.isDirectory == (disk[[e.name]] == DirectoryNode))
    && (forall name :: [name] in disk ==> exists i :: 0 <= i < |entries| && entries[i].name == name)
  }

  /** Unzipping what was zipped into a place where none of the names stand moves
      everything and puts each source back under its own name with everything in
      it. */
  lemma ZipThenUnzip(sources: seq<Source>, entries: seq<Unzip.Entry<Disk>>, dest: Paths.Path, sees: Unzip.Sight,
                     standing: set<Paths.Path>, placed: map<Paths.Path, Disk>, moved: nat, i: nat, path: Inner)
    requires Packable(sources) && i < |sources| && sources[i].tree.Some?
    requires Unpacked(map[], Archive(sources)).Some? ==> IsListing(entries, Unpacked(map[], Archive(sources)).value)
    requires Unzip.Honest(sees, standing)
    requires forall k :: 0 <= k < |entries| ==> Unzip.Below1(dest, entries[k].name) !in standing
    requires Unzip.MovedOut(dest, entries, sees, standing, placed, moved)
    ensures moved == |entries|
    ensures var p := Unzip.Below1(dest, sources[i].name.value);
            p in placed && Lookup(placed[p], path) == NodeAt(sources[i].tree.value, path)
  {
    var name := sources[i].name.value;
    ZipThenUnpack(sources, i, []);
    ZipThenUnpack(sources, i, path);
    var disk := Unpacked(map[], Archive(sources)).value;
    assert [name] + [] == [name];
    assert [name] in disk;
    var k :| 0 <= k < |entries| && entries[k].name == name;
    Unzip.TargetsWithoutConflict(dest, entries, sees, standing);
    assert Unzip.Targets(dest, entries, sees)[..moved][k] in placed;
    assert entries[k] in entries;
    UnderLookup(disk, name, path);
  }
}
