/** Packing files and directory trees into an archive and unpacking it again. */
module Zip {
  import opened Basics
  import Naming
  import Paths

  type Name = string

  /** Names from the top of the archive down. */
  type Inner = seq<Name>

  datatype Tree = File(bytes: seq<byte>) | Directory(children: seq<Child>)
  datatype Child = Child(name: Name, tree: Tree)

  /** One path handed to `zip_files`: its last name, if it has one, and what
      stands there, if anything does. */
  datatype Source = Source(name: Option<Name>, tree: Option<Tree>)
  datatype Entry = DirectoryEntry(path: Inner) | FileEntry(path: Inner, bytes: seq<byte>)

  /** What stands at a path once unpacked. */
  datatype Node = DirectoryNode | FileNode(bytes: seq<byte>)

  // ---------------------------------------------------------------------
  // Packing
  // ---------------------------------------------------------------------

  /** What a directory walk comes across: a directory before its children. */
  function Visits(at: Inner, tree: Tree): seq<Entry>
    decreases tree, 0
  {
    match tree
    case File(bytes) => [FileEntry(at, bytes)]
    case Directory(children) => [DirectoryEntry(at)] + ChildVisits(at, children)
  }

  function ChildVisits(at: Inner, children: seq<Child>): seq<Entry>
    decreases children, |children|
  {
    if children == [] then [] else
      ChildVisits(at, children[..|children| - 1])
      + Visits(at + [children[|children| - 1].name], children[|children| - 1].tree)
  }

  /** The entries of one source. A directory's own entry comes twice: once by
      itself, once as the start of the walk. A path at which nothing stands is
      passed over. */
  function Packed(source: Source): seq<Entry> {
    if source.tree.None? || source.name.None? then []
    else if source.tree.value.Directory? then
      [DirectoryEntry([source.name.value])] + Visits([source.name.value], source.tree.value)
    else Visits([source.name.value], source.tree.value)
  }

  function Archive(sources: seq<Source>): seq<Entry> {
    if sources == [] then [] else Archive(sources[..|sources| - 1]) + Packed(sources[|sources| - 1])
  }

  lemma DirectoryComesTwice(name: Name, children: seq<Child>)
    ensures var entries := Packed(Source(Some(name), Some(Directory(children))));
            |entries| >= 2 && entries[0] == entries[1] == DirectoryEntry([name])
            && entries[2..] == ChildVisits([name], children)
  {
    var walk := Visits([name], Directory(children));
    assert ([DirectoryEntry([name])] + walk)[2..] == walk[1..];
  }

  predicate Nameless(source: Source) {
    source.tree.Some? && source.name.None?
  }

  class ZipWriter {
    var entries: seq<Entry>

    constructor ()
      ensures entries == []
    {
      entries := [];
    }

    method AddDirectory(path: Inner)
      modifies this
      ensures entries == old(entries) + [DirectoryEntry(path)]
    {
      entries := entries + [DirectoryEntry(path)];
    }

    method StartFile(path: Inner)
      modifies this
      ensures entries == old(entries) + [FileEntry(path, [])]
    {
      entries := entries + [FileEntry(path, [])];
    }

    /** Appends to the file last started. */
    method WriteAll(bytes: seq<byte>)
      requires entries != [] && entries[|entries| - 1].FileEntry?
      modifies this
      ensures var last := old(entries[|entries| - 1]);
              entries == old(entries[..|entries| - 1]) + [last.(bytes := last.bytes + bytes)]
    {
      var last := entries[|entries| - 1];
      entries := entries[..|entries| - 1] + [last.(bytes := last.bytes + bytes)];
    }
  }

  /** Starts a file entry and fills it through the shared buffer. */
  method WriteFile(writer: ZipWriter, path: Inner, content: seq<byte>, buffer: seq<byte>) returns (buffer': seq<byte>)
    requires buffer == []
    modifies writer
    ensures buffer' == []
    ensures writer.entries == old(writer.entries) + [FileEntry(path, content)]
  {
    writer.StartFile(path);
    buffer' := buffer + content;   // `read_to_end` appends
    assert buffer' == content && [] + content == content;
    writer.WriteAll(buffer');
    buffer' := [];
  }

  /** The loop over a directory walk. */
  method WriteVisits(writer: ZipWriter, visits: seq<Entry>, buffer: seq<byte>) returns (buffer': seq<byte>)
    requires buffer == []
    modifies writer
    ensures buffer' == []
    ensures writer.entries == old(writer.entries) + visits
  {
    buffer' := buffer;
    var k := 0;
    while k < |visits|
      invariant k <= |visits|
      invariant buffer' == []
      invariant writer.entries == old(writer.entries) + visits[..k]
    {
      assert visits[..k + 1] == visits[..k] + [visits[k]];
      match visits[k] {
        case DirectoryEntry(path) => writer.AddDirectory(path);
        case FileEntry(path, bytes) => buffer' := WriteFile(writer, path, bytes, buffer');
      }
      k := k + 1;
    }
    assert visits[..k] == visits;
  }

  /** The body of the loop over the sources. */
  method WriteSource(writer: ZipWriter, source: Source, buffer: seq<byte>) returns (buffer': seq<byte>)
    requires buffer == [] && !Nameless(source)
    modifies writer
    ensures buffer' == []
    ensures writer.entries == old(writer.entries) + Packed(source)
  {
    buffer' := buffer;
    if source.tree.Some? {
      var name := source.name.value;
      match source.tree.value {
        case Directory(_) =>
          writer.AddDirectory([name]);
          buffer' := WriteVisits(writer, Visits([name], source.tree.value), buffer');
        case File(bytes) =>
          buffer' := WriteFile(writer, [name], bytes, buffer');
      }
    }
  }

  /** What the first sources pack to. */
  ghost function Begun(sources: seq<Source>, k: nat): seq<Entry>
    requires k <= |sources|
  {
    Archive(sources[..k])
  }

  lemma BegunOne(sources: seq<Source>, k: nat)
    requires k < |sources|
    ensures Begun(sources, k + 1) == Begun(sources, k) + Packed(sources[k])
  {
    assert sources[..k + 1][..k] == sources[..k];
  }

  lemma BegunAll(sources: seq<Source>)
    ensures Begun(sources, 0) == [] && Begun(sources, |sources|) == Archive(sources)
  {
    assert sources[..|sources|] == sources;
  }

  /** The loop over the sources, with the writer and the shared buffer, which is
      empty whenever a source begins. */
  method PackSources(sources: seq<Source>) returns (archive: Option<seq<Entry>>)
    ensures archive.None? <==> exists i :: 0 <= i < |sources| && sources[i].tree.Some? && sources[i].name.None?
    ensures archive.Some? ==> archive.value == Archive(sources)
  {
    var buffer: seq<byte> := [];
    var writer := new ZipWriter();
    var i := 0;
    hide Archive, Begun, Packed;
    BegunAll(sources);
    while i < |sources|
      invariant i <= |sources|
      invariant fresh(writer)
      invariant buffer == []
      invariant writer.entries == Begun(sources, i)
      invariant forall k :: 0 <= k < i ==> sources[k].tree.None? || sources[k].name.Some?
    {
      BegunOne(sources, i);
      if Nameless(sources[i]) {
        return None;
      }
      buffer := WriteSource(writer, sources[i], buffer);
      i := i + 1;
    }
    return Some(writer.entries);
  }

  /** `zip_files`: an archive of what each source packs to, in order, unless a
      source that exists has no name or the destination has no parent. It ends up
      at the destination itself or, without overwriting, at the first name at
      which `exists` sees nothing. */
  method ZipFiles(sources: seq<Source>, dest: Paths.Path, overwrite: bool, existing: set<Paths.Path>)
    returns (archive: Option<seq<Entry>>, at: Paths.Path)
    ensures archive.None? <==>
              || dest.segments == []
              || exists i :: 0 <= i < |sources| && sources[i].tree.Some? && sources[i].name.None?
    ensures archive.Some? ==> archive.value == Archive(sources)
    ensures archive.Some? ==> at == if overwrite then dest else Naming.Resolved(dest, existing)
    ensures archive.Some? && !overwrite ==> at !in existing
  {
    at := dest;
    if dest.segments == [] {
      return None, at;
    }
    archive := PackSources(sources);
    if !overwrite {
      var free, _ := Naming.ResolvePathConflict(dest, existing);
      Naming.ResolvedIsLeastFree(dest, existing);
      at := free;
    }
  }

  // ---------------------------------------------------------------------
  // Unpacking
  // ---------------------------------------------------------------------

  type Disk = map<Inner, Node>

  /** A directory and what is above it, as `create_dir_all` leaves them. */
  ghost function MadeDirectories(path: Inner): Disk {
    map k | k in Prefixes(path) :: DirectoryNode
  }

  ghost function Prefixes(path: Inner): set<Inner> {
    set i | 0 < i <= |path| :: path[..i]
  }

  ghost predicate Blocked(disk: Disk, path: Inner) {
    exists i :: 0 < i <= |path| && path[..i] in disk && disk[path[..i]].FileNode?
  }

  /** Unpacks one entry, making the directories above it; fails where a file
      stands in the way. */
  ghost function Unpack1(disk: Disk, e: Entry): Option<Disk> {
    match e
    case DirectoryEntry(path) =>
      if Blocked(disk, path) then None else Some(disk + MadeDirectories(path))
    case FileEntry(path, bytes) =>
      if path == [] || Blocked(disk, path[..|path| - 1]) || (path in disk && disk[path].DirectoryNode?) then None
      else Some((disk + MadeDirectories(path[..|path| - 1]))[path := FileNode(bytes)])
  }

  ghost function Unpacked(disk: Disk, entries: seq<Entry>): Option<Disk> {
    if entries == [] then Some(disk) else
      var before := Unpacked(disk, entries[..|entries| - 1]);
      if before.None? then None else Unpack1(before.value, entries[|entries| - 1])
  }

  lemma {:induction false} UnpackedAppend(disk: Disk, a: seq<Entry>, b: seq<Entry>)
    ensures Unpacked(disk, a + b)
         == if Unpacked(disk, a).None? then None else Unpacked(Unpacked(disk, a).value, b)
  {
    if b == [] {
      assert a + b == a;
    } else {
      var b' := b[..|b| - 1];
      assert (a + b)[..|a + b| - 1] == a + b';
      UnpackedAppend(disk, a, b');
    }
  }

  /** Unpacking never turns a file into a directory or the other way round, nor
      takes anything away. */
  lemma {:induction false} UnpackingKeepsKinds(disk: Disk, entries: seq<Entry>, p: Inner)
    requires p in disk && Unpacked(disk, entries).Some?
    ensures p in Unpacked(disk, entries).value
    ensures Unpacked(disk, entries).value[p].FileNode? <==> disk[p].FileNode?
  {
    if entries != [] {
      var init := entries[..|entries| - 1];
      UnpackingKeepsKinds(disk, init, p);
      OneKeepsKinds(Unpacked(disk, init).value, entries[|entries| - 1], p);
      hide Unpack1;
    }
  }

  lemma OneKeepsKinds(disk: Disk, e: Entry, p: Inner)
    requires p in disk && Unpack1(disk, e).Some?
    ensures p in Unpack1(disk, e).value && (Unpack1(disk, e).value[p].FileNode? <==> disk[p].FileNode?)
  {
  }

  // ---------------------------------------------------------------------
  // Packing, then unpacking
  // ---------------------------------------------------------------------

  /** A tree as what stands at each path, with its root at `at`. */
  ghost function Flat(at: Inner, tree: Tree): Disk
    decreases tree, 0
  {
    match tree
    case File(bytes) => map[at := FileNode(bytes)]
    case Directory(children) => map[at := DirectoryNode] + FlatChildren(at, children)
  }

  ghost function FlatChildren(at: Inner, children: seq<Child>): Disk
    decreases children, |children|
  {
    if children == [] then map[] else
      FlatChildren(at, children[..|children| - 1])
      + Flat(at + [children[|children| - 1].name], children[|children| - 1].tree)
  }

  /** No directory has two children of the same name. */
  ghost predicate WellNamed(tree: Tree)
    decreases tree, 0
  {
    tree.Directory? ==> WellNamedChildren(tree.children)
  }

  ghost predicate WellNamedChildren(children: seq<Child>)
    decreases children, |children|
  {
    children != [] ==>
      && WellNamedChildren(children[..|children| - 1])
      && WellNamed(children[|children| - 1].tree)
      && forall i :: 0 <= i < |children| - 1 ==> children[i].name != children[|children| - 1].name
  }

  /** Every directory above `at` is there. */
  ghost predicate Reachable(disk: Disk, at: Inner) {
    forall i :: 0 < i < |at| ==> at[..i] in disk && disk[at[..i]] == DirectoryNode
  }

  lemma {:induction false} FlatIsBeneath(at: Inner, tree: Tree)
    ensures forall p :: p in Flat(at, tree) ==> at <= p
    ensures at in Flat(at, tree)
    ensures Flat(at, tree)[at] == if tree.File? then FileNode(tree.bytes) else DirectoryNode
    decreases tree, 0
  {
    if tree.Directory? {
      FlatChildrenAreBeneath(at, tree.children);
    }
  }

  lemma {:induction false} FlatChildrenAreBeneath(at: Inner, children: seq<Child>)
    ensures forall p :: p in FlatChildren(at, children) ==>
              |p| > |at| && at <= p && exists i :: 0 <= i < |children| && p[|at|] == children[i].name
    decreases children, |children|
  {
    if children != [] {
      var init, last := children[..|children| - 1], children[|children| - 1];
      FlatChildrenAreBeneath(at, init);
      FlatIsBeneath(at + [last.name], last.tree);
      forall p | p in FlatChildren(at, children)
        ensures |p| > |at| && at <= p && exists i :: 0 <= i < |children| && p[|at|] == children[i].name
      {
        if p in Flat(at + [last.name], last.tree) {
          assert p[|at|] == children[|children| - 1].name;
        } else {
          var i :| 0 <= i < |init| && p[|at|] == init[i].name;
          assert children[i] == init[i];
        }
      }
    }
  }

  /** Nothing stands at or below `at`, but for a directory at `at` itself
      where a directory is to come. */
  ghost predicate Clear(disk: Disk, at: Inner, directory: bool) {
    forall p :: p in disk && at <= p ==> p == at && disk[p] == DirectoryNode && directory
  }

  /** Unpacking the walk of a tree at a clear place adds exactly the tree. */
  lemma {:induction false} UnpackTree(disk: Disk, at: Inner, tree: Tree)
    requires at != [] && Reachable(disk, at) && WellNamed(tree) && Clear(disk, at, tree.Directory?)
    ensures Unpacked(disk, Visits(at, tree)) == Some(disk + Flat(at, tree))
    decreases tree, 0
  {
    match tree {
      case File(bytes) =>
        UnpackFile(disk, at, bytes);
      case Directory(children) =>
        UnpackOne(disk, DirectoryEntry(at));
        DirectoryUnpacks(disk, at);
        var made := disk + map[at := DirectoryNode];
        assert made == disk[at := DirectoryNode];
        hide Unpack1, Unpacked, Reachable;
        UnpackedAppend(disk, [DirectoryEntry(at)], ChildVisits(at, children));
        UnpackChildren(made, at, children);
        MergeInTurn(disk, map[at := DirectoryNode], FlatChildren(at, children));
    }
  }

  lemma UnpackFile(disk: Disk, at: Inner, bytes: seq<byte>)
    requires at != [] && Reachable(disk, at) && at !in disk
    ensures Unpacked(disk, Visits(at, File(bytes))) == Some(disk + Flat(at, File(bytes)))
  {
    UnpackOne(disk, FileEntry(at, bytes));
    FileUnpacks(disk, at, bytes);
    hide Unpacked, Unpack1, Reachable;
    assert disk + Flat(at, File(bytes)) == disk[at := FileNode(bytes)];
  }

  lemma UnpackOne(disk: Disk, e: Entry)
    ensures Unpacked(disk, [e]) == Unpack1(disk, e)
  {
    assert [e][..0] == [];
    assert Unpacked(disk, []) == Some(disk);
  }

  lemma FileUnpacks(disk: Disk, at: Inner, bytes: seq<byte>)
    requires at != [] && Reachable(disk, at) && at !in disk
    ensures Unpack1(disk, FileEntry(at, bytes)) == Some(disk[at := FileNode(bytes)])
  {
    var above := at[..|at| - 1];
    assert forall i :: 0 < i <= |above| ==> above[..i] == at[..i];
    assert disk + MadeDirectories(above) == disk;
  }

  lemma DirectoryUnpacks(disk: Disk, at: Inner)
    requires at != [] && Reachable(disk, at) && (at in disk ==> disk[at] == DirectoryNode)
    ensures Unpack1(disk, DirectoryEntry(at)) == Some(disk[at := DirectoryNode])
  {
    assert at[..|at|] == at;
    assert disk + MadeDirectories(at) == disk[at := DirectoryNode];
  }

  lemma MergeInTurn(a: Disk, b: Disk, c: Disk)
    ensures (a + b) + c == a + (b + c)
  {
  }

  lemma {:induction false} UnpackChildren(disk: Disk, at: Inner, children: seq<Child>)
    requires at in disk && disk[at] == DirectoryNode && Reachable(disk, at) && WellNamedChildren(children)
    requires Clear(disk, at, true)
    ensures Unpacked(disk, ChildVisits(at, children)) == Some(disk + FlatChildren(at, children))
    decreases children, |children|
  {
    if children == [] {
      assert disk + FlatChildren(at, children) == disk;
    } else {
      hide Unpacked, Unpack1, Visits, Flat, Reachable, Clear, WellNamed;
      var init, last := children[..|children| - 1], children[|children| - 1];
      var below := at + [last.name];
      var made := disk + FlatChildren(at, init);
      UnpackChildren(disk, at, init);
      UnpackedAppend(disk, ChildVisits(at, init), Visits(below, last.tree));
      LastChildIsClear(disk, at, children);
      UnpackTree(made, below, last.tree);
      MergeInTurn(disk, FlatChildren(at, init), Flat(below, last.tree));
    }
  }

  /** The place of the last child is reachable and clear once the others are
      unpacked. */
  lemma LastChildIsClear(disk: Disk, at: Inner, children: seq<Child>)
    requires at in disk && disk[at] == DirectoryNode && Reachable(disk, at)
    requires children != [] && WellNamedChildren(children) && Clear(disk, at, true)
    ensures var made := disk + FlatChildren(at, children[..|children| - 1]);
            var below := at + [children[|children| - 1].name];
            Reachable(made, below) && Clear(made, below, children[|children| - 1].tree.Directory?)
  {
    var init, last := children[..|children| - 1], children[|children| - 1];
    var made, below := disk + FlatChildren(at, init), at + [last.name];
    FlatChildrenAreBeneath(at, init);
    assert forall i :: 0 <= i < |init| ==> init[i].name != last.name;
    hide Flat, FlatChildren, WellNamed, WellNamedChildren;
    forall i | 0 < i < |below| ensures below[..i] in made && made[below[..i]] == DirectoryNode {
      PrefixAbove(at, last.name, i);
      assert below[..i] !in FlatChildren(at, init);
    }
    hide Reachable;
    forall p | p in made ensures !(below <= p) {
      NotBelow(p, at, last.name);
    }
  }

  lemma PrefixAbove(at: Inner, name: Name, i: nat)
    requires i <= |at|
    ensures (at + [name])[..i] == at[..i]
    ensures i == |at| ==> (at + [name])[..i] == at
  {
  }

  lemma NotBelow(p: Inner, at: Inner, name: Name)
    requires at <= p ==> p == at || p[|at|] != name
    ensures !(at + [name] <= p)
  {
  }
}
