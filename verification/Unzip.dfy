/** Unpacking an archive: where its entries go and under which names. What an
    entry holds is opaque here. The disk is two things: the paths at which
    something stands, and those at which `exists` sees something, which are fewer,
    for it follows links and does not see a dangling one. */
module Unzip {
  import opened Basics
  import opened Paths
  import opened Naming

  datatype UnzipOption = Normally | Smart | ToDirectoryWithFileName | ToDir(dest: Path)

  /** A top-level entry of the unpacked archive. */
  datatype Entry<T> = Entry(name: Name, isDirectory: bool, content: T)

  datatype Failure =
    | NoSuchFile | NoExtension | UnsupportedExtension | UnpackingFailed | NoDestination | MovingFailed

  datatype Outcome = Done(paths: set<Path>) | Refused(failure: Failure)

  /** What `exists` sees once these paths are placed. Placing one may mend a link
      elsewhere, so it is a function of all of them. */
  type Sight = set<Path> -> set<Path>

  /** It sees what was placed and still sees what it saw, and nothing that does
      not stand there. Neither speaks of what is inside a placed directory. */
  ghost predicate Honest(sees: Sight, standing: set<Path>) {
    forall placed :: sees({}) + placed <= sees(placed) <= standing + placed
  }

  /** A link to nowhere: it stands, and `exists` does not see it. */
  ghost predicate Dangling(p: Path, sees: Sight, standing: set<Path>) {
    p in standing && p !in sees({})
  }

  ghost predicate DistinctNames<T>(entries: seq<Entry<T>>) {
    forall i, j :: 0 <= i < j < |entries| ==> entries[i].name != entries[j].name
  }

  function Below1(dest: Path, name: Name): Path {
    Push(dest, Below(Normal(name)))
  }

  /** Where each entry goes: beside the ones before it, each under its own
      name or the first free number. */
  ghost function Targets<T>(dest: Path, entries: seq<Entry<T>>, sees: Sight): (targets: seq<Path>)
    ensures |targets| == |entries|
  {
    if entries == [] then [] else
      var before := Targets(dest, entries[..|entries| - 1], sees);
      before + [Resolved(Below1(dest, entries[|entries| - 1].name), sees(ToSet(before)))]
  }

  ghost function ToSet<T>(s: seq<T>): set<T> {
    set x | x in s
  }

  /** The directory that will receive the entries. */
  ghost function Destination(file: Path, option: UnzipOption, existing: set<Path>, count: nat): Path
    requires FileName(file).Some?
  {
    var parent := Pop(file);
    var own := Resolved(Below1(parent, Stem(FileName(file).value)), existing);
    match option
    case Normally => parent
    case Smart => if count > 1 then own else parent
    case ToDirectoryWithFileName => own
    case ToDir(dest) => dest
  }

  /** Of an archive `stem.ext` in a directory, that is the directory itself, or one
      named `stem`, numbered if `exists` sees one. */
  lemma DestinationIs(parent: Path, stem: Name, ext: Name, existing: set<Path>, count: nat)
    requires stem != "" && '.' !in ext
    ensures var file := Below1(parent, stem + "." + ext);
            var own := Resolved(Below1(parent, stem), existing);
            && FileName(file) == Some(stem + "." + ext)
            && Destination(file, Normally, existing, count) == parent
            && Destination(file, Smart, existing, count) == (if count > 1 then own else parent)
            && Destination(file, ToDirectoryWithFileName, existing, count) == own
            && forall dest :: Destination(file, ToDir(dest), existing, count) == dest
  {
    StemAndExtension(stem, ext);
    hide Stem, Resolved;
    assert Pop(Below1(parent, stem + "." + ext)) == parent;
  }

  predicate Supported(ext: Name) {
    ext == "gz" || ext == "tgz" || ext == "zip"
  }

  /** `placed` holds the contents of the entries at these targets. */
  ghost predicate PlacedAt<T>(placed: map<Path, T>, targets: seq<Path>, entries: seq<Entry<T>>) {
    && |targets| == |entries|
    && placed.Keys == ToSet(targets)
    && forall i :: 0 <= i < |entries| ==> placed[targets[i]] == entries[i].content
  }

  /** Renaming a file replaces a link, renaming a directory onto one fails. */
  ghost predicate Fails<T>(entry: Entry<T>, target: Path, standing: set<Path>) {
    entry.isDirectory && target in standing
  }

  /** The first entries were moved, and none of these moves failed. */
  ghost predicate MovedSoFar<T>(dest: Path, entries: seq<Entry<T>>, sees: Sight, standing: set<Path>,
                                placed: map<Path, T>, moved: nat)
  {
    var targets := Targets(dest, entries, sees);
    && moved <= |entries|
    && PlacedAt(placed, targets[..moved], entries[..moved])
    && forall i :: 0 <= i < moved ==> !Fails(entries[i], targets[i], standing)
  }

  /** The entries were moved up to the first whose move fails. */
  ghost predicate MovedOut<T>(dest: Path, entries: seq<Entry<T>>, sees: Sight, standing: set<Path>,
                              placed: map<Path, T>, moved: nat)
  {
    && MovedSoFar(dest, entries, sees, standing, placed, moved)
    && (moved < |entries| ==> Fails(entries[moved], Targets(dest, entries, sees)[moved], standing))
  }

  /** Moves the entries one by one out of the temporary directory. */
  method MoveEntries<T>(dest: Path, entries: seq<Entry<T>>, sees: Sight, standing: set<Path>)
    returns (placed: map<Path, T>, moved: nat)
    requires Honest(sees, standing)
    ensures MovedOut(dest, entries, sees, standing, placed, moved)
  {
    placed, moved := map[], 0;
    NothingMoved(dest, entries, sees, standing);
    hide Targets, Resolved, PlacedAt, MovedSoFar, Below1, Honest;
    while moved < |entries|
      invariant MovedSoFar(dest, entries, sees, standing, placed, moved)
    {
      var p, _ := ResolvePathConflict(Below1(dest, entries[moved].name), sees(placed.Keys));
      NextTarget(dest, entries, sees, standing, placed, moved);
      if entries[moved].isDirectory && p in standing {
        return;
      }
      placed := placed[p := entries[moved].content];
      moved := moved + 1;
    }
    AllMoved(dest, entries, sees, standing, placed);
  }

  lemma NothingMoved<T>(dest: Path, entries: seq<Entry<T>>, sees: Sight, standing: set<Path>)
    ensures MovedSoFar(dest, entries, sees, standing, map[], 0)
  {
  }

  lemma AllMoved<T>(dest: Path, entries: seq<Entry<T>>, sees: Sight, standing: set<Path>, placed: map<Path, T>)
    requires MovedSoFar(dest, entries, sees, standing, placed, |entries|)
    ensures MovedOut(dest, entries, sees, standing, placed, |entries|)
  {
  }

  /** Where the next entry goes is free, and moving it there is one entry more
      unless it fails. */
  lemma NextTarget<T>(dest: Path, entries: seq<Entry<T>>, sees: Sight, standing: set<Path>,
                      placed: map<Path, T>, moved: nat)
    requires Honest(sees, standing) && MovedSoFar(dest, entries, sees, standing, placed, moved)
    requires moved < |entries|
    ensures var p, e := Resolved(Below1(dest, entries[moved].name), sees(placed.Keys)), entries[moved];
            if e.isDirectory && p in standing then MovedOut(dest, entries, sees, standing, placed, moved)
            else MovedSoFar(dest, entries, sees, standing, placed[p := e.content], moved + 1)
  {
    hide Targets, Resolved, ToSet, Below1;
    var targets, e := Targets(dest, entries, sees), entries[moved];
    var p := Resolved(Below1(dest, e.name), sees(placed.Keys));
    TargetIs(dest, entries, sees, moved);
    if !(e.isDirectory && p in standing) {
      ResolvedIsLeastFree(Below1(dest, e.name), sees(placed.Keys));
      PlacedOneMore(placed, targets[..moved], entries[..moved], p, e);
      OneMore(targets, moved);
      OneMore(entries, moved);
    }
  }

  lemma OneMore<T>(s: seq<T>, n: nat)
    requires n < |s|
    ensures s[..n + 1] == s[..n] + [s[n]]
  {
  }

  /** A target depends only on the entries before it. */
  lemma {:induction false} TargetIs<T>(dest: Path, entries: seq<Entry<T>>, sees: Sight, i: nat)
    requires i < |entries|
    ensures var targets := Targets(dest, entries, sees);
            && targets[..i] == Targets(dest, entries[..i], sees)
            && targets[i] == Resolved(Below1(dest, entries[i].name), sees(ToSet(targets[..i])))
  {
    hide Resolved;
    var n := |entries| - 1;
    var before := Targets(dest, entries[..n], sees);
    if i == n {
      assert Targets(dest, entries, sees)[..i] == before;
    } else {
      TargetIs(dest, entries[..n], sees, i);
      assert entries[..n][..i] == entries[..i];
      assert Targets(dest, entries, sees)[..i] == before[..i];
    }
  }

  lemma PlacedOneMore<T>(placed: map<Path, T>, targets: seq<Path>, entries: seq<Entry<T>>, p: Path, e: Entry<T>)
    requires PlacedAt(placed, targets, entries) && p !in placed
    ensures PlacedAt(placed[p := e.content], targets + [p], entries + [e])
  {
    assert forall x :: x in ToSet(targets + [p]) <==> x in ToSet(targets) || x == p;
    assert forall i :: 0 <= i < |targets| ==> targets[i] in ToSet(targets);
  }

  /** The file exists and has an extension of an archive. */
  predicate Accepted(file: Path, existing: set<Path>) {
    && file in existing && FileName(file).Some? && Extension(FileName(file).value).Some?
    && Extension(FileName(file).value).value in {"gz", "tgz", "zip"}
  }

  /** `unzip_file`: what newly stands on the disk, and what is returned.
      `existing` is what `exists` sees at the start, `sees` and `standing` are the
      disk once the destination is made, if it can be. The archive is what it
      unpacks to, if it can be unpacked. */
  method UnzipFile<T>(file: Path, option: UnzipOption, existing: set<Path>, archive: Option<seq<Entry<T>>>,
                      made: bool, sees: Sight, standing: set<Path>)
    returns (outcome: Outcome, placed: map<Path, T>, moved: nat)
    requires Honest(sees, standing)
    ensures outcome == Refused(NoSuchFile) <==> file !in existing
    ensures outcome == Refused(NoExtension) <==>
              file in existing && (FileName(file).None? || Extension(FileName(file).value).None?)
    ensures outcome == Refused(UnsupportedExtension) <==>
              && file in existing && FileName(file).Some? && Extension(FileName(file).value).Some?
              && Extension(FileName(file).value).value !in {"gz", "tgz", "zip"}
    ensures outcome == Refused(UnpackingFailed) <==> Accepted(file, existing) && archive.None?
    ensures outcome == Refused(NoDestination) <==> Accepted(file, existing) && archive.Some? && !made
    ensures if Accepted(file, existing) && archive.Some? && made then
              var dest := Destination(file, option, existing, |archive.value|);
              && MovedOut(dest, archive.value, sees, standing, placed, moved)
              && outcome == (if moved == |archive.value| then Done(placed.Keys) else Refused(MovingFailed))
            else placed == map[]
  {
    placed, moved := map[], 0;
    if file !in existing {
      return Refused(NoSuchFile), placed, moved;
    }
    var name := FileName(file);
    if name.None? || Extension(name.value).None? {
      return Refused(NoExtension), placed, moved;
    }
    if !Supported(Extension(name.value).value) {
      return Refused(UnsupportedExtension), placed, moved;
    }
    var parent := Pop(file);
    var own, _ := ResolvePathConflict(Below1(parent, Stem(name.value)), existing);
    if archive.None? {
      return Refused(UnpackingFailed), placed, moved;
    }
    var entries := archive.value;
    var dest;
    match option {
      case Normally => dest := parent;
      case Smart => dest := if |entries| > 1 then own else parent;
      case ToDirectoryWithFileName => dest := own;
      case ToDir(d) => dest := d;
    }
    if !made {
      return Refused(NoDestination), placed, moved;
    }
    placed, moved := MoveEntries(dest, entries, sees, standing);
    outcome := if moved == |entries| then Done(placed.Keys) else Refused(MovingFailed);
  }

  // ---------------------------------------------------------------------
  // Fresh targets
  // ---------------------------------------------------------------------

  /** Paths of their own, beside each other in the destination, at which
      `exists` saw nothing. */
  ghost predicate FreshBeside(targets: seq<Path>, dest: Path, sees: Sight) {
    && (forall i :: 0 <= i < |targets| ==> targets[i] !in sees({}) && Pop(targets[i]) == dest)
    && (forall i, j :: 0 <= i < j < |targets| ==> targets[i] != targets[j])
  }

  /** Every entry gets such a path; if something stands there, it is a dangling
      link. */
  lemma {:induction false} TargetsFresh<T>(dest: Path, entries: seq<Entry<T>>, sees: Sight, standing: set<Path>)
    requires Honest(sees, standing)
    ensures FreshBeside(Targets(dest, entries, sees), dest, sees)
    ensures forall p :: p in Targets(dest, entries, sees) && p in standing ==> Dangling(p, sees, standing)
  {
    if entries != [] {
      var init := entries[..|entries| - 1];
      TargetsFresh(dest, init, sees, standing);
      var before := Targets(dest, init, sees);
      var p := Below1(dest, entries[|entries| - 1].name);
      ResolvedIsLeastFree(p, sees(ToSet(before)));
      assert Pop(p) == dest;
    }
  }

  /** Entries with distinct names, none of which stands in the destination,
      keep their names. */
  lemma {:induction false} TargetsWithoutConflict<T>(dest: Path, entries: seq<Entry<T>>, sees: Sight,
                                                     standing: set<Path>)
    requires Honest(sees, standing)
    requires DistinctNames(entries)
    requires forall i :: 0 <= i < |entries| ==> Below1(dest, entries[i].name) !in standing
    ensures forall i :: 0 <= i < |entries| ==> Targets(dest, entries, sees)[i] == Below1(dest, entries[i].name)
  {
    if entries != [] {
      var init, last := entries[..|entries| - 1], entries[|entries| - 1];
      TargetsWithoutConflict(dest, init, sees, standing);
      var before := Targets(dest, init, sees);
      forall k | 0 <= k < |init| ensures before[k] != Below1(dest, last.name) {
        NameFromPath(dest, init[k].name, last.name);
      }
      assert Below1(dest, last.name) !in standing + ToSet(before);
    }
  }

  lemma NameFromPath(dest: Path, a: Name, b: Name)
    requires a != b
    ensures Below1(dest, a) != Below1(dest, b)
  {
    assert Below1(dest, a).segments[|dest.segments|] == Normal(a);
    assert Below1(dest, b).segments[|dest.segments|] == Normal(b);
  }

  // ---------------------------------------------------------------------
  // Nothing replaced, nothing stuck
  // ---------------------------------------------------------------------

  /** No move fails and none replaces anything. */
  ghost predicate NothingInTheWay<T>(dest: Path, entries: seq<Entry<T>>, sees: Sight, standing: set<Path>) {
    forall i :: 0 <= i < |entries| ==> Targets(dest, entries, sees)[i] !in standing
  }

  ghost predicate NoDanglingLinkIn(dest: Path, sees: Sight, standing: set<Path>) {
    forall name :: !Dangling(Below1(dest, name), sees, standing)
  }

  /** Nothing is in the way of any archive exactly if no link in the destination
      is dangling. */
  lemma NothingInTheWayIff<T(!new)>(dest: Path, sees: Sight, standing: set<Path>, content: T)
    requires Honest(sees, standing)
    ensures NoDanglingLinkIn(dest, sees, standing)
            <==> forall entries: seq<Entry<T>> :: NothingInTheWay(dest, entries, sees, standing)
  {
    if NoDanglingLinkIn(dest, sees, standing) {
      forall entries: seq<Entry<T>> ensures NothingInTheWay(dest, entries, sees, standing) {
        NoLinkInTheWay(dest, entries, sees, standing);
      }
    } else {
      var name :| Dangling(Below1(dest, name), sees, standing);
      LinkInTheWay(dest, Entry(name, false, content), sees, standing);
      assert !NothingInTheWay(dest, [Entry(name, false, content)], sees, standing);
    }
  }

  lemma NoLinkInTheWay<T>(dest: Path, entries: seq<Entry<T>>, sees: Sight, standing: set<Path>)
    requires Honest(sees, standing) && NoDanglingLinkIn(dest, sees, standing)
    ensures NothingInTheWay(dest, entries, sees, standing)
  {
    TargetsFresh(dest, entries, sees, standing);
    forall i | 0 <= i < |entries| ensures Targets(dest, entries, sees)[i] !in standing {
      TargetIs(dest, entries, sees, i);
      hide Targets, Dangling;
      var p := Targets(dest, entries, sees)[i];
      assert p in Targets(dest, entries, sees);
      ResolvedHasName(dest, entries[i].name, sees(ToSet(Targets(dest, entries, sees)[..i])));
    }
  }

  lemma ResolvedHasName(dest: Path, name: Name, taken: set<Path>)
    ensures exists other :: Resolved(Below1(dest, name), taken) == Below1(dest, other)
  {
    var p := Below1(dest, name);
    if p in taken {
      var k := FirstFree(p, taken, 1);
      assert Candidate(p, k) == Below1(dest, Numbered(FileName(p), k));
    }
  }

  /** A file takes the place of a dangling link of its name, and a directory is
      stuck there. */
  lemma LinkInTheWay<T>(dest: Path, entry: Entry<T>, sees: Sight, standing: set<Path>)
    requires Honest(sees, standing) && Dangling(Below1(dest, entry.name), sees, standing)
    ensures Targets(dest, [entry], sees) == [Below1(dest, entry.name)]
    ensures !NothingInTheWay(dest, [entry], sees, standing)
    ensures Fails(entry, Targets(dest, [entry], sees)[0], standing) <==> entry.isDirectory
  {
    assert [entry][..0] == [];
    assert Targets<T>(dest, [], sees) == [];
    assert ToSet<Path>([]) == {};
    assert Targets(dest, [entry], sees)[0] == Below1(dest, entry.name);
  }

  /** A directory that holds only a link `a.txt` to a missing file, and an archive
      with a file of that name: the link is replaced. */
  lemma LinkReplacedAtAnExample<T>(content: T)
    ensures var dest := Path(true, [Normal("d")]);
            var p, entry := Below1(dest, "a.txt"), Entry("a.txt", false, content);
            var sees: Sight := placed => placed;
            && Honest(sees, {p}) && Dangling(p, sees, {p})
            && MovedOut(dest, [entry], sees, {p}, map[p := content], 1)
  {
    var dest := Path(true, [Normal("d")]);
    var p, entry := Below1(dest, "a.txt"), Entry("a.txt", false, content);
    var sees: Sight := placed => placed;
    LinkInTheWay(dest, entry, sees, {p});
    assert Targets(dest, [entry], sees)[..1] == [p];
    assert [entry][..1] == [entry];
    assert ToSet([p]) == {p};
  }

  // ---------------------------------------------------------------------
  // Conservation
  // ---------------------------------------------------------------------

  /** The paths at which this content was placed. */
  ghost function Holding<T>(placed: map<Path, T>, content: T): set<Path> {
    set p | p in placed && placed[p] == content
  }

  ghost function ContentsOf<T>(entries: seq<Entry<T>>): seq<T> {
    seq(|entries|, i requires 0 <= i < |entries| => entries[i].content)
  }

  /** Moving loses none of the moved entries and doubles none: every content
      stands at as many paths as they have it, in the destination, at which
      `exists` saw nothing. All that is replaced is dangling links, and all
      entries are moved if there are none in the way. */
  lemma UnzipConserves<T>(dest: Path, entries: seq<Entry<T>>, sees: Sight, standing: set<Path>,
                          placed: map<Path, T>, moved: nat)
    requires Honest(sees, standing) && MovedOut(dest, entries, sees, standing, placed, moved)
    ensures |placed| == moved
    ensures forall p :: p in placed ==> p !in sees({}) && Pop(p) == dest
    ensures forall p :: p in placed && p in standing ==> Dangling(p, sees, standing)
    ensures forall content :: |Holding(placed, content)| == multiset(ContentsOf(entries[..moved]))[content]
    ensures NothingInTheWay(dest, entries, sees, standing) ==> moved == |entries| && placed.Keys !! standing
  {
    var targets := Targets(dest, entries, sees);
    TargetsFresh(dest, entries, sees, standing);
    hide Targets;
    DistinctSize(targets[..moved]);
    assert |placed| == |placed.Keys|;
    assert forall p :: p in placed ==> p in targets[..moved];
    forall content
      ensures |Holding(placed, content)| == multiset(ContentsOf(entries[..moved]))[content]
    {
      HoldingCount(placed, targets[..moved], entries[..moved], content);
    }
  }

  lemma {:induction false} HoldingCount<T>(placed: map<Path, T>, targets: seq<Path>, entries: seq<Entry<T>>, content: T)
    requires PlacedAt(placed, targets, entries)
    requires forall i, j :: 0 <= i < j < |targets| ==> targets[i] != targets[j]
    ensures |Holding(placed, content)| == multiset(ContentsOf(entries))[content]
  {
    if entries == [] {
      assert Holding(placed, content) == {};
    } else {
      var n := |entries| - 1;
      var before := placed - {targets[n]};
      PlacedOneLess(placed, targets, entries);
      ContentsOneMore(entries, content);
      hide PlacedAt, Holding, ContentsOf;
      HoldingCount(before, targets[..n], entries[..n], content);
      HoldingOneMore(placed, targets[n], content);
    }
  }

  lemma ContentsOneMore<T>(entries: seq<Entry<T>>, content: T)
    requires entries != []
    ensures var n := |entries| - 1;
            multiset(ContentsOf(entries))[content]
            == multiset(ContentsOf(entries[..n]))[content] + if entries[n].content == content then 1 else 0
  {
    var n := |entries| - 1;
    assert ContentsOf(entries) == ContentsOf(entries[..n]) + [entries[n].content];
  }

  lemma PlacedOneLess<T>(placed: map<Path, T>, targets: seq<Path>, entries: seq<Entry<T>>)
    requires PlacedAt(placed, targets, entries) && entries != []
    requires forall i, j :: 0 <= i < j < |targets| ==> targets[i] != targets[j]
    ensures var n := |entries| - 1;
            && targets[n] in placed && placed[targets[n]] == entries[n].content
            && PlacedAt(placed - {targets[n]}, targets[..n], entries[..n])
  {
    hide ToSet;
    var n := |entries| - 1;
    LastLeaves(targets);
    assert forall i :: 0 <= i < n ==> targets[..n][i] == targets[i] && entries[..n][i] == entries[i];
  }

  lemma LastLeaves<T>(s: seq<T>)
    requires s != [] && forall i, j :: 0 <= i < j < |s| ==> s[i] != s[j]
    ensures var n := |s| - 1;
            && ToSet(s) == ToSet(s[..n]) + {s[n]} && s[n] !in ToSet(s[..n])
            && forall i :: 0 <= i < |s| ==> s[i] in ToSet(s)
  {
    var n := |s| - 1;
    assert s == s[..n] + [s[n]];
  }

  lemma HoldingOneMore<T>(placed: map<Path, T>, p: Path, content: T)
    requires p in placed
    ensures |Holding(placed, content)|
         == |Holding(placed - {p}, content)| + if placed[p] == content then 1 else 0
  {
    if placed[p] == content {
      assert Holding(placed, content) == Holding(placed - {p}, content) + {p};
    } else {
      assert Holding(placed, content) == Holding(placed - {p}, content);
    }
  }

  lemma {:induction false} DistinctSize<T>(s: seq<T>)
    requires forall i, j :: 0 <= i < j < |s| ==> s[i] != s[j]
    ensures |ToSet(s)| == |s|
  {
    if s == [] {
      assert ToSet(s) == {};
    } else {
      var init, last := s[..|s| - 1], s[|s| - 1];
      DistinctSize(init);
      assert ToSet(s) == ToSet(init) + {last};
    }
  }
}
