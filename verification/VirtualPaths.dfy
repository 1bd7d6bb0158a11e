/** Paths into the mounts of a container, named by the last component of the
    mounted directory. */
module VirtualPaths {
  import opened Basics
  import opened Paths

  /** An absolute directory, as the names below the file-system root. */
  type Root = seq<Name>

  /** Where a virtual path leads: the absolute path, the root it is in, and the
      name of the mount. */
  datatype Target = Target(path: Root, root: Root, mount: Name)

  /** `Path::ends_with` for one component. */
  predicate EndsWith(root: Root, name: Name) {
    root != [] && root[|root| - 1] == name
  }

  /** The first root that ends with the name, or the number of roots. */
  function FindRoot(roots: seq<Root>, mount: Name): (i: nat)
    ensures i <= |roots|
    ensures i < |roots| ==> EndsWith(roots[i], mount)
    ensures forall j :: 0 <= j < i ==> !EndsWith(roots[j], mount)
  {
    if roots == [] || EndsWith(roots[0], mount) then 0 else 1 + FindRoot(roots[1..], mount)
  }

  /** `get_virtual_path`; joining to `/` first keeps `..` from climbing out. */
  function GetVirtualPath(roots: seq<Root>, p: Path): Option<Target> {
    var safe := Walk([], p.segments);
    if safe == [] then None
    else
      var i := FindRoot(roots, safe[0]);
      if i == |roots| then None else Some(Target(roots[i] + safe[1..], roots[i], safe[0]))
  }

  /** `to_virtual_path`. */
  function ToVirtualPath(path: Root, root: Root, mount: Name): Option<Path> {
    if root <= path then Some(Path(false, Plain([mount] + path[|root|..]))) else None
  }

  /** A path leads nowhere exactly if nothing is left of it once it is
      normalised, or its first name then names no root. So a path with `..` in it
      may well lead somewhere. */
  lemma NoneExactly(roots: seq<Root>, p: Path)
    ensures var plain := Normalized(p.(absolute := false)).segments;
            GetVirtualPath(roots, p).None? <==>
              plain == [] || forall root :: root in roots && root != [] ==> plain[0] != Normal(root[|root| - 1])
    ensures IsPlain(Normalized(p.(absolute := false)))
  {
    hide Walk;
    var safe := Walk([], p.segments);
    assert safe != [] ==> Plain(safe)[0] == Normal(safe[0]);
  }

  lemma WalkOne(names: seq<Name>, step: Segment)
    ensures Walk(names, [step])
         == match step
            case CurDir => names
            case ParentDir => if names == [] then [] else names[..|names| - 1]
            case Normal(name) => names + [name]
  {
    assert [step][1..] == [];
  }

  lemma UpAndDown(a: Name, b: Name)
    ensures Walk([], [Normal(a), ParentDir]) == []
    ensures Walk([], [Normal(a), ParentDir, Normal(b)]) == [b]
  {
    hide Walk;
    WalkOne([], Normal(a));
    assert [] + [a] == [a] && [a][..0] == [];
    WalkOne([a], ParentDir);
    WalkOne([], Normal(b));
    WalkAppend([], [Normal(a)], [ParentDir]);
    assert [Normal(a)] + [ParentDir] == [Normal(a), ParentDir];
    WalkAppend([], [Normal(a), ParentDir], [Normal(b)]);
    assert [Normal(a), ParentDir] + [Normal(b)] == [Normal(a), ParentDir, Normal(b)];
    assert [] + [b] == [b];
  }

  /** With one root, going up once and down to its name leads to the root, and
      going up from its name leads nowhere. */
  lemma GoingUp(root: Root, name: Name, mount: Name)
    requires EndsWith(root, mount)
    ensures GetVirtualPath([root], Path(false, [Normal(name), ParentDir, Normal(mount)]))
         == Some(Target(root, root, mount))
    ensures GetVirtualPath([root], Path(false, [Normal(name), ParentDir])) == None
  {
    UpAndDown(name, mount);
    assert FindRoot([root], mount) == 0;
    hide Walk, FindRoot, EndsWith;
    assert [mount][1..] == [] && root + [] == root;
  }

  lemma GoingUpAtAnExample()
    ensures GetVirtualPath([["srv", "mount"]], Path(false, [Normal("x"), ParentDir, Normal("mount")]))
         == Some(Target(["srv", "mount"], ["srv", "mount"], "mount"))
  {
    assert EndsWith(["srv", "mount"], "mount");
    hide GetVirtualPath, EndsWith;
    GoingUp(["srv", "mount"], "x", "mount");
  }

  /** Mapping the result back gives the path that was asked for, lexically
      normalised, and so a normalised relative path itself. */
  lemma BackToTheRequest(roots: seq<Root>, p: Path)
    requires GetVirtualPath(roots, p).Some?
    ensures var t := GetVirtualPath(roots, p).value;
            ToVirtualPath(t.path, t.root, t.mount) == Some(Normalized(p.(absolute := false)))
    ensures IsPlain(p) && !p.absolute ==> Normalized(p.(absolute := false)) == p
  {
    var safe := Walk([], p.segments);
    var t := GetVirtualPath(roots, p).value;
    assert t.path[|t.root|..] == safe[1..];
    assert [safe[0]] + safe[1..] == safe;
    if IsPlain(p) {
      PlainIsNormal(p.(absolute := false));
    }
  }

  /** A path of plain names resolves in the first root its head names. */
  lemma PlainResolves(roots: seq<Root>, names: seq<Name>)
    requires names != []
    ensures var i := FindRoot(roots, names[0]);
            GetVirtualPath(roots, Path(false, Plain(names)))
            == if i == |roots| then None else Some(Target(roots[i] + names[1..], roots[i], names[0]))
  {
    WalkPlain([], names);
    assert [] + names == names;
  }

  /** Whatever stands below the result has a virtual path that leads back to it
      in the same root, also when several roots end with the same name. */
  lemma BelowLeadsBack(roots: seq<Root>, p: Path, below: seq<Name>)
    requires GetVirtualPath(roots, p).Some?
    ensures var t := GetVirtualPath(roots, p).value;
            var v := ToVirtualPath(t.path + below, t.root, t.mount);
            v.Some? && GetVirtualPath(roots, v.value) == Some(t.(path := t.path + below))
  {
    hide Walk, FindRoot;
    var t := GetVirtualPath(roots, p).value;
    var rest := (t.path + below)[|t.root|..];
    assert t.root + rest == t.path + below;
    assert t.root <= t.path + below;
    PlainResolves(roots, [t.mount] + rest);
    assert ([t.mount] + rest)[1..] == rest;
  }

  /** A directory under a root is reachable by some virtual path exactly if no
      earlier root ends with the same name. */
  lemma ReachableExactly(roots: seq<Root>, i: nat, below: seq<Name>)
    requires i < |roots| && roots[i] != []
    requires forall j :: 0 <= j < |roots| && roots[j] == roots[i] ==> j >= i
    ensures (exists p :: GetVirtualPath(roots, p).Some? && GetVirtualPath(roots, p).value.root == roots[i]
               && GetVirtualPath(roots, p).value.path == roots[i] + below)
            <==> forall j :: 0 <= j < i && roots[j] != [] ==> roots[j][|roots[j]| - 1] != roots[i][|roots[i]| - 1]
  {
    var mount := roots[i][|roots[i]| - 1];
    var names := [mount] + below;
    var p := Path(false, Plain(names));
    PlainResolves(roots, names);
    assert names[1..] == below;
    if forall j :: 0 <= j < i ==> !EndsWith(roots[j], mount) {
      assert FindRoot(roots, mount) == i;
      assert GetVirtualPath(roots, p) == Some(Target(roots[i] + below, roots[i], mount));
    }
  }
}
