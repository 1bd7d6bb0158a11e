/** The paths a macro may name, over a file tree with symbolic links. */
module ScopedPaths {
  import opened Paths

  /** A place in the tree: the names from the root down, through no link. */
  type Location = seq<Name>

  datatype Node = Directory | File | Link(target: Path)

  type FileTree = map<Location, Node>

  /** Every node but the root stands in a directory. */
  ghost predicate IsTree(fs: FileTree) {
    && [] in fs && fs[[]].Directory?
    && forall l: Location, name: Name :: l + [name] in fs ==> l in fs && fs[l].Directory?
  }

  /** How many links the system follows before it gives up. */
  const MAX_LINKS: nat := 40

  datatype Outcome =
    | Reached(at: Location, linksLeft: nat)
    | Missing
    | Failed   // not a directory, or too many links

  function PathTo(l: Location): Path {
    Path(true, Plain(l))
  }

  /** `realpath`: takes the segments one by one from `base`, going on with the
      target whenever a name is a link. */
  function Resolve(fs: FileTree, base: Location, todo: seq<Segment>, links: nat): Outcome
    decreases links, |todo|
  {
    if todo == [] then Reached(base, links)
    else if base !in fs || !fs[base].Directory? then Failed
    else
      match todo[0]
      case CurDir => Resolve(fs, base, todo[1..], links)
      case ParentDir => Resolve(fs, if base == [] then [] else base[..|base| - 1], todo[1..], links)
      case Normal(name) =>
        var l := base + [name];
        if l !in fs then Missing
        else if !fs[l].Link? then Resolve(fs, l, todo[1..], links)
        else if links == 0 then Failed
        else Resolve(fs, if fs[l].target.absolute then [] else base, fs[l].target.segments + todo[1..], links - 1)
  }

  /** `std::fs::canonicalize`. */
  function Canonicalize(fs: FileTree, cwd: Location, p: Path): Outcome {
    if p == EMPTY_PATH then Missing
    else Resolve(fs, if p.absolute then [] else cwd, p.segments, MAX_LINKS)
  }

  datatype Result = Ok(path: Path) | Err(missing: bool)

  /** The canonical form of the longest existing ancestor, then the rest. */
  function CanonicalMaybe(fs: FileTree, cwd: Location, p: Path): Result
    decreases |p.segments|
  {
    match Canonicalize(fs, cwd, p)
    case Reached(at, _) => Ok(PathTo(at))
    case Failed => Err(false)
    case Missing =>
      if p.segments != [] && p.segments[|p.segments| - 1].Normal? then
        var parent := CanonicalMaybe(fs, cwd, Pop(p));
        if parent.Ok? then Ok(Push(parent.path, Below(p.segments[|p.segments| - 1]))) else parent
      else Err(true)
  }

  function Reversed(names: seq<Name>): (r: seq<Name>)
    ensures |r| == |names|
  {
    seq(|names|, i requires 0 <= i < |names| => names[|names| - 1 - i])
  }

  /** The names stripped so far, put back in order. */
  function Extended(result: Result, rest: seq<Name>): Result {
    if result.Ok? then Ok(result.path.(segments := result.path.segments + Plain(Reversed(rest)))) else result
  }

  lemma ExtendedByOne(parent: Result, rest: seq<Name>, name: Name)
    ensures Extended(if parent.Ok? then Ok(Push(parent.path, Below(Normal(name)))) else parent, rest)
         == Extended(parent, rest + [name])
  {
    assert Plain(Reversed(rest + [name])) == [Normal(name)] + Plain(Reversed(rest));
  }

  /** `canonicalize_maybe_not_exists`, with its two loops. */
  method CanonicalizeMaybeNotExists(fs: FileTree, cwd: Location, p: Path) returns (result: Result)
    ensures result == CanonicalMaybe(fs, cwd, p)
  {
    var existing := p;
    var rest: seq<Name> := [];
    while true
      invariant CanonicalMaybe(fs, cwd, p) == Extended(CanonicalMaybe(fs, cwd, existing), rest)
      decreases |existing.segments|
    {
      match Canonicalize(fs, cwd, existing) {
        case Reached(at, _) =>
          var c := PathTo(at);
          var k := |rest|;
          while k > 0
            invariant 0 <= k <= |rest|
            invariant c == Path(true, Plain(at) + Plain(Reversed(rest))[..|rest| - k])
          {
            k := k - 1;
            c := Push(c, Below(Normal(rest[k])));
          }
          assert Plain(Reversed(rest))[..|rest|] == Plain(Reversed(rest));
          return Ok(c);
        case Missing =>
          var n := |existing.segments|;
          if n > 0 && existing.segments[n - 1].Normal? {
            var name := existing.segments[n - 1].name;
            ExtendedByOne(CanonicalMaybe(fs, cwd, Pop(existing)), rest, name);
            rest := rest + [name];
            existing := Pop(existing);
          } else {
            return Err(true);
          }
        case Failed =>
          return Err(false);
      }
    }
  }

  /** `ScopedParser::scoped`. */
  function Scoped(fs: FileTree, cwd: Location, root: Path, p: Path): Result {
    var abs := Normalized(if p.absolute then p else Join(root, p));
    var canon := CanonicalMaybe(fs, cwd, abs);
    if canon.Err? then canon
    else if StartsWith(canon.path, root) then Ok(abs) else canon
  }

  // ---------------------------------------------------------------------
  // Resolving
  // ---------------------------------------------------------------------

  /** Resolving stops at a node that exists and is no link. */
  lemma {:induction false} ResolveIsSolid(fs: FileTree, base: Location, todo: seq<Segment>, links: nat)
    requires IsTree(fs) && base in fs && !fs[base].Link?
    ensures var r := Resolve(fs, base, todo, links);
            r.Reached? ==> r.at in fs && !fs[r.at].Link? && r.linksLeft <= links
    decreases links, |todo|
  {
    if todo != [] && fs[base].Directory? {
      match todo[0] {
        case CurDir => ResolveIsSolid(fs, base, todo[1..], links);
        case ParentDir =>
          assert base != [] ==> base == base[..|base| - 1] + [base[|base| - 1]];
          ResolveIsSolid(fs, if base == [] then [] else base[..|base| - 1], todo[1..], links);
        case Normal(name) =>
          var l := base + [name];
          if l in fs && !fs[l].Link? {
            ResolveIsSolid(fs, l, todo[1..], links);
          } else if l in fs && links > 0 {
            ResolveIsSolid(fs, if fs[l].target.absolute then [] else base,
                           fs[l].target.segments + todo[1..], links - 1);
          }
      }
    }
  }

  /** Resolving in two stretches. */
  lemma {:induction false} ResolveAppend(fs: FileTree, base: Location, a: seq<Segment>, b: seq<Segment>, links: nat)
    ensures Resolve(fs, base, a + b, links)
         == var first := Resolve(fs, base, a, links);
            if first.Reached? then Resolve(fs, first.at, b, first.linksLeft) else first
    decreases links, |a|
  {
    if a == [] {
      assert a + b == b;
    } else {
      assert (a + b)[0] == a[0] && (a + b)[1..] == a[1..] + b;
      match a[0] {
        case CurDir => ResolveAppend(fs, base, a[1..], b, links);
        case ParentDir => ResolveAppend(fs, if base == [] then [] else base[..|base| - 1], a[1..], b, links);
        case Normal(name) =>
          var l := base + [name];
          if l in fs && !fs[l].Link? {
            ResolveAppend(fs, l, a[1..], b, links);
          } else if l in fs && links > 0 {
            var target := fs[l].target;
            assert target.segments + (a[1..] + b) == (target.segments + a[1..]) + b;
            ResolveAppend(fs, if target.absolute then [] else base, target.segments + a[1..], b, links - 1);
          }
      }
    }
  }

  /** More links to spend change nothing unless resolving failed. */
  lemma {:induction false} ResolveWithMore(fs: FileTree, base: Location, todo: seq<Segment>, links: nat, more: nat)
    ensures var r := Resolve(fs, base, todo, links);
            match r
            case Reached(at, left) => Resolve(fs, base, todo, links + more) == Reached(at, left + more)
            case Missing => Resolve(fs, base, todo, links + more) == Missing
            case Failed => true
    decreases links, |todo|
  {
    if todo != [] && base in fs && fs[base].Directory? {
      match todo[0] {
        case CurDir => ResolveWithMore(fs, base, todo[1..], links, more);
        case ParentDir => ResolveWithMore(fs, if base == [] then [] else base[..|base| - 1], todo[1..], links, more);
        case Normal(name) =>
          var l := base + [name];
          if l in fs && !fs[l].Link? {
            ResolveWithMore(fs, l, todo[1..], links, more);
          } else if l in fs && links > 0 {
            ResolveWithMore(fs, if fs[l].target.absolute then [] else base,
                            fs[l].target.segments + todo[1..], links - 1, more);
          }
      }
    }
  }

  /** A solid place resolves to itself without following any link. */
  lemma {:induction false} SolidResolvesToItself(fs: FileTree, l: Location, links: nat)
    requires IsTree(fs) && l in fs && !fs[l].Link?
    ensures Resolve(fs, [], Plain(l), links) == Reached(l, links)
  {
    if l != [] {
      var init, last := l[..|l| - 1], Normal(l[|l| - 1]);
      assert l == init + [last.name];
      assert init in fs && fs[init].Directory?;
      SolidResolvesToItself(fs, init, links);
      hide Resolve, IsTree;
      ResolveAppend(fs, [], Plain(init), [last], links);
      assert Plain(l) == Plain(init) + [last];
      ResolveOne(fs, init, last.name, links);
    }
  }

  lemma ResolveOne(fs: FileTree, at: Location, name: Name, links: nat)
    requires at in fs && fs[at].Directory? && at + [name] in fs && !fs[at + [name]].Link?
    ensures Resolve(fs, at, [Normal(name)], links) == Reached(at + [name], links)
  {
  }

  // ---------------------------------------------------------------------
  // Canonical forms
  // ---------------------------------------------------------------------

  /** The canonical form of a path reaches what the path reaches. */
  lemma {:induction false} CanonicalReachesSame(fs: FileTree, cwd: Location, p: Path)
    requires IsTree(fs) && cwd in fs && fs[cwd].Directory?
    requires CanonicalMaybe(fs, cwd, p).Ok?
    ensures SameButCanonical(fs, cwd, p, CanonicalMaybe(fs, cwd, p).path)
    decreases |p.segments|
  {
    hide Resolve, IsTree, SameButCanonical;
    match Canonicalize(fs, cwd, p) {
      case Reached(_, _) => ReachedIsCanonical(fs, cwd, p);
      case Missing =>
        CanonicalReachesSame(fs, cwd, Pop(p));
        MissingIsCanonical(fs, cwd, p, CanonicalMaybe(fs, cwd, Pop(p)).path);
    }
  }

  lemma ReachedIsCanonical(fs: FileTree, cwd: Location, p: Path)
    requires IsTree(fs) && cwd in fs && fs[cwd].Directory? && Canonicalize(fs, cwd, p).Reached?
    ensures SameButCanonical(fs, cwd, p, PathTo(Canonicalize(fs, cwd, p).at))
  {
    var at := Canonicalize(fs, cwd, p).at;
    ResolveIsSolid(fs, if p.absolute then [] else cwd, p.segments, MAX_LINKS);
    SolidResolvesToItself(fs, at, MAX_LINKS);
  }

  lemma MissingIsCanonical(fs: FileTree, cwd: Location, p: Path, cq: Path)
    requires IsTree(fs) && cwd in fs && fs[cwd].Directory? && Canonicalize(fs, cwd, p).Missing?
    requires p.segments != [] && p.segments[|p.segments| - 1].Normal? && Pop(p) != EMPTY_PATH
    requires SameButCanonical(fs, cwd, Pop(p), cq)
    ensures SameButCanonical(fs, cwd, p, Push(cq, Below(p.segments[|p.segments| - 1])))
  {
    hide Resolve, IsTree;
    var last := p.segments[|p.segments| - 1];
    PushMissing(fs, cwd, p, cq);
    PushKeepsCanonical(fs, cwd, cq, last);
  }

  lemma PushMissing(fs: FileTree, cwd: Location, p: Path, cq: Path)
    requires IsTree(fs) && cwd in fs && fs[cwd].Directory? && Canonicalize(fs, cwd, p).Missing?
    requires p.segments != [] && Pop(p) != EMPTY_PATH && SameButCanonical(fs, cwd, Pop(p), cq)
    ensures Canonicalize(fs, cwd, Push(cq, Below(p.segments[|p.segments| - 1]))) == Missing
  {
    var base := if p.absolute then [] else cwd;
    assert base in fs && fs[base].Directory?;
    assert p.segments == Pop(p).segments + [p.segments[|p.segments| - 1]];
    hide Resolve, IsTree, CanonicalMaybe;
    LastNameMissing(fs, base, Pop(p).segments, cq.segments, p.segments[|p.segments| - 1]);
  }

  lemma PushKeepsCanonical(fs: FileTree, cwd: Location, cq: Path, last: Segment)
    requires IsPlain(cq) && last.Normal? && CanonicalMaybe(fs, cwd, cq) == Ok(cq)
    requires Canonicalize(fs, cwd, Push(cq, Below(last))) == Missing
    ensures CanonicalMaybe(fs, cwd, Push(cq, Below(last))) == Ok(Push(cq, Below(last)))
    ensures IsPlain(Push(cq, Below(last)))
  {
    hide Canonicalize;
    assert Pop(Push(cq, Below(last))) == cq;
  }

  /** `c` is a plain absolute path, its own canonical form, and reaches what
      `p` reaches, or is missing as `p` is. */
  ghost predicate SameButCanonical(fs: FileTree, cwd: Location, p: Path, c: Path) {
    && c.absolute && IsPlain(c)
    && CanonicalMaybe(fs, cwd, c) == Ok(c)
    && match Canonicalize(fs, cwd, p)
       case Reached(at, _) => c == PathTo(at) && Canonicalize(fs, cwd, c) == Reached(at, MAX_LINKS)
       case Missing => Canonicalize(fs, cwd, c) == Missing
       case Failed => false
  }

  /** If a name is missing after some segments, it is missing after any other
      segments that reach the same place with no link followed. */
  lemma LastNameMissing(fs: FileTree, base: Location, a: seq<Segment>, b: seq<Segment>, last: Segment)
    requires IsTree(fs) && base in fs && fs[base].Directory?
    requires Resolve(fs, base, a + [last], MAX_LINKS) == Missing
    requires var r := Resolve(fs, base, a, MAX_LINKS);
             Resolve(fs, [], b, MAX_LINKS) == if r.Reached? then Reached(r.at, MAX_LINKS) else r
    ensures Resolve(fs, [], b + [last], MAX_LINKS) == Missing
  {
    hide Resolve, IsTree;
    ResolveAppend(fs, base, a, [last], MAX_LINKS);
    ResolveAppend(fs, [], b, [last], MAX_LINKS);
    var reached := Resolve(fs, base, a, MAX_LINKS);
    if reached.Reached? {
      ResolveIsSolid(fs, base, a, MAX_LINKS);
      ResolveWithMore(fs, reached.at, [last], reached.linksLeft, MAX_LINKS - reached.linksLeft);
    }
  }

  function Front(p: Path, k: nat): Path
    requires k <= |p.segments|
  {
    Path(p.absolute, p.segments[..k])
  }

  /** Its first `j` segments lead nowhere yet, and the last of them is a name. */
  ghost predicate IsMissingName(fs: FileTree, cwd: Location, p: Path, j: nat)
    requires j <= |p.segments|
  {
    Canonicalize(fs, cwd, Front(p, j)).Missing? && j > 0 && p.segments[j - 1].Normal?
  }

  /** The first `k` segments are the longest part with a verdict of its own: all
      longer ones end with a missing name. */
  ghost predicate IsSettled(fs: FileTree, cwd: Location, p: Path, k: nat) {
    && k <= |p.segments|
    && (forall j :: k < j <= |p.segments| ==> IsMissingName(fs, cwd, p, j))
    && !IsMissingName(fs, cwd, p, k)
  }

  lemma SettledAbove(fs: FileTree, cwd: Location, p: Path, k: nat)
    requires IsSettled(fs, cwd, p, k) && k < |p.segments|
    ensures IsSettled(fs, cwd, Pop(p), k)
    ensures IsMissingName(fs, cwd, p, |p.segments|)
  {
    hide IsMissingName;
    forall j | k <= j < |p.segments|
      ensures IsMissingName(fs, cwd, Pop(p), j) <==> IsMissingName(fs, cwd, p, j)
    {
      SameAbove(fs, cwd, p, j);
    }
  }

  lemma SameAbove(fs: FileTree, cwd: Location, p: Path, j: nat)
    requires j < |p.segments|
    ensures IsMissingName(fs, cwd, Pop(p), j) <==> IsMissingName(fs, cwd, p, j)
  {
    hide Canonicalize;
    FrontIs(p, j);
  }

  lemma FrontIs(p: Path, j: nat)
    requires j <= |p.segments|
    ensures Front(p, |p.segments|) == p
    ensures j < |p.segments| ==> Front(Pop(p), j) == Front(p, j)
  {
    assert p.segments[..|p.segments|] == p.segments;
    if j < |p.segments| {
      assert p.segments[..|p.segments| - 1][..j] == p.segments[..j];
    }
  }

  lemma FromAbove(fs: FileTree, cwd: Location, p: Path)
    requires p.segments != [] && Canonicalize(fs, cwd, p).Missing? && p.segments[|p.segments| - 1].Normal?
    ensures CanonicalMaybe(fs, cwd, p)
            == var parent := CanonicalMaybe(fs, cwd, Pop(p));
               if parent.Ok? then Ok(Push(parent.path, Below(p.segments[|p.segments| - 1]))) else parent
  {
    hide Canonicalize;
  }

  lemma ByItself(fs: FileTree, cwd: Location, p: Path)
    requires Canonicalize(fs, cwd, p).Missing? && p.segments != [] ==> !p.segments[|p.segments| - 1].Normal?
    ensures CanonicalMaybe(fs, cwd, p)
            == match Canonicalize(fs, cwd, p)
               case Reached(at, _) => Ok(Path(true, Plain(at)))
               case Failed => Err(false)
               case Missing => Err(true)
  {
    hide Canonicalize;
  }

  /** Names that are missing are kept as they are behind the canonical form of what
      exists; otherwise the error is that of the part with a verdict. */
  lemma {:induction false} CanonicalIs(fs: FileTree, cwd: Location, p: Path, k: nat)
    requires IsSettled(fs, cwd, p, k)
    ensures k <= |p.segments|
    ensures CanonicalMaybe(fs, cwd, p)
            == match Canonicalize(fs, cwd, Front(p, k))
               case Reached(at, _) => Ok(Path(true, Plain(at) + p.segments[k..]))
               case Failed => Err(false)
               case Missing => Err(true)
    decreases |p.segments|
  {
    hide Canonicalize, CanonicalMaybe, Plain;
    var n := |p.segments|;
    FrontIs(p, n);
    if k < n {
      SettledAbove(fs, cwd, p, k);
      FrontIs(p, k);
      hide IsSettled, Front;
      CanonicalIs(fs, cwd, Pop(p), k);
      FromAbove(fs, cwd, p);
      assert p.segments[k..] == p.segments[..n - 1][k..] + [p.segments[n - 1]];
    } else {
      hide Front;
      ByItself(fs, cwd, p);
      assert p.segments[k..] == [];
    }
  }

  /** A plain absolute path has a canonical form exactly when resolving it
      does not fail outright. */
  lemma {:induction false} CanonicalExists(fs: FileTree, cwd: Location, p: Path)
    requires IsTree(fs) && p.absolute && IsPlain(p)
    ensures CanonicalMaybe(fs, cwd, p).Ok? <==> !Canonicalize(fs, cwd, p).Failed?
    decreases |p.segments|
  {
    if Canonicalize(fs, cwd, p).Missing? {
      assert p.segments != [];
      var q, last := Pop(p), p.segments[|p.segments| - 1];
      assert p.segments == q.segments + [last];
      ResolveAppend(fs, [], q.segments, [last], MAX_LINKS);
      CanonicalExists(fs, cwd, q);
    }
  }

  // ---------------------------------------------------------------------
  // What the permission check is given
  // ---------------------------------------------------------------------

  /** The two paths reach the same place, or both are missing. */
  ghost predicate ReachesTheSame(fs: FileTree, cwd: Location, p: Path, q: Path) {
    var at, there := Canonicalize(fs, cwd, p), Canonicalize(fs, cwd, q);
    && (at.Reached? ==> there.Reached? && there.at == at.at)
    && (at.Missing? <==> there.Missing?)
    && (at.Failed? <==> there.Failed?)
  }

  /** `scoped` succeeds exactly when the normalised absolute path does not
      fail to resolve. What it returns reaches the same place as that path, is
      already absolute and normal, and is under the root exactly when both the
      lexical and the canonical form are. */
  lemma ScopedIsFaithful(fs: FileTree, cwd: Location, root: Path, p: Path)
    requires IsTree(fs) && cwd in fs && fs[cwd].Directory?
    requires root.absolute && IsPlain(root)
    ensures var abs := Normalized(if p.absolute then p else Join(root, p));
            var canon := CanonicalMaybe(fs, cwd, abs);
            var result := Scoped(fs, cwd, root, p);
            && (result.Ok? <==> !Canonicalize(fs, cwd, abs).Failed?)
            && (result.Ok? ==>
                  && canon.Ok?
                  && CanonicalMaybe(fs, cwd, result.path) == canon
                  && ReachesTheSame(fs, cwd, abs, result.path)
                  && result.path.absolute && Normalized(result.path) == result.path
                  && (StartsWith(result.path, root) <==> StartsWith(abs, root) && StartsWith(canon.path, root)))
  {
    var joined := if p.absolute then p else Join(root, p);
    var abs := Normalized(joined);
    NormalizeIdempotent(joined);
    CanonicalExists(fs, cwd, abs);
    if CanonicalMaybe(fs, cwd, abs).Ok? {
      CanonicalReachesSame(fs, cwd, abs);
      PlainIsNormal(CanonicalMaybe(fs, cwd, abs).path);
    }
  }

  /** If the check finds the returned path under the root and the path exists,
      the place it reaches is under the root. */
  lemma NothingOutsideIsReached(fs: FileTree, cwd: Location, root: Location, p: Path)
    requires IsTree(fs) && cwd in fs && fs[cwd].Directory?
    requires var result := Scoped(fs, cwd, PathTo(root), p);
             && result.Ok? && StartsWith(result.path, PathTo(root))
             && Canonicalize(fs, cwd, result.path).Reached?
    ensures root <= Canonicalize(fs, cwd, Scoped(fs, cwd, PathTo(root), p).path).at
  {
    hide Canonicalize, IsTree, Normalized;
    ScopedIsFaithful(fs, cwd, PathTo(root), p);
    var result := Scoped(fs, cwd, PathTo(root), p).path;
    PlainPrefix(root, Canonicalize(fs, cwd, result).at);
  }

  // ---------------------------------------------------------------------
  // Where a path leads that is about to be created
  // ---------------------------------------------------------------------

  datatype Landing = LandsAt(at: Location) | LandsNowhere

  /** Opening for creation: as `Resolve`, but a name that is missing at the very
      end is created where it would stand. */
  function Landed(fs: FileTree, base: Location, todo: seq<Segment>, links: nat): Landing
    decreases links, |todo|
  {
    if todo == [] then LandsAt(base)
    else if base !in fs || !fs[base].Directory? then LandsNowhere
    else
      match todo[0]
      case CurDir => Landed(fs, base, todo[1..], links)
      case ParentDir => Landed(fs, if base == [] then [] else base[..|base| - 1], todo[1..], links)
      case Normal(name) =>
        var l := base + [name];
        if l !in fs then if |todo| == 1 then LandsAt(l) else LandsNowhere
        else if !fs[l].Link? then Landed(fs, l, todo[1..], links)
        else if links == 0 then LandsNowhere
        else Landed(fs, if fs[l].target.absolute then [] else base, fs[l].target.segments + todo[1..], links - 1)
  }

  function LandingOf(fs: FileTree, cwd: Location, p: Path): Landing {
    if p == EMPTY_PATH then LandsNowhere
    else Landed(fs, if p.absolute then [] else cwd, p.segments, MAX_LINKS)
  }

  /** What exists is landed on. */
  lemma {:induction false} LandsWhereItResolves(fs: FileTree, base: Location, todo: seq<Segment>, links: nat)
    ensures var r := Resolve(fs, base, todo, links);
            && (r.Reached? ==> Landed(fs, base, todo, links) == LandsAt(r.at))
            && (r.Failed? ==> Landed(fs, base, todo, links) == LandsNowhere)
    decreases links, |todo|
  {
    if todo != [] && base in fs && fs[base].Directory? {
      match todo[0] {
        case CurDir => LandsWhereItResolves(fs, base, todo[1..], links);
        case ParentDir =>
          LandsWhereItResolves(fs, if base == [] then [] else base[..|base| - 1], todo[1..], links);
        case Normal(name) =>
          var l := base + [name];
          if l in fs && !fs[l].Link? {
            LandsWhereItResolves(fs, l, todo[1..], links);
          } else if l in fs && links > 0 {
            LandsWhereItResolves(fs, if fs[l].target.absolute then [] else base,
                                 fs[l].target.segments + todo[1..], links - 1);
          }
      }
    }
  }

  /** Landing goes through what must exist on the way. */
  lemma {:induction false} LandedAppend(fs: FileTree, base: Location, a: seq<Segment>, b: seq<Segment>, links: nat)
    requires b != []
    ensures Landed(fs, base, a + b, links)
         == var first := Resolve(fs, base, a, links);
            if first.Reached? then Landed(fs, first.at, b, first.linksLeft) else LandsNowhere
    decreases links, |a|
  {
    if a == [] {
      assert a + b == b;
    } else {
      assert (a + b)[0] == a[0] && (a + b)[1..] == a[1..] + b;
      match a[0] {
        case CurDir => LandedAppend(fs, base, a[1..], b, links);
        case ParentDir => LandedAppend(fs, if base == [] then [] else base[..|base| - 1], a[1..], b, links);
        case Normal(name) =>
          var l := base + [name];
          if l in fs && !fs[l].Link? {
            LandedAppend(fs, l, a[1..], b, links);
          } else if l in fs && links > 0 {
            var more := fs[l].target.segments + a[1..];
            assert more + b == fs[l].target.segments + (a[1..] + b);
            LandedAppend(fs, if fs[l].target.absolute then [] else base, more, b, links - 1);
          }
      }
    }
  }

  /** The last name of the path is a link to something that does not exist, and
      creating that would land outside the root. */
  ghost predicate DanglesOutside(fs: FileTree, root: Location, p: Path) {
    p.segments != [] && p.segments[|p.segments| - 1].Normal? &&
    var parent := Resolve(fs, [], Pop(p).segments, MAX_LINKS);
    parent.Reached? &&
    var l := parent.at + [p.segments[|p.segments| - 1].name];
    && l in fs && fs[l].Link? && parent.linksLeft > 0
    && var target := fs[l].target;
       var base := if target.absolute then [] else parent.at;
       && Resolve(fs, base, target.segments, parent.linksLeft - 1).Missing?
       && var landing := Landed(fs, base, target.segments, parent.linksLeft - 1);
          landing.LandsAt? && !(root <= landing.at)
  }

  /** Where creating through a returned path under the root leads: under the
      root, exactly unless the last name is a dangling link to the outside. */
  lemma CreatedInsideExactly(fs: FileTree, cwd: Location, root: Location, p: Path)
    requires IsTree(fs) && cwd in fs && fs[cwd].Directory?
    requires var result := Scoped(fs, cwd, PathTo(root), p);
             && result.Ok? && StartsWith(result.path, PathTo(root))
             && LandingOf(fs, cwd, result.path).LandsAt?
    ensures var path := Scoped(fs, cwd, PathTo(root), p).path;
            root <= LandingOf(fs, cwd, path).at <==> !DanglesOutside(fs, root, path)
  {
    var path := Scoped(fs, cwd, PathTo(root), p).path;
    ScopedIsFaithful(fs, cwd, PathTo(root), p);
    hide IsTree, Normalized, Scoped, Landed, Resolve;
    LandsWhereItResolves(fs, [], path.segments, MAX_LINKS);
    if Canonicalize(fs, cwd, path).Reached? {
      NothingOutsideIsReached(fs, cwd, root, p);
      ReachedDoesNotDangle(fs, root, path);
    } else {
      PlainLast(path);
      LandedLast(fs, root, cwd, path);
    }
  }

  lemma PlainLast(p: Path)
    requires Normalized(p) == p && p.segments != []
    ensures p.segments[|p.segments| - 1].Normal?
  {
    var names := Walk([], p.segments);
    assert p.segments == Plain(names);
  }

  lemma ReachedDoesNotDangle(fs: FileTree, root: Location, p: Path)
    requires Resolve(fs, [], p.segments, MAX_LINKS).Reached?
    ensures !DanglesOutside(fs, root, p)
  {
    if p.segments != [] && p.segments[|p.segments| - 1].Normal? {
      LastStep(fs, p);
    }
  }

  /** Resolving or landing on a path, from where the rest of it leads. */
  lemma LastStep(fs: FileTree, p: Path)
    requires p.segments != [] && p.segments[|p.segments| - 1].Normal?
    ensures var parent, last := Resolve(fs, [], Pop(p).segments, MAX_LINKS), p.segments[|p.segments| - 1];
            && Resolve(fs, [], p.segments, MAX_LINKS)
               == (if parent.Reached? then ResolvedName(fs, parent.at, last.name, parent.linksLeft) else parent)
            && Landed(fs, [], p.segments, MAX_LINKS)
               == (if parent.Reached? then LandedName(fs, parent.at, last.name, parent.linksLeft) else LandsNowhere)
  {
    var parent, last := Resolve(fs, [], Pop(p).segments, MAX_LINKS), p.segments[|p.segments| - 1];
    assert p.segments == Pop(p).segments + [last];
    ResolveAppend(fs, [], Pop(p).segments, [last], MAX_LINKS);
    LandedAppend(fs, [], Pop(p).segments, [last], MAX_LINKS);
    if parent.Reached? {
      OneName(fs, parent.at, last.name, parent.linksLeft);
    }
  }

  function ResolvedName(fs: FileTree, at: Location, name: Name, links: nat): Outcome {
    var l := at + [name];
    if at !in fs || !fs[at].Directory? then Failed
    else if l !in fs then Missing
    else if !fs[l].Link? then Reached(l, links)
    else if links == 0 then Failed
    else Resolve(fs, if fs[l].target.absolute then [] else at, fs[l].target.segments, links - 1)
  }

  function LandedName(fs: FileTree, at: Location, name: Name, links: nat): Landing {
    var l := at + [name];
    if at !in fs || !fs[at].Directory? then LandsNowhere
    else if l !in fs || !fs[l].Link? then LandsAt(l)
    else if links == 0 then LandsNowhere
    else Landed(fs, if fs[l].target.absolute then [] else at, fs[l].target.segments, links - 1)
  }

  lemma OneName(fs: FileTree, at: Location, name: Name, links: nat)
    ensures Resolve(fs, at, [Normal(name)], links) == ResolvedName(fs, at, name, links)
    ensures Landed(fs, at, [Normal(name)], links) == LandedName(fs, at, name, links)
  {
    var l := at + [name];
    assert [Normal(name)][1..] == [];
    if l in fs && fs[l].Link? {
      assert fs[l].target.segments + [] == fs[l].target.segments;
    }
  }

  lemma LandedLast(fs: FileTree, root: Location, cwd: Location, p: Path)
    requires p.absolute && p.segments != [] && p.segments[|p.segments| - 1].Normal?
    requires Canonicalize(fs, cwd, p).Missing? && Landed(fs, [], p.segments, MAX_LINKS).LandsAt?
    requires CanonicalMaybe(fs, cwd, p).Ok? && StartsWith(CanonicalMaybe(fs, cwd, p).path, PathTo(root))
    ensures root <= Landed(fs, [], p.segments, MAX_LINKS).at <==> !DanglesOutside(fs, root, p)
  {
    LastStep(fs, p);
    hide Resolve, Landed;
    var parent := Resolve(fs, [], Pop(p).segments, MAX_LINKS);
    var l := parent.at + [p.segments[|p.segments| - 1].name];
    if l !in fs {
      assert CanonicalMaybe(fs, cwd, p).path.segments == Plain(l);
      PlainPrefix(root, l);
    }
  }

  /** Two directories, and in the first a link to a name that is missing in the
      second. */
  function Dangling(inside: Name, link: Name, outside: Name, missing: Name): FileTree {
    map[[] := Directory, [inside] := Directory, [outside] := Directory,
        [inside, link] := Link(PathTo([outside, missing]))]
  }

  lemma DanglingIsTree(inside: Name, link: Name, outside: Name, missing: Name)
    requires inside != outside
    ensures IsTree(Dangling(inside, link, outside, missing))
  {
    var fs := Dangling(inside, link, outside, missing);
    forall l: Location, name: Name | l + [name] in fs
      ensures l in fs && fs[l].Directory?
    {
      var full := l + [name];
      assert |l| == 0 ==> l == [];
      assert |l| == 1 ==> l == [full[0]];
    }
  }

  /** The target of the link is missing, and creating it lands there. */
  lemma DanglingTarget(inside: Name, link: Name, outside: Name, missing: Name, links: nat)
    requires inside != outside
    ensures var fs := Dangling(inside, link, outside, missing);
            && Resolve(fs, [], Plain([outside, missing]), links) == Missing
            && Landed(fs, [], Plain([outside, missing]), links) == LandsAt([outside, missing])
  {
    var fs := Dangling(inside, link, outside, missing);
    assert Plain([outside, missing]) == [Normal(outside)] + [Normal(missing)];
    assert [] + [outside] == [outside] && [outside] + [missing] == [outside, missing];
    assert [outside, missing] !in fs;
    hide Resolve, Landed, Plain;
    OneName(fs, [], outside, links);
    ResolveAppend(fs, [], [Normal(outside)], [Normal(missing)], links);
    LandedAppend(fs, [], [Normal(outside)], [Normal(missing)], links);
    OneName(fs, [outside], missing, links);
  }

  lemma DanglingLink(inside: Name, link: Name, outside: Name, missing: Name)
    requires inside != outside
    ensures var fs, p := Dangling(inside, link, outside, missing), PathTo([inside, link]);
            && Resolve(fs, [], [Normal(inside)], MAX_LINKS) == Reached([inside], MAX_LINKS)
            && Resolve(fs, [], p.segments, MAX_LINKS) == Missing
            && Landed(fs, [], p.segments, MAX_LINKS) == LandsAt([outside, missing])
  {
    var fs, p := Dangling(inside, link, outside, missing), PathTo([inside, link]);
    assert Pop(p).segments == [Normal(inside)];
    assert [] + [inside] == [inside] && [inside] + [link] == [inside, link];
    hide Resolve, Landed;
    OneName(fs, [], inside, MAX_LINKS);
    LastStep(fs, p);
    DanglingTarget(inside, link, outside, missing, MAX_LINKS - 1);
  }

  /** The path of that link is returned as it is, under the root, and creating
      through it lands in the other directory. */
  lemma LandsOutsideAtAnExample(inside: Name, link: Name, outside: Name, missing: Name)
    requires inside != outside
    ensures var fs, p := Dangling(inside, link, outside, missing), PathTo([inside, link]);
            && IsTree(fs)
            && Scoped(fs, [], PathTo([inside]), p) == Ok(p) && StartsWith(p, PathTo([inside]))
            && LandingOf(fs, [], p) == LandsAt([outside, missing])
            && !([inside] <= [outside, missing])
  {
    var fs, p := Dangling(inside, link, outside, missing), PathTo([inside, link]);
    DanglingIsTree(inside, link, outside, missing);
    DanglingLink(inside, link, outside, missing);
    PlainIsNormal(p);
    assert Pop(p) == PathTo([inside]) && PathTo([inside]).segments == [Normal(inside)];
    hide Resolve, Landed, Normalized, Dangling, IsTree;
    assert Canonicalize(fs, [], p) == Missing;
    assert CanonicalMaybe(fs, [], Pop(p)) == Ok(PathTo([inside]));
    assert Push(PathTo([inside]), Below(Normal(link))) == p;
    assert CanonicalMaybe(fs, [], p) == Ok(p);
    assert !([inside] <= [outside, missing]) by {
      assert [inside][0] != [outside, missing][0];
    }
  }

  lemma PlainPrefix(a: seq<Name>, b: seq<Name>)
    requires Plain(a) <= Plain(b)
    ensures a <= b
  {
    forall i | 0 <= i < |a| ensures a[i] == b[i] {
      assert Plain(a)[i] == Normal(a[i]) && Plain(b)[i] == Normal(b[i]);
    }
  }
}
