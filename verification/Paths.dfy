/** Paths as the standard library breaks them up, and lexical normalisation. */
module Paths {

  type Name = string

  datatype Segment = CurDir | ParentDir | Normal(name: Name)

  datatype Path = Path(absolute: bool, segments: seq<Segment>)

  datatype Component = RootDir | Below(segment: Segment)

  const EMPTY_PATH := Path(false, [])

  function Components(p: Path): seq<Component> {
    (if p.absolute then [RootDir] else []) + seq(|p.segments|, i requires 0 <= i < |p.segments| => Below(p.segments[i]))
  }

  /** `PathBuf::push` of one component. */
  function Push(p: Path, c: Component): Path {
    match c
    case RootDir => Path(true, [])
    case Below(s) => p.(segments := p.segments + [s])
  }

  /** `PathBuf::pop`, which leaves `/` and the empty path as they are. */
  function Pop(p: Path): Path {
    if p.segments == [] then p else p.(segments := p.segments[..|p.segments| - 1])
  }

  function Join(p: Path, q: Path): Path {
    if q.absolute then q else Path(p.absolute, p.segments + q.segments)
  }

  predicate StartsWith(p: Path, prefix: Path) {
    p.absolute == prefix.absolute && prefix.segments <= p.segments
  }

  function Plain(names: seq<Name>): (segments: seq<Segment>)
    ensures |segments| == |names|
  {
    seq(|names|, i requires 0 <= i < |names| => Normal(names[i]))
  }

  ghost predicate IsPlain(p: Path) {
    forall i :: 0 <= i < |p.segments| ==> p.segments[i].Normal?
  }

  /** Where one ends up by taking the segments one by one, reading `..` as one
      name up and staying put at the top. */
  function Walk(names: seq<Name>, segments: seq<Segment>): seq<Name>
    decreases |segments|
  {
    if segments == [] then names else
      match segments[0]
      case CurDir => Walk(names, segments[1..])
      case ParentDir => Walk(if names == [] then [] else names[..|names| - 1], segments[1..])
      case Normal(name) => Walk(names + [name], segments[1..])
  }

  function Normalized(p: Path): Path {
    Path(p.absolute, Plain(Walk([], p.segments)))
  }

  lemma {:induction false} WalkAppend(names: seq<Name>, a: seq<Segment>, b: seq<Segment>)
    ensures Walk(names, a + b) == Walk(Walk(names, a), b)
    decreases |a|
  {
    if a == [] {
      assert a + b == b;
    } else {
      assert (a + b)[0] == a[0] && (a + b)[1..] == a[1..] + b;
      match a[0] {
        case CurDir => WalkAppend(names, a[1..], b);
        case ParentDir => WalkAppend(if names == [] then [] else names[..|names| - 1], a[1..], b);
        case Normal(name) => WalkAppend(names + [name], a[1..], b);
      }
    }
  }

  lemma {:induction false} WalkPlain(names: seq<Name>, more: seq<Name>)
    ensures Walk(names, Plain(more)) == names + more
    decreases |more|
  {
    if more != [] {
      assert Plain(more)[1..] == Plain(more[1..]);
      WalkPlain(names + [more[0]], more[1..]);
    }
  }

  /** The loop over the components. */
  method Normalize(p: Path) returns (out: Path)
    ensures out == Normalized(p)
  {
    out := EMPTY_PATH;
    var components := Components(p);
    var head := if p.absolute then 1 else 0;
    var i := 0;
    while i < |components|
      invariant i <= |components|
      invariant i < head ==> out == EMPTY_PATH
      invariant i >= head ==> out == Path(p.absolute, Plain(Walk([], p.segments[..i - head])))
    {
      if i >= head {
        var k := i - head;
        assert p.segments[..k + 1] == p.segments[..k] + [p.segments[k]];
        WalkAppend([], p.segments[..k], [p.segments[k]]);
      }
      match components[i] {
        case RootDir => out := Push(out, RootDir);
        case Below(ParentDir) => out := Pop(out);
        case Below(CurDir) =>
        case Below(Normal(name)) => out := Push(out, Below(Normal(name)));
      }
      i := i + 1;
    }
    assert p.segments[..|p.segments|] == p.segments;
  }

  /** Normalising again changes nothing. */
  lemma NormalizeIdempotent(p: Path)
    ensures Normalized(Normalized(p)) == Normalized(p)
    ensures IsPlain(Normalized(p)) && Normalized(p).absolute == p.absolute
  {
    WalkPlain([], Walk([], p.segments));
  }

  /** A path without `.` and `..` is its own normal form. */
  lemma PlainIsNormal(p: Path)
    requires IsPlain(p)
    ensures Normalized(p) == p
  {
    var names := seq(|p.segments|, i requires 0 <= i < |p.segments| => p.segments[i].name);
    assert Plain(names) == p.segments;
    WalkPlain([], names);
  }

  /** Normalising the base first does not change what joining gives. */
  lemma NormalizeComposes(base: Path, p: Path)
    ensures Normalized(Join(base, p)) == Normalized(Join(Normalized(base), p))
  {
    if !p.absolute {
      WalkAppend([], base.segments, p.segments);
      WalkAppend([], Normalized(base).segments, p.segments);
      WalkPlain([], Walk([], base.segments));
      assert [] + Walk([], base.segments) == Walk([], base.segments);
    }
  }

  /** A path that climbs nowhere above its base stays under the base. */
  lemma NormalizeStaysBelow(base: Path, p: Path)
    requires IsPlain(base) && IsPlain(p) && !p.absolute
    ensures StartsWith(Normalized(Join(base, p)), base)
  {
    PlainIsNormal(Join(base, p));
  }
}
