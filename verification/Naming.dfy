/** Names that do not clash: the suffix search of `resolve_path_conflict`. */
module Naming {
  import opened Basics
  import opened Paths

  // ---------------------------------------------------------------------
  // File names
  // ---------------------------------------------------------------------

  function FileName(p: Path): Option<Name> {
    if p.segments != [] && p.segments[|p.segments| - 1].Normal? then Some(p.segments[|p.segments| - 1].name) else None
  }

  /** `PathBuf::set_file_name`: replaces the last name, or adds one. */
  function SetFileName(p: Path, name: Name): Path {
    Push(if FileName(p).Some? then Pop(p) else p, Below(Normal(name)))
  }

  /** Where the last dot stands, or -1. */
  function LastDot(name: Name): (i: int)
    ensures -1 <= i < |name|
    ensures i >= 0 ==> name[i] == '.'
    ensures forall j :: i < j < |name| ==> name[j] != '.'
  {
    if name == "" then -1
    else if name[|name| - 1] == '.' then |name| - 1
    else LastDot(name[..|name| - 1])
  }

  /** A leading dot does not start an extension. */
  function Stem(name: Name): Name {
    if LastDot(name) <= 0 then name else name[..LastDot(name)]
  }

  function Extension(name: Name): Option<Name> {
    if LastDot(name) <= 0 then None else Some(name[LastDot(name) + 1..])
  }

  lemma LastDotIs(name: Name, i: int)
    requires -1 <= i < |name| && (i >= 0 ==> name[i] == '.') && forall j :: i < j < |name| ==> name[j] != '.'
    ensures LastDot(name) == i
  {
    var k := LastDot(name);
    assert !(k < i) && !(i < k);
  }

  /** The extension is behind the last dot, the stem before it. */
  lemma StemAndExtension(stem: Name, ext: Name)
    requires stem != "" && '.' !in ext
    ensures Stem(stem + "." + ext) == stem && Extension(stem + "." + ext) == Some(ext)
  {
    var name := stem + "." + ext;
    assert forall j :: |stem| < j < |name| ==> name[j] == ext[j - |stem| - 1];
    LastDotIs(name, |stem|);
    assert name[..|stem|] == stem && name[|stem| + 1..] == ext;
  }

  /** A name without a dot, or with none but a leading one, is all stem. */
  lemma StemAlone(name: Name)
    requires '.' !in name || (name[0] == '.' && '.' !in name[1..])
    ensures Stem(name) == name && Extension(name) == None
  {
    if '.' in name {
      assert forall j :: 0 < j < |name| ==> name[j] == name[1..][j - 1];
      LastDotIs(name, 0);
    } else {
      LastDotIs(name, -1);
    }
  }

  // ---------------------------------------------------------------------
  // Numbered names
  // ---------------------------------------------------------------------

  function Digit(n: nat): char
    requires n < 10
  {
    '0' + n as char
  }

  function Decimal(n: nat): (s: string)
    ensures |s| > 0
    ensures forall c :: c in s ==> '0' <= c <= '9'
  {
    if n < 10 then [Digit(n)] else Decimal(n / 10) + [Digit(n % 10)]
  }

  /** The number that digits denote. */
  function Denoted(digits: string): int {
    if digits == "" then 0 else 10 * Denoted(digits[..|digits| - 1]) + (digits[|digits| - 1] as int - '0' as int)
  }

  /** A number is written in digits that denote it, the first of them no zero
      unless it is the only one. */
  lemma {:induction false} DecimalDenotes(n: nat)
    ensures Denoted(Decimal(n)) == n && (|Decimal(n)| > 1 ==> Decimal(n)[0] != '0')
  {
    var s := Decimal(n);
    if n >= 10 {
      DecimalDenotes(n / 10);
      assert s[..|s| - 1] == Decimal(n / 10);
      if n / 10 < 10 {
        assert s[0] == Digit(n / 10);
      }
    } else {
      assert s[..0] == "";
    }
  }

  lemma {:induction false} DecimalInjective(a: nat, b: nat)
    requires Decimal(a) == Decimal(b)
    ensures a == b
  {
    var s := Decimal(a);
    assert s[|s| - 1] == Digit(a % 10) && s[|s| - 1] == Digit(b % 10);
    if a >= 10 && b >= 10 {
      assert Decimal(a / 10) == s[..|s| - 1] == Decimal(b / 10);
      DecimalInjective(a / 10, b / 10);
    }
  }

  function Numbered(name: Option<Name>, i: nat): Name {
    var stem := if name.Some? then Stem(name.value) else "unknown";
    var ext := if name.Some? then Extension(name.value) else None;
    if ext.Some? then stem + "_" + Decimal(i) + "." + ext.value else stem + "_" + Decimal(i)
  }

  /** The number comes behind the stem, and the extension stays behind it. */
  lemma NumberedIs(stem: Name, ext: Name, i: nat)
    requires stem != "" && '.' !in ext
    ensures Numbered(Some(stem + "." + ext), i) == stem + "_" + Decimal(i) + "." + ext
  {
    StemAndExtension(stem, ext);
    hide Stem, Extension, Decimal;
  }

  lemma NumberedParts(name: Option<Name>, i: nat, stem: string, tail: string)
    requires stem == if name.Some? then Stem(name.value) else "unknown"
    requires var ext := if name.Some? then Extension(name.value) else None;
             tail == if ext.Some? then "." + ext.value else ""
    ensures Numbered(name, i) == stem + "_" + Decimal(i) + tail
  {
    hide Decimal, Stem, Extension;
  }

  lemma NumberedAloneIs(name: Name, i: nat)
    requires '.' !in name || (name[0] == '.' && '.' !in name[1..])
    ensures Numbered(Some(name), i) == name + "_" + Decimal(i)
    ensures Numbered(None, i) == "unknown" + "_" + Decimal(i)
  {
    hide *;
    StemAlone(name);
    NumberedParts(Some(name), i, name, "");
    NumberedParts(None, i, "unknown", "");
  }

  lemma NumberedInjective(name: Option<Name>, i: nat, j: nat)
    requires i != j
    ensures Numbered(name, i) != Numbered(name, j)
  {
    var stem := if name.Some? then Stem(name.value) else "unknown";
    var ext := if name.Some? then Extension(name.value) else None;
    var tail := if ext.Some? then "." + ext.value else "";
    hide Decimal, Stem, Extension;
    NumberedParts(name, i, stem, tail);
    NumberedParts(name, j, stem, tail);
    hide Numbered;
    if Numbered(name, i) == Numbered(name, j) {
      SameMiddle(stem + "_", Decimal(i), Decimal(j), tail);
      DecimalInjective(i, j);
    }
  }

  lemma SameMiddle(front: string, a: string, b: string, tail: string)
    requires front + a + tail == front + b + tail
    ensures a == b
  {
    var s, t := front + a + tail, front + b + tail;
    assert |a| == |b|;
    assert a == s[|front|..|front| + |a|] && b == t[|front|..|front| + |b|];
  }

  /** Numbering keeps the extension. */
  lemma NumberedKeepsExtension(name: Name, i: nat)
    requires name != ""
    ensures Extension(Numbered(Some(name), i)) == Extension(name)
  {
    var numbered := Numbered(Some(name), i);
    var dot := LastDot(name);
    var head := Stem(name) + "_" + Decimal(i);
    if dot > 0 {
      var ext := name[dot + 1..];
      assert numbered == head + "." + ext;
      assert numbered[|head|] == '.';
      assert forall k :: |head| < k < |numbered| ==> numbered[k] == name[dot + 1 + (k - |head| - 1)];
      assert LastDot(numbered) == |head|;
      assert numbered[|head| + 1..] == ext;
    } else {
      assert numbered == head;
      var digits := Decimal(i);
      forall k | |name| <= k < |head| ensures head[k] != '.' {
        assert head[k] == if k == |name| then '_' else digits[k - |name| - 1];
        assert k > |name| ==> digits[k - |name| - 1] in digits;
      }
      assert forall k :: 0 <= k < |name| ==> head[k] == name[k];
      assert LastDot(numbered) == dot;
    }
  }

  // ---------------------------------------------------------------------
  // The search
  // ---------------------------------------------------------------------

  function Candidate(p: Path, i: nat): Path {
    SetFileName(p, Numbered(FileName(p), i))
  }

  /** It has the number in its name, and stands where the path does; a path that
      does not end with a name gets one. */
  lemma CandidateIs(p: Path, i: nat)
    ensures FileName(Candidate(p, i)) == Some(Numbered(FileName(p), i))
    ensures Pop(Candidate(p, i)) == if FileName(p).Some? then Pop(p) else p
  {
    hide Numbered;
  }

  lemma CandidateInjective(p: Path, i: nat, j: nat)
    requires Candidate(p, i) == Candidate(p, j)
    ensures i == j
  {
    var a, b := Candidate(p, i).segments, Candidate(p, j).segments;
    assert a[|a| - 1] == Normal(Numbered(FileName(p), i)) && b[|b| - 1] == Normal(Numbered(FileName(p), j));
    if i != j {
      NumberedInjective(FileName(p), i, j);
    }
  }

  ghost predicate AllTaken(p: Path, taken: set<Path>, i: nat) {
    forall j: nat :: 1 <= j < i ==> Candidate(p, j) in taken
  }

  ghost function Candidates(p: Path, i: nat): set<Path> {
    set j: nat | 1 <= j < i :: Candidate(p, j)
  }

  lemma {:induction false} CandidateCount(p: Path, i: nat)
    requires i >= 1
    ensures |Candidates(p, i)| == i - 1
  {
    if i == 1 {
      assert Candidates(p, 1) == {};
    } else {
      CandidateCount(p, i - 1);
      assert Candidates(p, i) == Candidates(p, i - 1) + {Candidate(p, i - 1)};
      if j: nat :| 1 <= j < i - 1 && Candidate(p, j) == Candidate(p, i - 1) {
        CandidateInjective(p, j, i - 1);
      }
    }
  }

  /** Only as many candidates can be taken as there are taken paths. */
  lemma TakenBound(p: Path, taken: set<Path>, i: nat)
    requires i >= 1 && AllTaken(p, taken, i)
    ensures i - 1 <= |taken|
  {
    CandidateCount(p, i);
    SubsetSize(Candidates(p, i), taken);
  }

  ghost function FirstFree(p: Path, taken: set<Path>, i: nat): (k: nat)
    requires i >= 1 && AllTaken(p, taken, i)
    ensures k >= i && Candidate(p, k) !in taken && AllTaken(p, taken, k)
    decreases |taken| + 1 - i
  {
    TakenBound(p, taken, i);
    if Candidate(p, i) !in taken then i
    else
      assert AllTaken(p, taken, i + 1);
      TakenBound(p, taken, i + 1);
      FirstFree(p, taken, i + 1)
  }

  ghost function Resolved(p: Path, taken: set<Path>): Path {
    if p !in taken then p else Candidate(p, FirstFree(p, taken, 1))
  }

  /** The search ends after at most one try more than there are taken paths,
      so the 32-bit counter of the loop cannot overflow below that many. */
  method ResolvePathConflict(p: Path, taken: set<Path>) returns (free: Path, tries: nat)
    ensures free == Resolved(p, taken)
    ensures tries <= |taken| + 1
    ensures p in taken ==> free == Candidate(p, tries)
  {
    if p !in taken {
      return p, 0;
    }
    var i := 1;
    while Candidate(p, i) in taken
      invariant i >= 1 && AllTaken(p, taken, i)
      decreases |taken| + 1 - i
    {
      assert AllTaken(p, taken, i + 1);
      TakenBound(p, taken, i + 1);
      i := i + 1;
    }
    TakenBound(p, taken, i);
    FirstFreeIs(p, taken, i);
    return Candidate(p, i), i;
  }

  lemma FirstFreeIs(p: Path, taken: set<Path>, i: nat)
    requires i >= 1 && AllTaken(p, taken, i) && Candidate(p, i) !in taken
    ensures FirstFree(p, taken, 1) == i
  {
    var k := FirstFree(p, taken, 1);
    assert !(1 <= k < i);
  }

  /** The result is free, stands beside the path, is the path itself if that
      is free and otherwise the candidate with the least free number, and
      resolving it again changes nothing. */
  lemma ResolvedIsLeastFree(p: Path, taken: set<Path>)
    ensures Resolved(p, taken) !in taken
    ensures p in taken ==>
              exists k: nat :: 1 <= k <= |taken| + 1 && Resolved(p, taken) == Candidate(p, k)
                && forall j: nat :: 1 <= j < k ==> Candidate(p, j) in taken
    ensures FileName(p).Some? ==> Pop(Resolved(p, taken)) == Pop(p)
    ensures Resolved(Resolved(p, taken), taken) == Resolved(p, taken)
  {
    if p in taken {
      var k := FirstFree(p, taken, 1);
      TakenBound(p, taken, k);
      assert Resolved(p, taken) == Candidate(p, k);
    }
  }
}
