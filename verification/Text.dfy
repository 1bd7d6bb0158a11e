/** The string operations the config parser is built from. */
module Text {
  /** `char::is_whitespace`. */
  predicate IsBlank(c: char) {
    || c == ' ' || '\U{9}' <= c <= '\U{D}'
    || c == '\U{85}' || c == '\U{A0}' || c == '\U{1680}' || '\U{2000}' <= c <= '\U{200A}'
    || c == '\U{2028}' || c == '\U{2029}' || c == '\U{202F}' || c == '\U{205F}' || c == '\U{3000}'
  }

  predicate StartsWith(s: string, prefix: string) {
    prefix <= s
  }

  predicate At(s: string, pat: string, i: int) {
    0 <= i && i + |pat| <= |s| && s[i..i + |pat|] == pat
  }

  ghost predicate Contains(s: string, pat: string) {
    exists i :: At(s, pat, i)
  }

  /** A pattern whose first character does not return cannot overlap itself. */
  predicate Unbordered(pat: string) {
    pat != "" && pat[0] !in pat[1..]
  }

  /** The first position of the character, or the length. */
  function Find(s: string, c: char): (i: nat)
    ensures i <= |s| && (i < |s| ==> s[i] == c)
    ensures forall k :: 0 <= k < i ==> s[k] != c
  {
    if s == "" || s[0] == c then 0 else 1 + Find(s[1..], c)
  }

  lemma FindIs(s: string, c: char, i: nat)
    requires i <= |s| && (i < |s| ==> s[i] == c)
    requires forall k :: 0 <= k < i ==> s[k] != c
    ensures Find(s, c) == i
  {
  }

  lemma FindBehind(s: string, c: char, i: nat)
    requires i <= |s| && (i < |s| ==> s[i] == c) && c !in s[..i]
    ensures Find(s, c) == i
  {
    assert forall k :: 0 <= k < i ==> s[..i][k] == s[k];
    FindIs(s, c, i);
  }

  /** `match_indices`: the disjoint occurrences, from the left. */
  function Matches(s: string, pat: string, from: nat): (found: seq<nat>)
    requires pat != ""
    ensures forall k :: 0 <= k < |found| ==> from <= found[k] <= |s| - |pat|
    decreases |s| - from
  {
    if from + |pat| > |s| then []
    else if At(s, pat, from) then [from] + Matches(s, pat, from + |pat|)
    else Matches(s, pat, from + 1)
  }

  lemma {:induction false} MatchAt(s: string, pat: string, from: nat, k: nat)
    requires pat != "" && k < |Matches(s, pat, from)|
    ensures At(s, pat, Matches(s, pat, from)[k])
    decreases |s| - from
  {
    NextMatch(s, pat, from);
    hide Matches, At;
    if !At(s, pat, from) {
      MatchAt(s, pat, from + 1, k);
    } else if k > 0 {
      MatchAt(s, pat, from + |pat|, k - 1);
    }
  }

  lemma {:induction false} SomeMatch(s: string, pat: string, from: nat, i: nat)
    requires pat != "" && from <= i && At(s, pat, i)
    ensures Matches(s, pat, from) != []
    decreases i - from
  {
    if !At(s, pat, from) {
      SomeMatch(s, pat, from + 1, i);
    }
  }

  /** There is a match exactly if the pattern occurs. */
  lemma MatchesIfContained(s: string, pat: string)
    requires pat != ""
    ensures Matches(s, pat, 0) == [] <==> !Contains(s, pat)
  {
    var found := Matches(s, pat, 0);
    if found != [] {
      MatchAt(s, pat, 0, 0);
    }
    if Contains(s, pat) {
      var i: nat :| At(s, pat, i);
      SomeMatch(s, pat, 0, i);
    }
  }

  lemma {:induction false} FirstMatch(s: string, pat: string, from: nat, first: nat)
    requires pat != "" && from <= first && At(s, pat, first)
    requires forall i :: from <= i < first ==> !At(s, pat, i)
    ensures Matches(s, pat, from) == [first] + Matches(s, pat, first + |pat|)
    decreases first - from
  {
    if from < first {
      assert !At(s, pat, from);
      FirstMatch(s, pat, from + 1, first);
    }
  }

  lemma NextMatch(s: string, pat: string, from: nat)
    requires pat != "" && from + |pat| <= |s|
    ensures Matches(s, pat, from) == if At(s, pat, from) then [from] + Matches(s, pat, from + |pat|)
                                     else Matches(s, pat, from + 1)
  {
  }

  predicate Reaches(found: seq<nat>, i: nat) {
    found != [] && i <= found[|found| - 1]
  }

  lemma ReachesFurther(first: nat, rest: seq<nat>, i: nat)
    requires Reaches(rest, i) || (i <= first && forall k :: 0 <= k < |rest| ==> first <= rest[k])
    ensures Reaches([first] + rest, i)
  {
  }

  /** The last match of an unbordered pattern is its last occurrence. */
  lemma {:induction false} LastMatch(s: string, pat: string, from: nat, i: nat)
    requires Unbordered(pat) && from <= i && At(s, pat, i)
    ensures Reaches(Matches(s, pat, from), i)
    decreases |s| - from
  {
    hide *;
    AtFits(s, pat, i);
    NextMatch(s, pat, from);
    if !At(s, pat, from) {
      LastMatch(s, pat, from + 1, i);
    } else if from < i {
      AtApart(s, pat, from, i);
      LastMatch(s, pat, from + |pat|, i);
      ReachesFurther(from, Matches(s, pat, from + |pat|), i);
    } else {
      ReachesFurther(from, Matches(s, pat, from + |pat|), i);
    }
  }

  lemma AtFits(s: string, pat: string, i: nat)
    requires Unbordered(pat) && At(s, pat, i)
    ensures pat != "" && i + |pat| <= |s|
  {
  }

  /** Two occurrences of an unbordered pattern do not overlap. */
  lemma AtApart(s: string, pat: string, i: nat, j: nat)
    requires Unbordered(pat) && At(s, pat, i) && At(s, pat, j) && i < j
    ensures i + |pat| <= j
  {
    AtChar(s, pat, j, 0);
    assert forall k :: 1 <= k < |pat| ==> pat[1..][k - 1] == pat[k];
    hide At;
    if j < i + |pat| {
      AtChar(s, pat, i, j - i);
    }
  }

  lemma AtChar(s: string, pat: string, i: nat, k: nat)
    requires At(s, pat, i) && k < |pat|
    ensures s[i + k] == pat[k]
  {
    assert s[i..i + |pat|][k] == s[i + k];
  }

  /** An occurrence does not cover a character foreign to the pattern. */
  lemma AtAvoids(s: string, pat: string, i: nat, p: nat)
    requires At(s, pat, i) && p < |s| && s[p] !in pat
    ensures p < i || i + |pat| <= p
  {
    hide At;
    if i <= p < i + |pat| {
      AtChar(s, pat, i, p - i);
    }
  }

  /** An occurrence lies in one of two parts, unless the parts share it. */
  lemma AtLeft(a: string, b: string, pat: string, i: nat)
    requires i + |pat| <= |a|
    ensures At(a + b, pat, i) <==> At(a, pat, i)
  {
    assert (a + b)[i..i + |pat|] == a[i..i + |pat|];
  }

  lemma AtRight(a: string, b: string, pat: string, i: nat)
    ensures At(a + b, pat, |a| + i) <==> At(b, pat, i)
  {
    if i + |pat| <= |b| {
      assert (a + b)[|a| + i..|a| + i + |pat|] == b[i..i + |pat|];
    }
  }

  /** A character foreign to the pattern keeps occurrences apart. */
  lemma ContainsApart(a: string, c: char, b: string, pat: string)
    requires c !in pat
    ensures Contains(a + [c] + b, pat) ==> Contains(a, pat) || Contains(b, pat)
  {
    if Contains(a + [c] + b, pat) {
      var s := a + [c] + b;
      var i: nat :| At(s, pat, i);
      if i + |pat| <= |a| {
        AtLeft(a, [c] + b, pat, i);
        assert s == a + ([c] + b);
      } else if i <= |a| {
        AtChar(s, pat, i, |a| - i);
      } else {
        AtRight(a + [c], b, pat, i - |a| - 1);
      }
    }
  }

  lemma HeadElsewhere(s: string, pat: string)
    requires pat != "" && pat[0] !in s
    ensures !Contains(s, pat)
  {
    if Contains(s, pat) {
      var i: nat :| At(s, pat, i);
      AtChar(s, pat, i, 0);
    }
  }

  /** Between two places, a part without the pattern has no occurrence that
      starts in it. */
  lemma NoneBetween(a: string, m: string, rest: string, pat: string, i: nat)
    requires Unbordered(pat) && !Contains(m, pat) && |a| <= i < |a| + |m|
    requires At(a + m + rest, pat, |a| + |m|)
    ensures !At(a + m + rest, pat, i)
  {
    var s := a + m + rest;
    if At(s, pat, i) {
      if i + |pat| <= |a| + |m| {
        AtLeft(a + m, rest, pat, i);
        AtRight(a, m, pat, i - |a|);
        assert Contains(m, pat);
      } else {
        AtApart(s, pat, i, |a| + |m|);
      }
    }
  }

  lemma AtBetween(a: string, pat: string, b: string)
    ensures At(a + pat + b, pat, |a|)
  {
    assert (a + pat + b)[|a|..|a| + |pat|] == pat;
  }

  /** A match at the end of a part that has none. */
  lemma MatchAfter(a: string, m: string, rest: string, pat: string)
    requires Unbordered(pat) && !Contains(m, pat)
    ensures var s := a + m + (pat + rest);
            Matches(s, pat, |a|) == [|a| + |m|] + Matches(s, pat, |a| + |m| + |pat|)
  {
    hide *;
    var s := a + m + (pat + rest);
    assert s == (a + m) + pat + rest;
    AtBetween(a + m, pat, rest);
    AtFits(s, pat, |a| + |m|);
    forall i | |a| <= i < |a| + |m|
      ensures !At(s, pat, i)
    {
      NoneBetween(a, m, pat + rest, pat, i);
    }
    FirstMatch(s, pat, |a|, |a| + |m|);
  }

  /** The first two matches in a text with the pattern between other parts. */
  lemma TwoMatches(a: string, m: string, b: string, pat: string)
    requires Unbordered(pat) && !Contains(a, pat) && !Contains(m, pat)
    ensures var found := Matches(a + pat + m + pat + b, pat, 0);
            |found| >= 2 && found[0] == |a| && found[1] == |a| + |pat| + |m|
  {
    var s := a + pat + m + pat + b;
    hide Contains, At, Matches, Unbordered;
    MatchAfter("", a, m + pat + b, pat);
    assert s == "" + a + (pat + (m + pat + b));
    MatchAfter(a + pat, m, b, pat);
    assert s == (a + pat) + m + (pat + b);
  }

  function Join(parts: seq<string>, separator: string): string {
    if parts == [] then "" else if |parts| == 1 then parts[0]
    else parts[0] + separator + Join(parts[1..], separator)
  }

  lemma {:induction false} JoinLast(parts: seq<string>, last: string)
    ensures Join(parts + [last], "") == Join(parts, "") + last
  {
    if |parts| > 0 {
      assert (parts + [last])[1..] == parts[1..] + [last];
      JoinLast(parts[1..], last);
      assert parts[0] + "" == parts[0];
    }
  }

  /** `split` on one character. */
  function Split(s: string, c: char): seq<string>
    decreases |s|
  {
    var i := Find(s, c);
    if i == |s| then [s] else [s[..i]] + Split(s[i + 1..], c)
  }

  /** Joining undoes splitting, and no part holds the separator. */
  lemma {:induction false} JoinSplit(s: string, c: char)
    ensures var parts := Split(s, c);
            parts != [] && Join(parts, [c]) == s && forall k :: 0 <= k < |parts| ==> c !in parts[k]
    decreases |s|
  {
    var i := Find(s, c);
    if i == |s| {
      assert s[..i] == s;
    } else {
      var rest := Split(s[i + 1..], c);
      JoinSplit(s[i + 1..], c);
      assert ([s[..i]] + rest)[1..] == rest;
      assert s == s[..i] + [c] + s[i + 1..];
    }
  }

  /** Splitting undoes joining. */
  lemma {:induction false} SplitJoin(parts: seq<string>, c: char)
    requires parts != [] && forall part :: part in parts ==> c !in part
    ensures Split(Join(parts, [c]), c) == parts
  {
    var s := Join(parts, [c]);
    var i := |parts[0]|;
    if |parts| == 1 {
      assert s[..i] == s;
      FindBehind(s, c, i);
    } else {
      assert s[..i] == parts[0] && s[i] == c && s[i + 1..] == Join(parts[1..], [c]);
      FindBehind(s, c, i);
      SplitJoin(parts[1..], c);
    }
  }

  function TrimStart(s: string): string {
    if s != "" && IsBlank(s[0]) then TrimStart(s[1..]) else s
  }

  function TrimEnd(s: string): string {
    if s != "" && IsBlank(s[|s| - 1]) then TrimEnd(s[..|s| - 1]) else s
  }

  function Trim(s: string): string {
    TrimEnd(TrimStart(s))
  }

  predicate IsTrim(s: string) {
    s != "" ==> !IsBlank(s[0]) && !IsBlank(s[|s| - 1])
  }

  lemma {:induction false} TrimStartBlank(front: string, s: string)
    requires (forall c :: c in front ==> IsBlank(c)) && (s != "" ==> !IsBlank(s[0]))
    ensures TrimStart(front + s) == s
  {
    if front == "" {
      assert front + s == s;
    } else {
      assert (front + s)[1..] == front[1..] + s;
      TrimStartBlank(front[1..], s);
    }
  }

  lemma {:induction false} TrimEndBlank(s: string, back: string)
    requires (forall c :: c in back ==> IsBlank(c)) && (s != "" ==> !IsBlank(s[|s| - 1]))
    ensures TrimEnd(s + back) == s
  {
    if back == "" {
      assert s + back == s;
    } else {
      assert (s + back)[..|s + back| - 1] == s + back[..|back| - 1];
      TrimEndBlank(s, back[..|back| - 1]);
    }
  }

  /** Trimming takes the blanks off both ends and no more. */
  lemma TrimExactly(front: string, s: string, back: string)
    requires IsTrim(s) && forall c :: c in front + back ==> IsBlank(c)
    ensures Trim(front + s + back) == s
  {
    hide IsBlank, TrimStart, TrimEnd;
    assert forall c :: c in front ==> c in front + back;
    assert forall c :: c in back ==> c in front + back;
    if s == "" {
      TrimStartBlank(front + back, "");
      TrimEndBlank("", "");
      assert front + s + back == (front + back) + "" && "" + "" == "";
    } else {
      assert front + s + back == front + (s + back);
      TrimStartBlank(front, s + back);
      TrimEndBlank(s, back);
    }
  }

  lemma TrimIndented(indent: string, s: string)
    requires IsTrim(s) && forall c :: c in indent ==> IsBlank(c)
    ensures Trim(indent + s) == s
  {
    hide *;
    assert indent + s + "" == indent + s && indent + "" == indent;
    TrimExactly(indent, s, "");
  }

  lemma TrimSame(s: string)
    requires IsTrim(s)
    ensures Trim(s) == s
  {
    hide *;
    assert "" + s == s;
    TrimIndented("", s);
  }

  /** `replace` of single characters by nothing. */
  function Without(s: string, drop: set<char>): string {
    if s == "" then "" else (if s[0] in drop then "" else [s[0]]) + Without(s[1..], drop)
  }

  lemma {:induction false} WithoutOnly(s: string, drop: set<char>, c: char)
    ensures c in Without(s, drop) <==> c in s && c !in drop
  {
    if s != "" {
      WithoutOnly(s[1..], drop, c);
      assert s == [s[0]] + s[1..];
    }
  }

  lemma {:induction false} WithoutAppend(a: string, b: string, drop: set<char>)
    ensures Without(a + b, drop) == Without(a, drop) + Without(b, drop)
  {
    if a == "" {
      assert a + b == b;
    } else {
      assert (a + b)[1..] == a[1..] + b;
      WithoutAppend(a[1..], b, drop);
    }
  }

  lemma {:induction false} WithoutNothing(s: string, drop: set<char>)
    ensures Without(s, drop) == s <==> forall c :: c in s ==> c !in drop
  {
    if s != "" {
      WithoutNothing(s[1..], drop);
      assert s == [s[0]] + s[1..];
      if s[0] in drop {
        WithoutShorter(s[1..], drop);
      }
    }
  }

  lemma WithoutShorter(s: string, drop: set<char>)
    ensures |Without(s, drop)| <= |s|
  {
  }
}
