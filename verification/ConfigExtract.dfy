/** Finding the config class and the name of its instance in a macro's code. */
module ConfigExtract {
  import opened Basics
  import opened Text

  datatype Error = Internal | NotFound | BadRequest

  /** A result, or the abort of the thread that asked for it. */
  datatype Outcome<T> = Ok(value: T) | Err(error: Error) | Panic

  datatype ConfigCode = ConfigCode(name: string, definition: string)

  const KEYWORD := "LodestoneConfig"
  const LET := "let"
  const CONST := "const"
  const VAR := "var"

  predicate IsDeclarator(token: string) {
    token == LET || token == CONST || token == VAR
  }

  function Count(s: string, c: char): nat {
    multiset(s)[c]
  }

  lemma CountAppend(a: string, b: string, c: char)
    ensures Count(a + b, c) == Count(a, c) + Count(b, c)
  {
  }

  lemma CountNone(s: string, c: char)
    ensures Count(s, c) == 0 <==> c !in s
  {
  }

  /** As many closing as opening braces, and some. */
  predicate Balanced(s: string) {
    Count(s, '{') == Count(s, '}') > 0
  }

  /** What the brace loop stops at: the first balanced prefix, or the end. */
  predicate IsStop(s: string, end: nat) {
    && end <= |s|
    && (forall i :: 0 <= i < end ==> !Balanced(s[..i]))
    && (Balanced(s[..end]) || end == |s|)
  }

  /** The length of the shortest balanced prefix at or after `from`, or the
      length of the text. */
  function Stop(s: string, from: nat): (end: nat)
    requires from <= |s|
    ensures from <= end <= |s|
    decreases |s| - from
  {
    if from == |s| || Balanced(s[..from]) then from else Stop(s, from + 1)
  }

  lemma {:induction false} StopStops(s: string, from: nat)
    requires from <= |s|
    ensures var end := Stop(s, from);
            (Balanced(s[..end]) || end == |s|) && forall i :: from <= i < end ==> !Balanced(s[..i])
    decreases |s| - from
  {
    hide Balanced;
    if from < |s| && !Balanced(s[..from]) {
      StopStops(s, from + 1);
    }
  }

  lemma {:induction false} StopFrom(s: string, from: nat, end: nat)
    requires from <= end && IsStop(s, end)
    ensures Stop(s, from) == end
    decreases end - from
  {
    hide Balanced;
    if from < end {
      StopFrom(s, from + 1, end);
    }
  }

  lemma StopIs(s: string, end: nat)
    requires IsStop(s, end)
    ensures Stop(s, 0) == end
  {
    StopFrom(s, 0, end);
  }

  lemma CountNothing(s: string)
    ensures Count(s[..0], '{') == Count(s[..0], '}') == 0 && !Balanced(s[..0])
  {
  }

  lemma CountOne(s: string, k: nat)
    requires k < |s|
    ensures Count(s[..k + 1], '{') == Count(s[..k], '{') + if s[k] == '{' then 1 else 0
    ensures Count(s[..k + 1], '}') == Count(s[..k], '}') + if s[k] == '}' then 1 else 0
  {
    assert s[..k + 1] == s[..k] + [s[k]];
  }

  lemma BalancedIf(s: string, k: nat)
    requires k <= |s|
    ensures Balanced(s[..k]) <==> Count(s[..k], '{') == Count(s[..k], '}') > 0
  {
  }

  method FindStop(s: string) returns (opens: nat, closes: nat, end: nat)
    ensures end == Stop(s, 0)
    ensures opens == Count(s[..end], '{') && closes == Count(s[..end], '}')
  {
    hide Balanced, Count;
    opens, closes, end := 0, 0, 0;
    CountNothing(s);
    while end < |s|
      invariant end <= |s|
      invariant opens == Count(s[..end], '{') && closes == Count(s[..end], '}')
      invariant forall i :: 0 <= i <= end ==> !Balanced(s[..i])
    {
      CountOne(s, end);
      if s[end] == '{' {
        opens := opens + 1;
      }
      if s[end] == '}' {
        closes := closes + 1;
      }
      end := end + 1;
      BalancedIf(s, end);
      if opens == closes && opens > 0 {
        break;
      }
    }
    StopIs(s, end);
  }

  /** The last token that declares a variable. */
  function Declarator(tokens: seq<string>): (token: Option<string>)
    ensures token.Some? ==> IsDeclarator(token.value)
  {
    if tokens == [] then None
    else
      var last := tokens[|tokens| - 1];
      if IsDeclarator(last) then Some(last) else Declarator(tokens[..|tokens| - 1])
  }

  /** The name between the last declarator and the colon, spaces removed. */
  function NameIn(compact: string, token: string): Outcome<string>
    requires IsDeclarator(token)
  {
    var found := Matches(compact, token, 0);
    if found == [] then Err(Internal)
    else
      MatchAt(compact, token, 0, |found| - 1);
      var statement := compact[found[|found| - 1]..];
      var colon := Find(statement, ':');
      if colon == |statement| then Err(Internal)
      else
        DeclaratorEnds(compact, token, found[|found| - 1], colon);
        Ok(statement[|token|..colon])
  }

  /** The name declared in the text between the class and the second keyword. */
  function DeclaredName(declaration: string): Outcome<string> {
    var token := Declarator(Split(declaration, ' '));
    if token.None? then Err(Internal) else NameIn(Without(declaration, {' '}), token.value)
  }

  /** The declarator holds no colon, so the name's slice is in range. */
  lemma DeclaratorEnds(s: string, token: string, i: nat, colon: nat)
    requires IsDeclarator(token) && At(s, token, i) && i + colon < |s| && s[i + colon] == ':'
    ensures |token| <= colon
  {
    if colon < |token| {
      AtChar(s, token, i, colon);
    }
  }

  // ---------------------------------------------------------------------
  // The declared name
  // ---------------------------------------------------------------------

  /** Word `k` is the last of the words that declare a variable. */
  predicate IsLastDeclarator(words: seq<string>, k: int) {
    && 0 <= k < |words|
    && (words[k] == "let" || words[k] == "const" || words[k] == "var")
    && forall j :: k < j < |words| ==> words[j] != "let" && words[j] != "const" && words[j] != "var"
  }

  lemma {:induction false} DeclaratorExactly(words: seq<string>)
    ensures Declarator(words).None? <==> forall k :: !IsLastDeclarator(words, k)
    ensures forall k :: IsLastDeclarator(words, k) ==> Declarator(words) == Some(words[k])
  {
    if words != [] {
      var init, n := words[..|words| - 1], |words| - 1;
      DeclaratorExactly(init);
      if IsDeclarator(words[n]) {
        assert IsLastDeclarator(words, n);
      } else {
        assert forall k :: IsLastDeclarator(words, k) <==> IsLastDeclarator(init, k);
      }
    }
  }

  /** The last occurrence of the declarator is at `i`, and the name is what stands
      between it and the next colon. */
  ghost predicate NamesAt(compact: string, token: string, name: string, i: int) {
    At(compact, token + name + ":", i) && ':' !in name && forall j :: i < j ==> !At(compact, token, j)
  }

  /** The name stands behind the last declarator of the text without its spaces,
      which may be a part of another word there. */
  ghost predicate IsDeclaredAs(declaration: string, name: string) {
    exists k :: IsLastDeclarator(Split(declaration, ' '), k)
      && exists i :: NamesAt(Without(declaration, {' '}), Split(declaration, ' ')[k], name, i)
  }

  lemma NamedBehind(compact: string, token: string, name: string, i: nat)
    requires ':' !in token && ':' !in name && At(compact, token + name + ":", i)
    ensures At(compact, token, i)
    ensures Find(compact[i..], ':') == |token| + |name| && compact[i..][|token|..|token| + |name|] == name
    ensures |token| + |name| < |compact[i..]|
  {
    var front := token + name;
    var rest := compact[i..];
    assert compact[i..i + |front| + 1] == front + ":";
    assert rest[..|front| + 1] == front + ":";
    assert rest[..|front|] == front && rest[|front|] == ':';
    FindBehind(rest, ':', |front|);
    assert compact[i..i + |token|] == rest[..|token|] == front[..|token|] == token;
    assert rest[|token|..|front|] == front[|token|..] == name;
  }

  lemma NamedFrom(compact: string, token: string, i: nat, colon: nat)
    requires At(compact, token, i) && |token| <= colon && i + colon < |compact| && compact[i + colon] == ':'
    ensures At(compact, token + compact[i..][|token|..colon] + ":", i)
  {
    var name := compact[i..][|token|..colon];
    assert compact[i..i + colon + 1] == compact[i..i + |token|] + name + ":";
  }

  lemma ReadWhereNamed(compact: string, token: string, name: string, i: int)
    requires IsDeclarator(token) && Unbordered(token) && ':' !in token && NamesAt(compact, token, name, i)
    ensures NameIn(compact, token) == Ok(name)
  {
    var found := Matches(compact, token, 0);
    assert token != "";
    hide Matches, At, Unbordered, Find;
    NotNegative(compact, token + name + ":", i);
    NamedBehind(compact, token, name, i);
    LastMatch(compact, token, 0, i);
    MatchAt(compact, token, 0, |found| - 1);
  }

  lemma NameInIs(compact: string, token: string, last: nat, colon: nat)
    requires IsDeclarator(token)
    requires var found := Matches(compact, token, 0); found != [] && found[|found| - 1] == last
    requires last + |token| <= last + colon < |compact| && Find(compact[last..], ':') == colon
    ensures NameIn(compact, token) == Ok(compact[last..][|token|..colon])
  {
    hide Matches, Find, IsDeclarator;
  }

  lemma ColonFound(compact: string, token: string)
    requires IsDeclarator(token) && NameIn(compact, token).Ok?
    ensures var found := Matches(compact, token, 0);
            && found != [] && found[|found| - 1] <= |compact|
            && Find(compact[found[|found| - 1]..], ':') < |compact| - found[|found| - 1]
  {
    hide Matches, At, Find;
  }

  lemma ColonAt(s: string, i: nat)
    requires i <= |s| && Find(s[i..], ':') < |s| - i
    ensures s[i + Find(s[i..], ':')] == ':'
  {
    hide Find;
  }

  /** What is read, from the place of the last declarator and of the colon behind
      it. */
  lemma ReadBetween(compact: string, token: string) returns (last: nat, colon: nat)
    requires IsDeclarator(token) && NameIn(compact, token).Ok?
    ensures var found := Matches(compact, token, 0); found != [] && found[|found| - 1] == last
    ensures last <= |compact| && colon == Find(compact[last..], ':') < |compact[last..]|
    ensures |token| <= colon && NameIn(compact, token).value == compact[last..][|token|..colon]
  {
    hide *;
    DeclaratorFacts(token);
    ColonFound(compact, token);
    var found := Matches(compact, token, 0);
    last := found[|found| - 1];
    colon := Find(compact[last..], ':');
    MatchAt(compact, token, 0, |found| - 1);
    ColonAt(compact, last);
    DeclaratorEnds(compact, token, last, colon);
    NameInIs(compact, token, last, colon);
  }

  lemma NoColonBefore(s: string, from: nat)
    requires from <= Find(s, ':')
    ensures ':' !in s[from..Find(s, ':')]
  {
  }

  lemma AreNames(compact: string, token: string, name: string, i: int)
    requires At(compact, token + name + ":", i) && ':' !in name && forall j :: i < j ==> !At(compact, token, j)
    ensures NamesAt(compact, token, name, i)
  {
  }

  lemma NamedWhereRead(compact: string, token: string) returns (i: int)
    requires IsDeclarator(token) && Unbordered(token) && ':' !in token && NameIn(compact, token).Ok?
    ensures NamesAt(compact, token, NameIn(compact, token).value, i)
  {
    hide *;
    var last, colon := ReadBetween(compact, token);
    NoneLater(compact, token);
    MatchAt(compact, token, 0, |Matches(compact, token, 0)| - 1);
    NamedFrom(compact, token, last, colon);
    NoColonBefore(compact[last..], |token|);
    AreNames(compact, token, NameIn(compact, token).value, last);
    i := last;
  }

  lemma NoneLater(compact: string, token: string)
    requires Unbordered(token)
    ensures token != ""
    ensures var found := Matches(compact, token, 0);
            found != [] ==> forall j :: found[|found| - 1] < j ==> !At(compact, token, j)
  {
    hide Matches, At;
    var found := Matches(compact, token, 0);
    if found != [] {
      forall j | found[|found| - 1] < j ensures !At(compact, token, j) {
        if At(compact, token, j) {
          LastMatch(compact, token, 0, j);
        }
      }
    }
  }

  lemma NameInExactly(compact: string, token: string, name: string)
    requires IsDeclarator(token) && Unbordered(token) && ':' !in token
    ensures NameIn(compact, token) == Ok(name) <==> exists i :: NamesAt(compact, token, name, i)
    ensures NameIn(compact, token).Ok? || NameIn(compact, token) == Err(Internal)
  {
    NoOtherError(compact, token);
    hide *;
    if exists i :: NamesAt(compact, token, name, i) {
      var i :| NamesAt(compact, token, name, i);
      ReadWhereNamed(compact, token, name, i);
    }
    if NameIn(compact, token) == Ok(name) {
      var i := NamedWhereRead(compact, token);
    }
  }

  lemma NoOtherError(compact: string, token: string)
    requires IsDeclarator(token)
    ensures NameIn(compact, token).Ok? || NameIn(compact, token) == Err(Internal)
  {
    hide Matches, Find;
  }

  lemma NotNegative(s: string, pat: string, i: int)
    requires At(s, pat, i)
    ensures i >= 0
  {
  }

  /** Exactly such a name is read, and without one there is an `Internal` error. */
  lemma NameExactly(declaration: string, name: string)
    ensures DeclaredName(declaration) == Ok(name) <==> IsDeclaredAs(declaration, name)
    ensures DeclaredName(declaration).Ok? || DeclaredName(declaration) == Err(Internal)
  {
    var words, compact := Split(declaration, ' '), Without(declaration, {' '});
    DeclaratorExactly(words);
    hide Split, Without, Declarator, NameIn, IsLastDeclarator, NamesAt, Unbordered;
    var token := Declarator(words);
    if token.Some? {
      DeclaratorFacts(token.value);
      NameInExactly(compact, token.value, name);
    }
  }

  lemma DeclaratorFacts(token: string)
    requires IsDeclarator(token)
    ensures Unbordered(token) && token != "" && ':' !in token && ' ' !in token && token[0] !in KEYWORD
  {
  }

  lemma MatchesAscend(s: string, pat: string, from: nat)
    requires pat != ""
    ensures var found := Matches(s, pat, from); |found| >= 2 ==> found[0] < found[1] <= |s| - |pat|
    decreases |s| - from
  {
    if from + |pat| <= |s| && !At(s, pat, from) {
      MatchesAscend(s, pat, from + 1);
    }
  }

  /** With as many closing as opening braces before the stop, the first opening
      one is before it or nowhere. */
  lemma StartsBefore(s: string, end: nat)
    requires end == Stop(s, 0) && Count(s[..end], '{') == Count(s[..end], '}')
    ensures Find(s, '{') < |s| ==> Find(s, '{') <= end
  {
    StopStops(s, 0);
    if end < |s| {
      assert '{' in s[..end];
    }
  }

  /** The definition and the name in the text from the class on, whose second
      keyword ends at `second`. */
  function ExtractedFrom(config: string, second: nat): Outcome<ConfigCode>
    requires second <= |config|
  {
    var end := Stop(config, 0);
    if end == 0 || Count(config[..end], '{') != Count(config[..end], '}') then Err(Internal)
    else if second < end then Panic
    else
      var name := DeclaredName(config[end..second]);
      var start := Find(config, '{');
      if !name.Ok? || start == |config| then Err(Internal)
      else
        StartsBefore(config, end);
        Ok(ConfigCode(name.value, config[start..end]))
  }

  function Lifted(r: Outcome<ConfigCode>): (lifted: Outcome<Option<ConfigCode>>)
    ensures lifted.Ok? <==> r.Ok?
    ensures lifted.Ok? ==> lifted.value.Some? && lifted.value.value == r.value
    ensures lifted.Panic? <==> r.Panic?
    ensures lifted.Err? ==> lifted.error == r.error
  {
    if r.Ok? then Ok(Some(r.value)) else if r.Err? then Err(r.error) else Panic
  }

  /** The first two keywords follow each other in the code. */
  predicate InOrder(code: string, found: seq<nat>) {
    |found| >= 2 ==> found[0] < found[1] && found[1] + |KEYWORD| <= |code|
  }

  function ExtractedAt(code: string, found: seq<nat>): Outcome<Option<ConfigCode>>
    requires InOrder(code, found)
  {
    if found == [] then Ok(None)
    else if |found| < 2 then Err(Internal)
    else Lifted(ExtractedFrom(code[found[0]..], found[1] - found[0] + |KEYWORD|))
  }

  /** `extract_config_code`. */
  function Extracted(code: string): Outcome<Option<ConfigCode>> {
    MatchesAscend(code, KEYWORD, 0);
    ExtractedAt(code, Matches(code, KEYWORD, 0))
  }

  method ExtractFrom(config: string, second: nat) returns (r: Outcome<ConfigCode>)
    requires second <= |config|
    ensures r == ExtractedFrom(config, second)
  {
    hide Stop, Count, Find, DeclaredName;
    var opens, closes, end := FindStop(config);
    if end == 0 || opens != closes {
      return Err(Internal);
    }
    if second < end {
      return Panic;
    }
    var name := DeclaredName(config[end..second]);
    if !name.Ok? {
      return Err(Internal);
    }
    var start := Find(config, '{');
    if start == |config| {
      return Err(Internal);
    }
    StartsBefore(config, end);
    return Ok(ConfigCode(name.value, config[start..end]));
  }

  method Extract(code: string) returns (r: Outcome<Option<ConfigCode>>)
    ensures r == Extracted(code)
  {
    hide Matches, ExtractedFrom, Lifted, At;
    var found := Matches(code, KEYWORD, 0);
    if found == [] {
      return Ok(None);
    }
    if |found| < 2 {
      return Err(Internal);
    }
    MatchesAscend(code, KEYWORD, 0);
    var part := ExtractFrom(code[found[0]..], found[1] - found[0] + |KEYWORD|);
    r := Lifted(part);
  }

  /** A class body: closed by its last character and not before. */
  predicate IsBlock(s: string) {
    && s != "" && s[0] == '{'
    && Balanced(s)
    && forall k :: 0 < k < |s| ==> Count(s[..k], '{') > Count(s[..k], '}')
  }

  /** From the first opening brace to the stop, the opening braces lead. */
  lemma {:induction false} OpensLead(s: string, k: nat)
    requires Find(s, '{') < k < Stop(s, 0) && '}' !in s[..Find(s, '{')]
    ensures Count(s[..k], '{') > Count(s[..k], '}')
  {
    StopStops(s, 0);
    var start := Find(s, '{');
    assert s[..k] == s[..k - 1] + [s[k - 1]];
    assert !Balanced(s[..k]);
    if start + 1 == k {
      assert '}' !in s[..start];
    } else {
      OpensLead(s, k - 1);
    }
  }

  lemma AtOwnPlace(s: string, start: nat, end: nat)
    requires start <= end <= |s|
    ensures At(s, s[start..end], start)
  {
  }

  lemma CutOut(config: string, second: nat)
    requires second <= |config| && ExtractedFrom(config, second).Ok?
    ensures var start, end := Find(config, '{'), Stop(config, 0);
            && start < |config| && start <= end <= second
            && Count(config[..end], '{') == Count(config[..end], '}')
            && ExtractedFrom(config, second).value.definition == config[start..end]
  {
    hide DeclaredName, Find, Stop, Count;
    StartsBefore(config, Stop(config, 0));
  }

  /** The definition is cut out of the text where the first opening brace
      stands. It is the shortest balanced block exactly if no closing brace comes
      before that. */
  lemma ExtractsABlock(config: string, second: nat)
    requires second <= |config| && ExtractedFrom(config, second).Ok?
    ensures var block := ExtractedFrom(config, second).value.definition;
            && At(config, block, Find(config, '{'))
            && (IsBlock(block) <==> '}' !in config[..Find(config, '{')])
  {
    var start, end := Find(config, '{'), Stop(config, 0);
    hide *;
    CutOut(config, second);
    AtOwnPlace(config, start, end);
    if '}' !in config[..start] {
      BlockStops(config, start, end);
    } else {
      NoBlockStops(config, start, end);
    }
  }

  /** Nothing is extracted, without an error, exactly from code that does not
      hold the keyword. */
  lemma NothingToExtract(code: string)
    ensures Extracted(code) == Ok(None) <==> !Contains(code, "LodestoneConfig")
  {
    assert KEYWORD != "" && KEYWORD == "LodestoneConfig";
    hide Matches, ExtractedFrom, Contains, KEYWORD, At;
    MatchesIfContained(code, KEYWORD);
  }

  lemma NoBlockBehind(front: string, block: string)
    requires '{' !in front && '}' in front
    requires Count(front + block, '{') == Count(front + block, '}')
    ensures !IsBlock(block)
  {
    CountNone(front, '{');
    CountNone(front, '}');
    hide Count;
    CountAppend(front, block, '{');
    CountAppend(front, block, '}');
  }

  lemma FrontHasNone(s: string, c: char)
    ensures c !in s[..Find(s, c)]
  {
  }

  lemma CutTwice(s: string, start: nat, end: nat)
    requires start <= end <= |s|
    ensures s[..end] == s[..start] + s[start..end]
  {
  }

  lemma NoBlockStops(s: string, start: nat, end: nat)
    requires start == Find(s, '{') <= end <= |s| && '}' in s[..start]
    requires Count(s[..end], '{') == Count(s[..end], '}')
    ensures !IsBlock(s[start..end])
  {
    hide *;
    FrontHasNone(s, '{');
    CutTwice(s, start, end);
    NoBlockBehind(s[..start], s[start..end]);
  }

  /** Text without braces in front adds nothing to the counts. */
  lemma CountBehind(a: string, b: string)
    requires '{' !in a && '}' !in a
    ensures Count(a + b, '{') == Count(b, '{') && Count(a + b, '}') == Count(b, '}')
  {
    CountAppend(a, b, '{');
    CountAppend(a, b, '}');
  }

  lemma BlockLeads(s: string, start: nat, end: nat, k: nat)
    requires start == Find(s, '{') <= end == Stop(s, 0) && '}' !in s[..start] && 0 < k < end - start
    ensures Count(s[start..end][..k], '{') > Count(s[start..end][..k], '}')
  {
    hide *;
    OpensLead(s, start + k);
    assert s[..start + k] == s[..start] + s[start..end][..k];
    CountBehind(s[..start], s[start..end][..k]);
  }

  lemma BlockBehind(front: string, block: string)
    requires '{' !in front && '}' !in front && '{' in block
    requires Count(front + block, '{') == Count(front + block, '}')
    ensures Balanced(block)
  {
    CountNone(block, '{');
    hide Count;
    CountBehind(front, block);
  }

  lemma StartsBeforeStop(s: string)
    requires Find(s, '{') < |s| && '}' !in s[..Find(s, '{')]
    ensures Find(s, '{') < Stop(s, 0) || Stop(s, 0) < Find(s, '{')
  {
    var start := Find(s, '{');
    StopStops(s, 0);
    assert '{' !in s[..start];
    hide Find, Stop;
    CountNone(s[..start], '{');
  }

  lemma InCut(s: string, start: nat, end: nat)
    requires start < end <= |s|
    ensures s[start] in s[start..end]
  {
    assert s[start..end][0] == s[start];
  }

  lemma BlockBalances(s: string, start: nat, end: nat)
    requires start == Find(s, '{') <= end == Stop(s, 0) && start < |s| && '}' !in s[..start]
    requires Count(s[..end], '{') == Count(s[..end], '}')
    ensures start < end && Balanced(s[start..end])
  {
    hide *;
    FrontHasNone(s, '{');
    StartsBeforeStop(s);
    CutTwice(s, start, end);
    InCut(s, start, end);
    BlockBehind(s[..start], s[start..end]);
  }

  lemma BlockStops(s: string, start: nat, end: nat)
    requires start == Find(s, '{') <= end == Stop(s, 0) && start < |s| && '}' !in s[..start]
    requires Count(s[..end], '{') == Count(s[..end], '}')
    ensures IsBlock(s[start..end])
  {
    hide Find, Stop, Count, Balanced;
    BlockBalances(s, start, end);
    forall k | 0 < k < end - start
      ensures Count(s[start..end][..k], '{') > Count(s[start..end][..k], '}')
    {
      BlockLeads(s, start, end, k);
    }
  }

  /** The shortest balanced prefix, if it ends before `second`. */
  ghost predicate IsFirstBalanced(config: string, end: int, second: nat) {
    && 0 <= end <= second && end <= |config| && Balanced(config[..end])
    && forall i :: 0 <= i < end ==> !Balanced(config[..i])
  }

  lemma FirstIsStop(config: string, end: nat, second: nat)
    requires IsFirstBalanced(config, end, second)
    ensures end <= |config| && end == Stop(config, 0) && end > 0 && Find(config, '{') < |config|
    ensures Count(config[..end], '{') == Count(config[..end], '}')
  {
    StopIs(config, end);
    CountNone(config[..end], '{');
    CountNothing(config);
    hide Stop;
    assert '{' in config[..end];
  }

  lemma NoFirstBalanced(config: string, second: nat)
    requires second <= |config| && forall end :: !IsFirstBalanced(config, end, second)
    ensures ExtractedFrom(config, second) == Err(Internal) || ExtractedFrom(config, second) == Panic
  {
    var end := Stop(config, 0);
    StopStops(config, 0);
    hide DeclaredName, Stop, Find;
    if end <= second {
      assert !IsFirstBalanced(config, end, second);
      assert end == |config|;
      CountNone(config[..end], '{');
      assert config[..end] == config;
      if Find(config, '{') < |config| {
        assert '{' in config;
      }
    }
  }

  /** The text from the class on gives a definition exactly if its shortest
      balanced prefix ends before the second keyword does and a name is declared
      between the two; it gives that name. What neither does so nor aborts is an
      `Internal` error. */
  lemma ExtractsExactly(config: string, second: nat, name: string)
    requires second <= |config|
    ensures var r := ExtractedFrom(config, second);
            && (r.Ok? && r.value.name == name
                <==> exists end :: IsFirstBalanced(config, end, second) && IsDeclaredAs(config[end..second], name))
            && (r.Err? ==> r.error == Internal)
  {
    hide *;
    if end :| IsFirstBalanced(config, end, second) {
      FirstUnfolds(config, end, second);
      FirstIsStop(config, end, second);
      NameExactly(config[end..second], name);
      FromFirst(config, end, second);
      OnlyOneFirst(config, end, second);
    } else {
      NoFirstBalanced(config, second);
    }
  }

  lemma FirstUnfolds(config: string, end: int, second: nat)
    requires IsFirstBalanced(config, end, second)
    ensures 0 <= end <= second && end <= |config|
  {
  }

  lemma OnlyOneFirst(config: string, end: nat, second: nat)
    requires IsFirstBalanced(config, end, second)
    ensures forall other :: IsFirstBalanced(config, other, second) ==> other == end
  {
    hide Balanced;
  }

  lemma FromFirst(config: string, end: nat, second: nat)
    requires 0 < end == Stop(config, 0) && end <= second <= |config| && Find(config, '{') < |config|
    requires Count(config[..end], '{') == Count(config[..end], '}')
    ensures var r, declared := ExtractedFrom(config, second), DeclaredName(config[end..second]);
            if declared.Ok? then r.Ok? && r.value.name == declared.value else r == Err(Internal)
  {
    hide Stop, Find, Count, DeclaredName;
  }

  /** The class block is complete only after the second keyword, which ends at
      `second`; or there are no braces at all and the text goes on. */
  ghost predicate BlockEndsLate(config: string, second: nat) {
    && (forall i :: 0 <= i <= second && i <= |config| ==> !Balanced(config[..i]))
    && ((exists i :: 0 <= i <= |config| && Balanced(config[..i]))
        || ('{' !in config && '}' !in config && second < |config|))
  }

  /** Extraction aborts exactly if the class block ends late. */
  lemma PanicsExactly(config: string, second: nat)
    requires second <= |config|
    ensures ExtractedFrom(config, second) == Panic <==> BlockEndsLate(config, second)
  {
    var end := Stop(config, 0);
    StopStops(config, 0);
    hide DeclaredName, Find, Stop;
    assert config[..|config|] == config;
    if second < end {
      assert forall i :: 0 <= i <= second ==> !Balanced(config[..i]);
    }
  }

  /** The first two places of the keyword. */
  ghost predicate AreFirstTwo(code: string, at: nat, again: nat) {
    && at < again && At(code, KEYWORD, at) && At(code, KEYWORD, again)
    && forall i :: 0 <= i < again && i != at ==> !At(code, KEYWORD, i)
  }

  lemma FirstTwoMatch(code: string, at: nat, again: nat)
    requires AreFirstTwo(code, at, again)
    ensures var found := Matches(code, KEYWORD, 0); |found| >= 2 && found[0] == at && found[1] == again
    ensures at < again && again + |KEYWORD| <= |code|
  {
    KeywordIsPlain();
    AtFits(code, KEYWORD, again);
    hide At, Matches, KEYWORD, Unbordered;
    AtApart(code, KEYWORD, at, again);
    FirstMatch(code, KEYWORD, 0, at);
    FirstMatch(code, KEYWORD, at + |KEYWORD|, again);
  }

  lemma OneMatch(code: string, at: nat)
    requires At(code, KEYWORD, at) && forall i :: 0 <= i && i != at ==> !At(code, KEYWORD, i)
    ensures Matches(code, KEYWORD, 0) == [at]
  {
    assert KEYWORD != "";
    hide At, Matches, KEYWORD;
    FirstMatch(code, KEYWORD, 0, at);
    var rest := Matches(code, KEYWORD, at + |KEYWORD|);
    if rest != [] {
      MatchAt(code, KEYWORD, at + |KEYWORD|, 0);
    }
  }

  /** Code with two keywords gives what the text from the first one on gives, and
      extraction aborts exactly if the class block there ends late. */
  lemma CodeExactly(code: string, at: nat, again: nat)
    requires AreFirstTwo(code, at, again)
    ensures at < again && again + |KEYWORD| <= |code|
    ensures var r, part := Extracted(code), ExtractedFrom(code[at..], again - at + |KEYWORD|);
            && (r == Panic <==> BlockEndsLate(code[at..], again - at + |KEYWORD|))
            && (r.Ok? <==> part.Ok?) && (r.Ok? ==> r.value == Some(part.value))
            && (r.Err? ==> r.error == Internal)
  {
    hide *;
    FirstTwoMatch(code, at, again);
    PanicsExactly(code[at..], again - at + |KEYWORD|);
    ExtractsExactly(code[at..], again - at + |KEYWORD|, "");
    FromTwo(code, at, again);
  }

  lemma FromTwo(code: string, at: nat, again: nat)
    requires var found := Matches(code, KEYWORD, 0); |found| >= 2 && found[0] == at && found[1] == again
    requires at < again && again + |KEYWORD| <= |code|
    ensures Extracted(code) == Lifted(ExtractedFrom(code[at..], again - at + |KEYWORD|))
  {
    hide Matches, ExtractedFrom, Lifted;
  }

  /** Code with one keyword is an error. */
  lemma OneKeyword(code: string, at: nat)
    requires At(code, KEYWORD, at) && forall i :: 0 <= i && i != at ==> !At(code, KEYWORD, i)
    ensures Extracted(code) == Err(Internal)
  {
    OneMatch(code, at);
    hide Matches, ExtractedFrom;
  }

  lemma NotClosed(s: string)
    requires '}' !in s
    ensures !Balanced(s)
  {
    CountNone(s, '}');
  }

  lemma ClosedLate(w: string)
    requires '{' !in w && '}' !in w
    ensures BlockEndsLate(w + "{" + w + "}", |w| + 1 + |w|)
  {
    var open := w + "{" + w;
    var code := open + "}";
    assert '}' !in open;
    assert Balanced(code);
    assert code[..|code|] == code;
    hide Balanced;
    forall i | 0 <= i <= |open|
      ensures !Balanced(code[..i])
    {
      assert code[..i] == open[..i];
      NotClosed(open[..i]);
    }
  }

  lemma TwiceIn(w: string)
    requires Unbordered(w) && !Contains("", w) && !Contains("{", w)
    ensures var found := Matches(w + "{" + w + "}", w, 0); |found| >= 2 && found[0] == 0 && found[1] == |w| + 1
  {
    hide *;
    assert "" + w + "{" + w + "}" == w + "{" + w + "}";
    TwoMatches("", "{", "}", w);
  }

  lemma PanicsFromStart(code: string, found: seq<nat>)
    requires InOrder(code, found) && |found| >= 2 && found[0] == 0
    requires BlockEndsLate(code, found[1] + |KEYWORD|)
    ensures ExtractedAt(code, found) == Panic
  {
    hide ExtractedFrom, BlockEndsLate;
    PanicsExactly(code, found[1] + |KEYWORD|);
    assert code[0..] == code;
  }

  lemma KeywordIsPlain()
    ensures '{' !in KEYWORD && '}' !in KEYWORD && Unbordered(KEYWORD)
    ensures !Contains("", KEYWORD) && !Contains("{", KEYWORD)
  {
    HeadElsewhere("", KEYWORD);
    HeadElsewhere("{", KEYWORD);
  }

  /** A second keyword inside the block: extraction aborts. */
  lemma PanicAtAnExample()
    ensures Extracted(KEYWORD + "{" + KEYWORD + "}") == Panic
  {
    var code := KEYWORD + "{" + KEYWORD + "}";
    MatchesAscend(code, KEYWORD, 0);
    hide Matches, KEYWORD, BlockEndsLate, ExtractedAt;
    KeywordIsPlain();
    TwiceIn(KEYWORD);
    ClosedLate(KEYWORD);
    PanicsFromStart(code, Matches(code, KEYWORD, 0));
  }
}
