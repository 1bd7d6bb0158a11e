/** When reading the config of a macro aborts the thread instead of returning an
    error: its causes, and that there are no others. */
module ConfigAborts {
  import opened Basics
  import opened Text
  import opened ByteSlices
  import opened ConfigExtract
  import opened ConfigScan
  import opened ConfigSettings
  import opened ConfigWriter
  import opened DefinitionReading
  import ConfigRoundTrip

  // ---------------------------------------------------------------------
  // One definition
  // ---------------------------------------------------------------------

  /** The first option that is not in quotes is torn. */
  ghost predicate TornFirst(texts: seq<string>) {
    exists k :: 0 <= k < |texts| && IsTorn(texts[k]) && AllQuoted(texts[..k])
  }

  lemma {:induction false} OptionsExactly(texts: seq<string>)
    ensures OptionsOf(texts).Ok? <==> AllQuoted(texts)
    ensures OptionsOf(texts) == Panic <==> TornFirst(texts)
  {
    if texts != [] {
      var init, last := texts[..|texts| - 1], texts[|texts| - 1];
      OptionsExactly(init);
      OptionExactly(last);
      hide OptionOf, IsQuoted, IsTorn, AllQuoted, TornFirst;
      AllOneMore(init, last);
      FirstOneMore(init, last);
      assert texts == init + [last];
    }
  }

  lemma AllOneMore(texts: seq<string>, last: string)
    ensures AllQuoted(texts + [last]) <==> AllQuoted(texts) && IsQuoted(last)
  {
    hide IsQuoted;
    if AllQuoted(texts + [last]) {
      assert (texts + [last])[|texts|] == last;
      assert forall k :: 0 <= k < |texts| ==> (texts + [last])[k] == texts[k];
    }
  }

  lemma FirstOneMore(texts: seq<string>, last: string)
    ensures TornFirst(texts + [last]) <==> TornFirst(texts) || (AllQuoted(texts) && IsTorn(last))
  {
    var all := texts + [last];
    assert forall k :: 0 <= k <= |texts| ==> all[..k] == texts[..k];
    assert all[|texts|] == last && texts[..|texts|] == texts;
    hide IsTorn, AllQuoted;
    if TornFirst(texts) {
      var k :| 0 <= k < |texts| && IsTorn(texts[k]) && AllQuoted(texts[..k]);
      assert IsTorn(all[k]) && AllQuoted(all[..k]);
    }
  }

  lemma NotQuoted(text: string)
    requires '\'' !in text && '"' !in text
    ensures !AllQuoted([text]) && !TornFirst([text])
  {
    assert !IsQuoted([text][0]);
  }

  /** The named types are not in quotes. */
  lemma NamedKind(text: string)
    requires text == "string" || text == "boolean" || text == "number"
    ensures !AllQuoted(Split(text, '|')) && !TornFirst(Split(text, '|'))
  {
    hide Split, AllQuoted, TornFirst;
    SplitNone(text, '|');
    NotQuoted(text);
  }

  /** Reading the type aborts. */
  ghost predicate TypeAborts(typeText: string) {
    TornFirst(Split(typeText, '|'))
  }

  /** The default of such a type must be in quotes. */
  ghost predicate TakesQuotes(typeText: string) {
    typeText == "string" || AllQuoted(Split(typeText, '|'))
  }

  lemma KindExactly(typeText: string)
    ensures KindOf(typeText) == Panic <==> TypeAborts(typeText)
    ensures TakesQuotes(typeText)
            <==> KindOf(typeText).Ok? && (KindOf(typeText).value.Text? || KindOf(typeText).value.Choice?)
  {
    hide OptionsOf, Split, AllQuoted, TornFirst;
    if typeText == "string" || typeText == "boolean" || typeText == "number" {
      NamedKind(typeText);
    }
    OptionsExactly(Split(typeText, '|'));
  }

  /** An option or a default cannot lose two quotes. */
  ghost predicate CutAborts(cut: Cut) {
    TypeAborts(cut.typeText) || (TakesQuotes(cut.typeText) && cut.default.Some? && !HasEnds(cut.default.value))
  }

  ghost predicate DefinitionAborts(definition: string) {
    || HasWideMark(Trim(definition))
    || exists cut :: IsReading(Trim(definition), cut) && CutAborts(cut)
  }

  lemma CutExactly(definition: string, cut: Cut, description: string, prefix: string,
                   isNumber: string -> bool)
    requires IsReading(Trim(definition), cut)
    ensures SettingOf(definition, description, prefix, isNumber) == Panic <==> CutAborts(cut)
  {
    hide KindOf, SettingOf, IsReading, Trim, TypeAborts, TakesQuotes;
    KindExactly(cut.typeText);
    if KindOf(cut.typeText).Ok? {
      ReadExactly(definition, cut, description, prefix, isNumber);
    } else {
      TypeNotRead(definition, cut, description, prefix, isNumber);
    }
  }

  /** Reading a definition aborts exactly if it has a wide character behind the
      question mark, or a text in place of a quoted one that cannot lose two
      quotes. */
  lemma DefinitionExactly(definition: string, description: string, prefix: string, isNumber: string -> bool)
    ensures SettingOf(definition, description, prefix, isNumber) == Panic <==> DefinitionAborts(definition)
  {
    hide Trim, SettingOf, IsReading, HasWideMark, CutAborts;
    NothingToRead(definition, description, prefix, isNumber);
    if cut :| IsReading(Trim(definition), cut) && CutAborts(cut) {
      CutExactly(definition, cut, description, prefix, isNumber);
    } else if cut :| IsReading(Trim(definition), cut) {
      CutExactly(definition, cut, description, prefix, isNumber);
    }
  }

  // ---------------------------------------------------------------------
  // The definitions of a class
  // ---------------------------------------------------------------------

  /** The first definition that is not read is one that aborts. */
  ghost predicate DefinitionsAbort(codes: seq<string>, comments: seq<string>, prefix: string,
                                   isNumber: string -> bool)
    requires |codes| == |comments|
  {
    exists k :: 0 <= k < |codes| && DefinitionAborts(codes[k])
      && forall j :: 0 <= j < k ==> SettingOf(codes[j], comments[j], prefix, isNumber).Ok?
  }

  lemma {:induction false} SettingsExactly(codes: seq<string>, comments: seq<string>, prefix: string,
                                           isNumber: string -> bool)
    requires |codes| == |comments|
    ensures var r := SettingsOf(codes, comments, prefix, isNumber);
            && (r == Panic <==> DefinitionsAbort(codes, comments, prefix, isNumber))
            && (r.Ok? <==> forall j :: 0 <= j < |codes| ==> SettingOf(codes[j], comments[j], prefix, isNumber).Ok?)
  {
    hide SettingOf, DefinitionAborts, Inserted;
    if codes != [] {
      var n := |codes| - 1;
      SettingsExactly(codes[..n], comments[..n], prefix, isNumber);
      DefinitionExactly(codes[n], comments[n], prefix, isNumber);
    }
  }

  /** The definitions between the braces abort. */
  ghost predicate BodyAborts(prefix: string, definition: string, isNumber: string -> bool) {
    HasEnds(definition) &&
    var lines := Split(definition[1..|definition| - 1], '\n');
    DepthAndLengths(lines);
    DefinitionsAbort(Scanned(lines).codes, Scanned(lines).comments, prefix, isNumber)
  }

  lemma ClassExactly(prefix: string, definition: string, isNumber: string -> bool)
    ensures ConfigOf(prefix, definition, isNumber) == Panic
            <==> !HasEnds(definition) || BodyAborts(prefix, definition, isNumber)
  {
    hide SettingsOf, DefinitionsAbort, Split, Scanned, Inside;
    InsideExactly(definition);
    if HasEnds(definition) {
      var lines := Split(definition[1..|definition| - 1], '\n');
      DepthAndLengths(lines);
      SettingsExactly(Scanned(lines).codes, Scanned(lines).comments, prefix, isNumber);
    }
  }

  // ---------------------------------------------------------------------
  // The whole macro
  // ---------------------------------------------------------------------

  /** The extracted class is a lone brace exactly if one closing brace stands
      before the first opening one. */
  lemma LoneBraceExactly(config: string, second: nat)
    requires second <= |config| && ExtractedFrom(config, second).Ok?
    ensures HasEnds(ExtractedFrom(config, second).value.definition) <==> Count(config[..Find(config, '{')], '}') != 1
  {
    var start, end := Find(config, '{'), Stop(config, 0);
    hide *;
    CutOut(config, second);
    FrontHasNone(config, '{');
    LoneBrace(config, start, end);
    StopsAtBrace(config, start, end);
    EndsOfCut(config, start, end);
  }

  lemma LoneBrace(s: string, start: nat, end: nat)
    requires start < |s| && s[start] == '{' && '{' !in s[..start] && start <= end == Stop(s, 0)
    requires Count(s[..end], '{') == Count(s[..end], '}')
    ensures start < end && (end - start < 2 <==> Count(s[..start], '}') == 1)
  {
    assert s[..start + 1] == s[..start] + [s[start]];
    CountNone(s[..start], '{');
    CountAppend(s[..start], "{", '{');
    CountAppend(s[..start], "{", '}');
    StopStops(s, 0);
    hide Stop;
  }

  /** Where the brace loop stops with as many braces of either kind, the last
      one it counted is a brace. */
  lemma StopsAtBrace(s: string, start: nat, end: nat)
    requires start < end == Stop(s, 0) && s[start] == '{' && Count(s[..end], '{') == Count(s[..end], '}')
    ensures s[end - 1] == '{' || s[end - 1] == '}'
  {
    StopStops(s, 0);
    CountOne(s, end - 1);
    BraceIn(s, start, end);
    CountNone(s[..end], '{');
    BalancedIf(s, end);
    BalancedIf(s, end - 1);
    hide Stop, Balanced, Count;
  }

  lemma BraceIn(s: string, k: nat, end: nat)
    requires k < end <= |s|
    ensures s[k] in s[..end]
  {
    assert s[..end][k] == s[k];
  }

  lemma EndsOfCut(s: string, start: nat, end: nat)
    requires start < end <= |s| && s[start] == '{' && (s[end - 1] == '{' || s[end - 1] == '}')
    ensures HasEnds(s[start..end]) <==> end - start >= 2
  {
  }

  /** In the text from the class on, the class block ends after the second
      keyword, which ends at `second`; or a class is extracted, and one closing
      brace stands before the first opening one, or the first definition that is
      not read aborts. */
  ghost predicate AbortsFrom(config: string, second: nat, isNumber: string -> bool)
    requires second <= |config|
  {
    var extracted := ExtractedFrom(config, second);
    || BlockEndsLate(config, second)
    || (extracted.Ok?
        && (Count(config[..Find(config, '{')], '}') == 1
            || BodyAborts(extracted.value.name, extracted.value.definition, isNumber)))
  }

  lemma AbortsFromExactly(config: string, second: nat, isNumber: string -> bool)
    requires second <= |config|
    ensures var r := ExtractedFrom(config, second);
            AbortsFrom(config, second, isNumber)
            <==> r.Panic? || (r.Ok? && ConfigOf(r.value.name, r.value.definition, isNumber).Panic?)
  {
    hide BlockEndsLate, ExtractedFrom, ConfigOf, BodyAborts, Count, Find;
    PanicsExactly(config, second);
    var extracted := ExtractedFrom(config, second);
    if extracted.Ok? {
      ClassExactly(extracted.value.name, extracted.value.definition, isNumber);
      LoneBraceExactly(config, second);
    }
  }

  /** The keyword is found twice, and the code aborts from the first one on. */
  ghost predicate AbortsAt(code: string, found: seq<nat>, isNumber: string -> bool)
    requires InOrder(code, found)
  {
    |found| >= 2 && AbortsFrom(code[found[0]..], found[1] - found[0] + |KEYWORD|, isNumber)
  }

  ghost predicate Aborts(code: string, isNumber: string -> bool) {
    MatchesAscend(code, KEYWORD, 0);
    AbortsAt(code, Matches(code, KEYWORD, 0), isNumber)
  }

  lemma AbortsAtExactly(code: string, found: seq<nat>, isNumber: string -> bool)
    requires InOrder(code, found)
    ensures ConfigIn(ExtractedAt(code, found), isNumber) == Panic <==> AbortsAt(code, found, isNumber)
  {
    hide ExtractedFrom, ConfigOf, AbortsFrom;
    if |found| >= 2 {
      AbortsFromExactly(code[found[0]..], found[1] - found[0] + |KEYWORD|, isNumber);
    }
  }

  /** Reading the config of a macro aborts exactly in these ways. */
  lemma AbortsExactly(code: string, isNumber: string -> bool)
    ensures Manifest(code, isNumber) == Panic <==> Aborts(code, isNumber)
  {
    MatchesAscend(code, KEYWORD, 0);
    hide ConfigIn, ExtractedAt, AbortsAt, Matches;
    AbortsAtExactly(code, Matches(code, KEYWORD, 0), isNumber);
  }

  // ---------------------------------------------------------------------
  // Examples
  // ---------------------------------------------------------------------

  /** A default of one character where a quoted text belongs. */
  lemma ShortDefaultAtAnExample(description: string, prefix: string, isNumber: string -> bool)
    ensures SettingOf("x:string=a", description, prefix, isNumber) == Panic
  {
    var cut := Cut("x", ":", "string", Some("a"));
    TrimSame("x:string=a");
    assert IsReading("x:string=a", cut);
    assert CutAborts(cut);
    hide *;
    CutExactly("x:string=a", cut, description, prefix, isNumber);
  }

  /** A wide character behind the question mark. */
  lemma WideMarkAtAnExample(description: string, prefix: string, isNumber: string -> bool)
    ensures SettingOf("x?\U{E9}string", description, prefix, isNumber) == Panic
  {
    var entry := "x?\U{E9}string";
    TrimSame(entry);
    assert entry[1] == '?' && IsWide(entry[2]) && '?' !in entry[..1] && '=' !in entry[..1];
    assert HasWideMark(entry);
    assert DefinitionAborts(entry);
    hide *;
    DefinitionExactly(entry, description, prefix, isNumber);
  }

  /** The class `}{`, declared under the name `a`. */
  function Lone(): string {
    KEYWORD + ("}{" + Declaration("let", "a")) + KEYWORD
  }

  /** Where the brace loop stops if one closing brace comes first. */
  lemma LoneBraceStops(front: string, rest: string)
    requires Count(front, '{') == 0 && Count(front, '}') == 1
    ensures var s := front + "{" + rest;
            && Find(s, '{') == |front| && Stop(s, 0) == |front| + 1
            && Count(s[..|front| + 1], '{') == Count(s[..|front| + 1], '}')
            && s[..|front|] == front && s[|front| + 1..] == rest
  {
    var s := front + "{" + rest;
    CountNone(front, '{');
    assert s[..|front|] == front;
    FindBehind(s, '{', |front|);
    assert s[..|front| + 1] == front + "{";
    CountAppend(front, "{", '{');
    CountAppend(front, "{", '}');
    assert Count("{", '{') == 1 && Count("{", '}') == 0;
    forall i | 0 <= i <= |front| ensures !Balanced(s[..i]) {
      assert s[..i] == front[..i];
      CountNone(s[..i], '{');
    }
    hide Find, Stop, Count, Balanced;
    StopBehind(s, |front| + 1);
  }

  lemma StopBehind(s: string, end: nat)
    requires end <= |s| && forall i :: 0 <= i < end ==> !Balanced(s[..i])
    requires Count(s[..end], '{') == Count(s[..end], '}') == 1
    ensures Stop(s, 0) == end
  {
    hide Stop, Count;
    StopIs(s, end);
  }

  lemma OneClosing(word: string)
    requires '{' !in word && '}' !in word
    ensures Count(word + "}", '{') == 0 && Count(word + "}", '}') == 1
  {
    CountNone(word, '{');
    CountNone(word, '}');
    CountAppend(word, "}", '{');
    CountAppend(word, "}", '}');
  }

  lemma LoneIsCutOut(front: string, rest: string)
    requires Count(front, '{') == 0 && Count(front, '}') == 1 && DeclaredName(rest).Ok?
    ensures var s := front + "{" + rest;
            ExtractedFrom(s, |s|).Ok? && Count(s[..Find(s, '{')], '}') == 1
  {
    hide Find, Stop, Count, DeclaredName;
    LoneBraceStops(front, rest);
    var s := front + "{" + rest;
    assert s[|front| + 1..|s|] == s[|front| + 1..];
  }

  lemma NameDeclared()
    ensures DeclaredName(Declaration("let", "a") + KEYWORD).Ok?
  {
    assert IsName("a") && IsDeclarator("let");
    hide DeclaredName, KEYWORD, Declaration, IsName, IsDeclarator;
    ConfigRoundTrip.NameBack("let", "a");
  }

  lemma LoneParts()
    ensures Lone() == (KEYWORD + "}") + "{" + (Declaration("let", "a") + KEYWORD)
  {
    hide Declaration, KEYWORD;
  }

  lemma LoneIsExtracted()
    ensures ExtractedFrom(Lone(), |Lone()|).Ok? && Count(Lone()[..Find(Lone(), '{')], '}') == 1
  {
    hide *;
    LoneParts();
    KeywordIsPlain();
    OneClosing(KEYWORD);
    NameDeclared();
    LoneIsCutOut(KEYWORD + "}", Declaration("let", "a") + KEYWORD);
  }

  lemma LoneMatches()
    ensures var found := Matches(Lone(), KEYWORD, 0);
            |found| >= 2 && found[0] == 0 && found[1] == |Lone()| - |KEYWORD|
  {
    var m := "}{" + Declaration("let", "a");
    assert KEYWORD[0] == 'L' && 'L' !in m;
    KeywordIsPlain();
    HeadElsewhere(m, KEYWORD);
    assert "" + KEYWORD + m + KEYWORD + "" == Lone();
    hide *;
    TwoMatches("", m, "", KEYWORD);
  }

  lemma AbortsFromStart(code: string, found: seq<nat>, isNumber: string -> bool)
    requires InOrder(code, found)
    requires |found| >= 2 && found[0] == 0 && found[1] == |code| - |KEYWORD| && AbortsFrom(code, |code|, isNumber)
    ensures AbortsAt(code, found, isNumber)
  {
    hide AbortsFrom;
    assert code[0..] == code;
  }

  /** A closing brace before the opening one: what is extracted as the class is
      that one brace. */
  lemma LoneBraceAtAnExample(isNumber: string -> bool)
    ensures Manifest(Lone(), isNumber) == Panic
  {
    MatchesAscend(Lone(), KEYWORD, 0);
    hide Lone, ExtractedFrom, Count, Find, BlockEndsLate, BodyAborts, Manifest, Matches, KEYWORD, AbortsAt;
    LoneIsExtracted();
    LoneMatches();
    AbortsFromStart(Lone(), Matches(Lone(), KEYWORD, 0), isNumber);
    AbortsExactly(Lone(), isNumber);
  }
}
