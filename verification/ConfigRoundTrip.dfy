/** Writing a config class and reading it back. */
module ConfigRoundTrip {
  import opened Basics
  import opened Text
  import opened ByteSlices
  import opened ConfigExtract
  import opened ConfigScan
  import opened ConfigSettings
  import opened ConfigWriter
  import opened FieldRoundTrip
  import opened ClassRoundTrip

  /** Four texts with spaces between them. */
  function Spaced(a: string, b: string, c: string, d: string): string {
    a + " " + (b + " " + (c + " " + d))
  }

  lemma SpacedSplit(a: string, b: string, c: string, d: string)
    requires ' ' !in a && ' ' !in b && ' ' !in c && ' ' !in d
    ensures Split(Spaced(a, b, c, d), ' ') == [a, b, c, d]
  {
    var tokens := [a, b, c, d];
    assert tokens[1..] == [b, c, d] && [b, c, d][1..] == [c, d] && [c, d][1..] == [d];
    assert Join([c, d], " ") == c + " " + d;
    assert Join([b, c, d], " ") == b + " " + (c + " " + d);
    hide Split;
    assert " " == [' '];
    SplitJoin(tokens, ' ');
  }

  lemma WithoutSpace(a: string, b: string)
    requires ' ' !in a
    ensures Without(a + " " + b, {' '}) == a + Without(b, {' '})
  {
    WithoutNothing(a, {' '});
    assert Without(" ", {' '}) == "";
    hide Without;
    WithoutAppend(a + " ", b, {' '});
    WithoutAppend(a, " ", {' '});
  }

  lemma SpacedCompact(a: string, b: string, c: string, d: string)
    requires ' ' !in a && ' ' !in b && ' ' !in c && ' ' !in d
    ensures Without(Spaced(a, b, c, d), {' '}) == a + (b + (c + d))
  {
    WithoutNothing(d, {' '});
    hide Without;
    WithoutSpace(a, b + " " + (c + " " + d));
    WithoutSpace(b, c + " " + d);
    WithoutSpace(c, d);
  }

  lemma DeclarationSpaced(declarator: string, name: string)
    ensures Declaration(declarator, name) + KEYWORD == Spaced("\ndeclare", declarator, name + ":", KEYWORD)
  {
    var d := KEYWORD;
    hide *;
    DeclarationParts(declarator, name, d);
  }

  lemma DeclarationParts(declarator: string, name: string, d: string)
    ensures Declaration(declarator, name) + d == Spaced("\ndeclare", declarator, name + ":", d)
  {
  }

  lemma DeclaratorFound(declarator: string, name: string)
    requires IsDeclarator(declarator)
    ensures Declarator(["\ndeclare", declarator, name + ":", KEYWORD]) == Some(declarator)
  {
    var tokens := ["\ndeclare", declarator, name + ":", KEYWORD];
    assert tokens[..3][..2] == tokens[..2];
    assert (name + ":")[|name|] == ':';
    assert !IsDeclarator(name + ":") && !IsDeclarator(KEYWORD);
    assert Declarator(tokens[..2]) == Some(declarator);
    assert Declarator(tokens[..3]) == Some(declarator);
  }

  /** A declarator and a name, in front of the colon. */
  function Compacted(p: string, token: string, name: string, rest: string): string {
    p + (token + (name + ":" + rest))
  }

  lemma CompactedAt(p: string, token: string, name: string, rest: string)
    ensures var s := Compacted(p, token, name, rest);
            var colon := |p| + |token| + |name|;
            && At(s, token, |p|) && colon < |s| && s[colon] == ':'
            && s[|p|..colon] == token + name && s[|p| + |token|..colon] == name && s[colon + 1..] == rest
  {
    var s := Compacted(p, token, name, rest);
    assert s == p + token + (name + ":" + rest);
    AtBetween(p, token, name + ":" + rest);
    assert s == p + (token + name) + (":" + rest);
    AtBetween(p, token + name, ":" + rest);
    assert s == (p + token) + name + (":" + rest);
    AtBetween(p + token, name, ":" + rest);
  }

  lemma CharBehind(s: string, from: nat, i: nat)
    ensures from <= i < |s| ==> s[i] in s[from..]
  {
    if from <= i < |s| {
      assert s[from..][i - from] == s[i];
    }
  }

  /** Every declarator stands before the colon. */
  lemma BeforeColon(p: string, token: string, name: string, rest: string, i: nat)
    requires Unbordered(token) && ':' !in token && token[0] !in rest
    requires At(Compacted(p, token, name, rest), token, i)
    ensures i <= |p| + |name|
  {
    var s := Compacted(p, token, name, rest);
    var colon := |p| + |token| + |name|;
    CompactedAt(p, token, name, rest);
    assert token != "";
    hide Compacted, Unbordered;
    AtAvoids(s, token, i, colon);
    AtChar(s, token, i, 0);
    CharBehind(s, colon + 1, i);
  }

  /** The name holds the declarator if it occurs again. */
  lemma AgainInName(p: string, token: string, name: string, rest: string, i: nat)
    requires Unbordered(token) && ':' !in token && token[0] !in rest
    requires |p| < i && At(Compacted(p, token, name, rest), token, i)
    ensures Contains(name, token)
  {
    var s := Compacted(p, token, name, rest);
    BeforeColon(p, token, name, rest, i);
    CompactedAt(p, token, name, rest);
    hide Compacted;
    AtApart(s, token, |p|, i);
    var j := i - |p| - |token|;
    assert name[j..j + |token|] == s[i..i + |token|];
    assert At(name, token, j);
  }

  lemma LastInName(p: string, token: string, name: string, rest: string, j: nat)
    requires At(name, token, j)
    ensures At(Compacted(p, token, name, rest), token, |p| + |token| + j)
  {
    var s := Compacted(p, token, name, rest);
    CompactedAt(p, token, name, rest);
    hide Compacted;
    var at := |p| + |token|;
    assert s[at + j..at + j + |token|] == s[at..at + |name|][j..j + |token|];
  }

  /** What is read as the name behind a declarator at `i`. */
  lemma NameRead(p: string, token: string, name: string, rest: string, i: nat)
    requires ':' !in token && ':' !in name && |p| <= i <= |p| + |name|
    ensures var statement := Compacted(p, token, name, rest)[i..];
            var colon := |p| + |token| + |name| - i;
            Find(statement, ':') == colon < |statement| && (statement[|token|..colon] == name <==> i == |p|)
  {
    var s := Compacted(p, token, name, rest);
    var colon := |p| + |token| + |name|;
    CompactedAt(p, token, name, rest);
    hide Compacted, At, Find;
    assert s[i..][..colon - i] == (token + name)[i - |p|..];
    FindBehind(s[i..], ':', colon - i);
    assert s[i..][|token|..colon - i] == s[|p| + |token|..colon][i - |p|..];
  }

  /** The last match is the declarator itself exactly if the name does not hold
      it; and it stands before the colon. */
  lemma LastPlace(p: string, token: string, name: string, rest: string)
    requires Unbordered(token) && ':' !in token && token[0] !in rest
    ensures var found := Matches(Compacted(p, token, name, rest), token, 0);
            && found != [] && |p| <= found[|found| - 1] <= |p| + |name|
            && (found[|found| - 1] == |p| <==> !Contains(name, token))
  {
    var s := Compacted(p, token, name, rest);
    var found := Matches(s, token, 0);
    assert token != "";
    CompactedAt(p, token, name, rest);
    hide Compacted, At, Unbordered, Matches;
    LastMatch(s, token, 0, |p|);
    var last := found[|found| - 1];
    MatchAt(s, token, 0, |found| - 1);
    BeforeColon(p, token, name, rest, last);
    if last > |p| {
      AgainInName(p, token, name, rest, last);
    } else {
      hide Contains;
      NotAgain(p, token, name, rest);
    }
  }

  lemma NotAgain(p: string, token: string, name: string, rest: string)
    requires Unbordered(token)
    requires var found := Matches(Compacted(p, token, name, rest), token, 0); found != [] && found[|found| - 1] <= |p|
    ensures !Contains(name, token)
  {
    assert token != "";
    if Contains(name, token) {
      var j: nat :| At(name, token, j);
      hide Compacted, Matches, At, Unbordered, Contains;
      LastInName(p, token, name, rest, j);
      LastMatch(Compacted(p, token, name, rest), token, 0, |p| + |token| + j);
    }
  }

  lemma NotEmpty(pat: string)
    requires Unbordered(pat)
    ensures pat != ""
  {
  }

  lemma NameInBack(p: string, token: string, name: string, rest: string)
    requires IsDeclarator(token) && Unbordered(token) && ':' !in token && ':' !in name && token[0] !in rest
    ensures var r := NameIn(Compacted(p, token, name, rest), token);
            r.Ok? && (r.value == name <==> !Contains(name, token))
  {
    hide Compacted, At, Unbordered, Find, Matches, Contains, NameIn, IsDeclarator;
    NotEmpty(token);
    var found := Matches(Compacted(p, token, name, rest), token, 0);
    LastPlace(p, token, name, rest);
    var last := found[|found| - 1];
    NameRead(p, token, name, rest, last);
    NameInIs(Compacted(p, token, name, rest), token, last, |p| + |token| + |name| - last);
  }

  /** The name is read back exactly if it does not hold its declarator. */
  lemma NameBack(declarator: string, name: string)
    requires IsDeclarator(declarator) && IsName(name)
    ensures var r := DeclaredName(Declaration(declarator, name) + KEYWORD);
            r.Ok? && (r.value == name <==> !Contains(name, declarator))
  {
    assert ':' !in name;
    DeclaratorFacts(declarator);
    hide Split, Without, Declarator, NameIn, IsName, IsDeclarator, Declaration, KEYWORD, Compacted, Contains,
      Unbordered;
    DeclarationRead(declarator, name);
    NameInBack("\ndeclare", declarator, name, KEYWORD);
  }

  /** The name `letter` behind `let` is read as something else. */
  lemma NameLostAtAnExample()
    ensures var r := DeclaredName(Declaration("let", "letter") + KEYWORD); r.Ok? && r.value != "letter"
  {
    assert At("letter", "let", 0);
    assert Contains("letter", "let");
    assert forall c :: c in "letter" ==> c in {'l', 'e', 't', 'r'};
    hide DeclaredName, Declaration, KEYWORD, Contains, At;
    NameBack("let", "letter");
  }

  lemma DeclarationRead(declarator: string, name: string)
    requires IsDeclarator(declarator) && IsName(name)
    ensures var d := Declaration(declarator, name) + KEYWORD;
            && Declarator(Split(d, ' ')) == Some(declarator)
            && Without(d, {' '}) == Compacted("\ndeclare", declarator, name, KEYWORD)
  {
    DeclaratorFacts(declarator);
    assert IsBlank(' ');
    assert ' ' !in name + ":" && ' ' !in KEYWORD && ' ' !in "\ndeclare";
    hide IsBlank, IsName, IsDeclarator, Split, Without;
    DeclarationSpaced(declarator, name);
    SpacedSplit("\ndeclare", declarator, name + ":", KEYWORD);
    SpacedCompact("\ndeclare", declarator, name + ":", KEYWORD);
    DeclaratorFound(declarator, name);
  }

  /** Where the brace loop stops in the text from the class on. */
  lemma BlockFound(body: string, rest: string)
    requires '{' !in body && '}' !in body
    ensures var s := KEYWORD + " " + ("{" + body + "}") + rest;
            var start, end := |KEYWORD| + 1, |KEYWORD| + |body| + 3;
            && Stop(s, 0) == end && Find(s, '{') == start && s[start..end] == "{" + body + "}"
            && Count(s[..end], '{') == Count(s[..end], '}')
  {
    var front := KEYWORD + " ";
    assert '{' !in front && '}' !in front && |front| == |KEYWORD| + 1;
    hide Stop, Find;
    BlockFoundBehind(front, body, rest);
  }

  lemma BlockFoundBehind(front: string, body: string, rest: string)
    requires '{' !in front && '}' !in front && '{' !in body && '}' !in body
    ensures var s := front + ("{" + body + "}") + rest;
            var start, end := |front|, |front| + |body| + 2;
            && Stop(s, 0) == end && Find(s, '{') == start && s[start..end] == "{" + body + "}"
            && Count(s[..end], '{') == Count(s[..end], '}')
  {
    var s := front + ("{" + body + "}") + rest;
    var start, end := |front|, |front| + |body| + 2;
    assert s[..start] == front;
    FindBehind(s, '{', start);
    assert s[start..end] == "{" + body + "}";
    assert s[..end] == (front + "{") + (body + "}");
    BracesBalance(front, body);
    forall i | 0 <= i < end
      ensures !Balanced(s[..i])
    {
      NotBefore(front, body, rest, i);
    }
    hide Balanced, Count, Find, Stop;
    StopIs(s, end);
  }

  lemma BracesBalance(front: string, body: string)
    requires '{' !in front && '}' !in front && '{' !in body && '}' !in body
    ensures Balanced((front + "{") + (body + "}"))
  {
  }

  lemma NotBefore(front: string, body: string, rest: string, i: nat)
    requires '}' !in front && '}' !in body && i < |front| + |body| + 2
    ensures !Balanced((front + ("{" + body + "}") + rest)[..i])
  {
    var s := front + ("{" + body + "}") + rest;
    var open := front + "{" + body;
    assert '}' !in open;
    assert s[..i] == open[..i];
    CountNone(s[..i], '}');
  }

  lemma NoWordBefore(before: string)
    requires !Contains(before, KEYWORD)
    ensures !Contains(before + "class ", KEYWORD)
  {
    HeadElsewhere("lass ", KEYWORD);
    assert 'c' !in KEYWORD;
    hide Contains, KEYWORD;
    ContainsApart(before, 'c', "lass ", KEYWORD);
    assert before + ['c'] + "lass " == before + "class ";
  }

  lemma NoWordBetween(body: string, declarator: string, name: string)
    requires IsDeclarator(declarator) && !Contains(body, KEYWORD) && !Contains(name, KEYWORD)
    ensures !Contains(" " + ("{" + body + "}") + Declaration(declarator, name), KEYWORD)
  {
    var w := KEYWORD;
    assert '{' !in w && '}' !in w && ' ' !in w && ':' !in w && w != "" && w[0] == 'L';
    HeadElsewhere(" ", w);
    HeadElsewhere("\ndeclare " + declarator, w);
    hide Contains, IsDeclarator;
    ContainsApart(name, ':', " ", w);
    ContainsApart("\ndeclare " + declarator, ' ', name + [':'] + " ", w);
    ContainsApart(body, '}', "\ndeclare " + declarator + [' '] + (name + [':'] + " "), w);
    ContainsApart(" ", '{', body + ['}'] + ("\ndeclare " + declarator + [' '] + (name + [':'] + " ")), w);
    BetweenParts(body, declarator, name);
  }

  lemma BetweenParts(body: string, declarator: string, name: string)
    ensures " " + ("{" + body + "}") + Declaration(declarator, name)
            == " " + ['{'] + (body + ['}'] + ("\ndeclare " + declarator + [' '] + (name + [':'] + " ")))
  {
  }

  lemma CodeParts(before: string, block: string, declaration: string, after: string, w: string)
    ensures var code := before + "class " + w + " " + block + declaration + w + after;
            var at := |before + "class "|;
            && code == (before + "class ") + w + (" " + block + declaration) + w + after
            && code[at..] == w + " " + block + (declaration + w + after)
            && code[at..][|w| + 1 + |block|..|w| + |" " + block + declaration| + |w|] == declaration + w
  {
    var code := before + "class " + w + " " + block + declaration + w + after;
    assert code == (before + "class ") + (w + " " + block + (declaration + w + after));
    assert code == (before + "class ") + w + (" " + block + declaration) + w + after;
    var config := w + " " + block + (declaration + w + after);
    assert config == (w + " " + block) + (declaration + w) + after;
    AtBetween(w + " " + block, declaration + w, after);
  }

  /** What a macro must satisfy to be read: the word occurs in it only where it
      must, and the class body has no braces. */
  ghost predicate CanExtract(before: string, fields: seq<Field>, declarator: string, name: string) {
    && IsDeclarator(declarator) && IsName(name)
    && '{' !in Body(fields) && '}' !in Body(fields)
    && !Contains(before, KEYWORD) && !Contains(Body(fields), KEYWORD) && !Contains(name, KEYWORD)
  }

  lemma WordsFound(before: string, fields: seq<Field>, declarator: string, name: string, after: string)
    requires CanExtract(before, fields, declarator, name)
    ensures var found := Matches(Code(before, fields, declarator, name, after), KEYWORD, 0);
            && |found| >= 2 && found[0] == |before + "class "|
            && found[1] == found[0] + |KEYWORD| + |" " + Block(fields) + Declaration(declarator, name)|
  {
    assert Unbordered(KEYWORD);
    NoWordBefore(before);
    NoWordBetween(Body(fields), declarator, name);
    hide Contains, Unbordered, Matches, Body, Declaration, KEYWORD, IsDeclarator, IsName;
    CodeParts(before, Block(fields), Declaration(declarator, name), after, KEYWORD);
    TwoMatches(before + "class ", " " + Block(fields) + Declaration(declarator, name), after, KEYWORD);
  }

  lemma FromStop(config: string, start: nat, end: nat, second: nat)
    requires end == Stop(config, 0) && start == Find(config, '{') < end <= second <= |config|
    requires Count(config[..end], '{') == Count(config[..end], '}') && DeclaredName(config[end..second]).Ok?
    ensures ExtractedFrom(config, second)
            == Ok(ConfigCode(DeclaredName(config[end..second]).value, config[start..end]))
  {
    hide Stop, Find, Count, DeclaredName;
  }

  /** The text from the class on yields the block and the name. */
  lemma ClassBack(body: string, declaration: string, after: string, config: string, second: nat)
    requires '{' !in body && '}' !in body && second <= |config|
    requires config == KEYWORD + " " + ("{" + body + "}") + (declaration + KEYWORD + after)
    requires second == |KEYWORD| + |" " + ("{" + body + "}") + declaration| + |KEYWORD|
    requires DeclaredName(declaration + KEYWORD).Ok?
    requires config[|KEYWORD| + 3 + |body|..second] == declaration + KEYWORD
    ensures ExtractedFrom(config, second)
            == Ok(ConfigCode(DeclaredName(declaration + KEYWORD).value, "{" + body + "}"))
  {
    BlockFound(body, declaration + KEYWORD + after);
    hide Stop, Find, Count, DeclaredName, KEYWORD, ExtractedFrom;
    FromStop(config, |KEYWORD| + 1, |KEYWORD| + 3 + |body|, second);
  }

  lemma ExtractedIs(code: string, at: nat, second: nat)
    requires at <= |code| && |KEYWORD| < second <= |code| - at
    requires var found := Matches(code, KEYWORD, 0);
             |found| >= 2 && found[0] == at && found[1] == at + second - |KEYWORD|
    requires ExtractedFrom(code[at..], second).Ok?
    ensures Extracted(code) == Ok(Some(ExtractedFrom(code[at..], second).value))
  {
    hide Matches, ExtractedFrom;
  }

  lemma CodeBack(before: string, fields: seq<Field>, declarator: string, name: string, after: string)
    requires CanExtract(before, fields, declarator, name)
    requires DeclaredName(Declaration(declarator, name) + KEYWORD).Ok?
    ensures Extracted(Code(before, fields, declarator, name, after))
            == Ok(Some(ConfigCode(DeclaredName(Declaration(declarator, name) + KEYWORD).value, Block(fields))))
  {
    var code := Code(before, fields, declarator, name, after);
    var declaration := Declaration(declarator, name);
    var at := |before + "class "|;
    var second := |KEYWORD| + |" " + Block(fields) + declaration| + |KEYWORD|;
    assert |KEYWORD| > 0;
    WordsFound(before, fields, declarator, name, after);
    CodeParts(before, Block(fields), declaration, after, KEYWORD);
    hide Matches, Contains, Body, Declaration, Code, KEYWORD, DeclaredName, Extracted, ExtractedFrom, IsName,
      IsDeclarator;
    ClassBack(Body(fields), declaration, after, code[at..], second);
    hide Block, CanExtract;
    ExtractedIs(code, at, second);
  }

  /** Extraction returns the whole class block, and the name of the variable
      exactly if it does not hold its own declarator. */
  lemma ExtractionBack(before: string, fields: seq<Field>, declarator: string, name: string, after: string)
    requires CanExtract(before, fields, declarator, name)
    ensures var r := Extracted(Code(before, fields, declarator, name, after));
            && r.Ok? && r.value.Some? && r.value.value.definition == Block(fields)
            && (r.value.value.name == name <==> !Contains(name, declarator))
  {
    NameBack(declarator, name);
    hide DeclaredName, Contains, Extracted, Code, Block, Declaration, KEYWORD, CanExtract;
    CodeBack(before, fields, declarator, name, after);
  }

  /** The whole round trip: a macro that can be read gives back its fields, in
      order, exactly if the name of its variable does not hold its declarator or
      there are no fields to name. */
  lemma RoundTrip(before: string, fields: seq<Field>, declarator: string, name: string, after: string,
                  isNumber: string -> bool)
    requires CanExtract(before, fields, declarator, name)
    requires DistinctNames(fields) && forall f :: f in fields ==> CanWrite(f, isNumber)
    ensures Manifest(Code(before, fields, declarator, name, after), isNumber) == Ok(Settings(fields, name))
            <==> fields == [] || !Contains(name, declarator)
  {
    ExtractionBack(before, fields, declarator, name, after);
    var code := Code(before, fields, declarator, name, after);
    var prefix := Extracted(code).value.value.name;
    ConfigBack(fields, prefix, isNumber);
    hide CanExtract, CanWrite, Extracted, Code, Block, ConfigOf, Contains;
    assert Manifest(code, isNumber) == Ok(Settings(fields, prefix));
    SettingsDiffer(fields, prefix, name);
  }

  lemma ConfigBack(fields: seq<Field>, prefix: string, isNumber: string -> bool)
    requires DistinctNames(fields) && forall f :: f in fields ==> CanWrite(f, isNumber)
    ensures ConfigOf(prefix, Block(fields), isNumber) == Ok(Settings(fields, prefix))
  {
    hide Body, CanWrite, Split, Scanned, AllLines, SettingsOf, Inside;
    BlockInside(Body(fields));
    BodySplits(fields, isNumber);
    ClassRead(fields, isNumber);
    SettingsBack(fields, prefix, isNumber);
  }

  lemma BlockInside(body: string)
    ensures Inside("{" + body + "}") == Some(body)
  {
    var block := "{" + body + "}";
    InsideExactly(block);
    assert block[1..|block| - 1] == body;
  }

  lemma SettingsDiffer(fields: seq<Field>, prefix: string, other: string)
    ensures Settings(fields, prefix) == Settings(fields, other) <==> fields == [] || prefix == other
  {
    if fields != [] && Settings(fields, prefix) == Settings(fields, other) {
      var s, t := Settings(fields, prefix)[0], Settings(fields, other)[0];
      assert s.id == prefix + ("|" + fields[0].name) && t.id == other + ("|" + fields[0].name);
      assert |prefix| == |other|;
      assert s.id[..|prefix|] == prefix && t.id[..|other|] == other;
    }
  }

  /** A field comes back unchanged, up to its comments becoming one line, exactly
      if its options and its default have no spaces or tabs. */
  lemma FieldUnchanged(f: Field, prefix: string, isNumber: string -> bool)
    requires CanWrite(f, isNumber)
    ensures var s := Written(f, prefix);
            && s.name == f.name && s.required == f.default.Some? && s.id == prefix + "|" + f.name
            && (s.kind == f.kind && s.value == f.default
                <==> (f.kind.Choice? ==> forall o :: o in f.kind.options ==> ' ' !in o && '\t' !in o)
                     && (f.default.Some? && f.default.value.TextValue? ==>
                           ' ' !in f.default.value.text && '\t' !in f.default.value.text))
  {
    if f.kind.Choice? {
      OptionsUnchanged(f.kind.options);
      if f.default.Some? {
        SqueezeNothing(f.default.value.option);
      }
    } else if f.default.Some? && f.default.value.TextValue? {
      SqueezeNothing(f.default.value.text);
    }
  }

  lemma OptionsUnchanged(options: seq<string>)
    ensures SqueezeAll(options) == options <==> forall o :: o in options ==> ' ' !in o && '\t' !in o
  {
    forall i | 0 <= i < |options|
      ensures SqueezeAll(options)[i] == options[i] <==> ' ' !in options[i] && '\t' !in options[i]
    {
      SqueezeNothing(options[i]);
    }
    hide Squeeze;
    assert forall i :: 0 <= i < |options| ==> options[i] in options;
  }

  /** A default with a space in it comes back without. */
  lemma SpaceLostAtAnExample(f: Field, prefix: string)
    requires f.default == Some(TextValue("a b"))
    ensures Written(f, prefix).value == Some(TextValue("ab"))
  {
    assert "a b" == "a" + " " + "b" && "a" + "b" == "ab";
    SqueezeAppend("a" + " ", "b");
    SqueezeSpace("a");
    SqueezeNothing("a");
    SqueezeNothing("b");
    hide Squeeze;
  }
}
