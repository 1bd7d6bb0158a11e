/** The lines of a written class go through the scanner field by field. */
module ClassRoundTrip {
  import opened Text
  import opened ConfigExtract
  import opened ConfigScan
  import opened ConfigSettings
  import opened ConfigWriter
  import opened FieldRoundTrip

  /** The scanner after more lines. */
  function ReadAll(s: Scanner, lines: seq<string>): Scanner {
    if lines == [] then s else Read(ReadAll(s, lines[..|lines| - 1]), Cleaned(lines[|lines| - 1]))
  }

  lemma {:induction false} ReadAllAppend(s: Scanner, a: seq<string>, b: seq<string>)
    ensures ReadAll(s, a + b) == ReadAll(ReadAll(s, a), b)
  {
    hide Read, Cleaned;
    if b == [] {
      assert a + b == a;
    } else {
      var n := |b| - 1;
      assert (a + b)[..|a| + n] == a + b[..n];
      ReadAllAppend(s, a, b[..n]);
    }
  }

  lemma {:induction false} ScannedIsReadAll(lines: seq<string>)
    ensures Scanned(lines) == ReadAll(START, lines)
  {
    hide Read, Cleaned;
    if lines != [] {
      ScannedIsReadAll(lines[..|lines| - 1]);
    }
  }

  lemma ReadOne(s: Scanner, line: string)
    ensures ReadAll(s, [line]) == Read(s, Cleaned(line))
  {
    hide Read, Cleaned;
    assert [line][..0] == [];
  }

  lemma CleanedIndented(indent: string, s: string)
    requires s != "" && IsTrim(s) && '\r' !in s && forall c :: c in indent ==> c == ' '
    ensures Cleaned(indent + s) == s
  {
    WithoutNothing(indent + s, {'\r'});
    TrimIndented(indent, s);
  }

  lemma CleanedComment(indent: string, marker: string, comment: string)
    requires marker != "" && !IsBlank(marker[0]) && '\r' !in marker && IsComment(comment)
    requires forall c :: c in indent ==> c == ' '
    ensures Cleaned(indent + marker + comment) == marker + comment
  {
    assert indent + marker + comment == indent + (marker + comment);
    assert IsTrim(marker + comment);
    hide Cleaned;
    CleanedIndented(indent, marker + comment);
  }

  lemma TrimAfterSpace(comment: string)
    requires IsComment(comment)
    ensures Trim(" " + comment) == comment
  {
    assert comment != "" && IsTrim(comment);
    hide IsTrim, Trim, IsComment;
    TrimIndented(" ", comment);
  }

  lemma SlashesCleaned(comment: string)
    requires IsComment(comment)
    ensures Cleaned("  // " + comment) == "//" + (" " + comment)
  {
    CleanedComment("  ", "// ", comment);
    hide *;
    assert "  " + "// " + comment == "  // " + comment;
    assert "//" + (" " + comment) == "// " + comment;
  }

  lemma StarCleaned(comment: string)
    requires IsComment(comment)
    ensures Cleaned("   * " + comment) == "*" + (" " + comment)
  {
    CleanedComment("   ", "* ", comment);
    hide *;
    assert "   " + "* " + comment == "   * " + comment;
    assert "*" + (" " + comment) == "* " + comment;
  }

  lemma SlashesRead(s: Scanner, comment: string)
    requires s.depth == 0 && IsComment(comment)
    ensures Read(s, Cleaned("  // " + comment)) == s.(commentLines := s.commentLines + [comment])
  {
    assert comment != "";
    SlashesCleaned(comment);
    TrimAfterSpace(comment);
    hide Cleaned, Trim, IsComment, Read;
    ReadSlashes(s, " " + comment);
  }

  lemma StarRead(s: Scanner, comment: string)
    requires s.depth == 1 && IsComment(comment)
    ensures Read(s, Cleaned("   * " + comment)) == s.(commentLines := s.commentLines + [comment])
  {
    assert comment != "";
    StarCleaned(comment);
    TrimAfterSpace(comment);
    hide Cleaned, Trim, IsComment, Read;
    ReadStar(s, " " + comment);
  }

  lemma OpenCleaned()
    ensures Cleaned("  /**") == "/**"
  {
    CleanedIndented("  ", "/**");
    hide *;
    assert "  /**" == "  " + "/**";
  }

  lemma OpenRead(s: Scanner)
    requires s.depth == 0
    ensures Read(s, Cleaned("  /**")) == s.(depth := 1)
  {
    OpenCleaned();
    assert Trim("") == "";
    hide Cleaned, Trim, Read;
    assert "/**" + "" == "/**";
    ReadOpen(s, "");
    assert s.commentLines + [] == s.commentLines;
  }

  lemma CloseRead(s: Scanner)
    requires s.depth == 1
    ensures Read(s, Cleaned("   */")) == s.(depth := 0)
  {
    CleanedIndented("   ", "*/");
    hide Cleaned, Read;
    assert "   */" == "   " + "*/";
    assert "*/" + "" == "*/";
    ReadClose(s, "");
  }

  lemma {:induction false} CommentsRead(s: Scanner, f: Field, k: nat)
    requires s.depth == (if f.block then 1 else 0) && k <= |f.comments|
    requires forall c :: c in f.comments ==> IsComment(c)
    ensures ReadAll(s, CommentLines(f)[..k]) == s.(commentLines := s.commentLines + f.comments[..k])
  {
    hide IsComment, Read, Cleaned;
    if k == 0 {
    } else {
      var lines := CommentLines(f)[..k];
      var before := s.(commentLines := s.commentLines + f.comments[..k - 1]);
      assert lines[..k - 1] == CommentLines(f)[..k - 1];
      CommentsRead(s, f, k - 1);
      assert f.comments[k - 1] in f.comments;
      if f.block {
        StarRead(before, f.comments[k - 1]);
      } else {
        SlashesRead(before, f.comments[k - 1]);
      }
      assert f.comments[..k] == f.comments[..k - 1] + [f.comments[k - 1]];
    }
  }

  lemma TypeOneLine(kind: Kind, quotes: seq<Quote>)
    requires CanWriteKind(kind, quotes)
    ensures IsOneLine(TypeText(kind, quotes, " | "))
  {
    if kind.Choice? {
      assert forall i :: 0 <= i < |kind.options| ==> kind.options[i] in kind.options;
      OneLineJoin(QuotedAll(kind.options, quotes));
    }
  }

  lemma {:induction false} OneLineJoin(parts: seq<string>)
    requires forall i :: 0 <= i < |parts| ==> IsOneLine(parts[i])
    ensures IsOneLine(Join(parts, " | "))
  {
    if |parts| > 1 {
      OneLineJoin(parts[1..]);
    }
  }

  lemma DefinitionOneLine(f: Field, isNumber: string -> bool)
    requires CanWrite(f, isNumber)
    ensures IsOneLine(DefinitionText(f)) && f.name <= DefinitionText(f)
  {
    TypeOneLine(f.kind, f.quotes);
    assert IsOneLine(f.name);
    hide TypeText, Literal, CanWriteKind, IsComment, IsName, TypeCheck;
  }

  /** The first character of a definition starts its name. */
  lemma FirstOfDefinition(f: Field, isNumber: string -> bool)
    requires CanWrite(f, isNumber)
    ensures var text := DefinitionText(f) + ";"; !IsBlank(text[0]) && text[0] != '/' && IsTrim(text) && '\r' !in text
    ensures var code := Squeezed(f) + ";"; IsTrim(code)
  {
    DefinitionOneLine(f, isNumber);
    assert f.name <= Squeezed(f);
    assert f.name[0] in f.name;
    assert !IsBlank(';');
    hide DefinitionText, Squeezed, CanWriteKind, CanWriteValue, IsComment, IsBlank;
  }

  lemma DefinitionCleaned(f: Field, isNumber: string -> bool)
    requires CanWrite(f, isNumber)
    ensures Cleaned("  " + DefinitionText(f) + ";") == DefinitionText(f) + ";"
  {
    FirstOfDefinition(f, isNumber);
    hide DefinitionText, Cleaned, CanWrite, IsTrim;
    assert "  " + DefinitionText(f) + ";" == "  " + (DefinitionText(f) + ";");
    CleanedIndented("  ", DefinitionText(f) + ";");
  }

  lemma DefinitionCompact(f: Field, isNumber: string -> bool)
    requires CanWrite(f, isNumber)
    ensures Compact(DefinitionText(f) + ";") == Squeezed(f) + ";"
  {
    var text := DefinitionText(f);
    SqueezeDefinition(f, isNumber);
    FirstOfDefinition(f, isNumber);
    hide DefinitionText, Squeezed, CanWrite, IsTrim;
    SqueezeSemicolon(text);
    assert Compact(text + ";") == Trim(Squeeze(text + ";"));
    hide Squeeze, Compact;
    TrimSame(Squeezed(f) + ";");
  }

  lemma SqueezeSemicolon(text: string)
    ensures Squeeze(text + ";") == Squeeze(text) + ";"
  {
    SqueezeAppend(text, ";");
    SqueezeNothing(";");
  }

  lemma DefinitionRead(s: Scanner, f: Field, isNumber: string -> bool)
    requires s.depth == 0 && s.codeLines == [] && CanWrite(f, isNumber)
    ensures Read(s, Cleaned("  " + DefinitionText(f) + ";"))
            == Scanner(0, [], [], s.comments + [Join(s.commentLines, " ")], s.codes + [Squeezed(f)])
  {
    DefinitionCleaned(f, isNumber);
    DefinitionCompact(f, isNumber);
    FirstOfDefinition(f, isNumber);
    ReadCode(s, DefinitionText(f) + ";");
    CodeAdded(s, Squeezed(f));
    assert "" + Squeezed(f) == Squeezed(f);
    hide Read, DefinitionText, Squeezed, Cleaned, Compact, Join, CanWrite, IsOneLine, AddCode, IsTrim, IsBlank;
  }

  lemma CommentLinesRead(s: Scanner, f: Field)
    requires s.depth == 0 && s.commentLines == [] && forall c :: c in f.comments ==> IsComment(c)
    ensures ReadAll(s, if f.block then ["  /**"] + CommentLines(f) + ["   */"] else CommentLines(f))
            == s.(commentLines := f.comments)
  {
    var lines := CommentLines(f);
    assert lines[..|f.comments|] == lines && f.comments[..|f.comments|] == f.comments;
    assert [] + f.comments == f.comments;
    hide Read, Cleaned, CommentLines, IsComment;
    if f.block {
      ReadAllAppend(s, ["  /**"] + lines, ["   */"]);
      ReadAllAppend(s, ["  /**"], lines);
      ReadOne(s, "  /**");
      OpenRead(s);
      CommentsRead(s.(depth := 1), f, |f.comments|);
      ReadOne(s.(depth := 1, commentLines := f.comments), "   */");
      CloseRead(s.(depth := 1, commentLines := f.comments));
    } else {
      CommentsRead(s, f, |f.comments|);
    }
  }

  /** A field's lines add its definition and its description. */
  lemma FieldRead(s: Scanner, f: Field, isNumber: string -> bool)
    requires s.depth == 0 && s.codeLines == [] && s.commentLines == [] && CanWrite(f, isNumber)
    ensures ReadAll(s, FieldLines(f))
            == Scanner(0, [], [], s.comments + [Join(f.comments, " ")], s.codes + [Squeezed(f)])
  {
    var comments := if f.block then ["  /**"] + CommentLines(f) + ["   */"] else CommentLines(f);
    var line := "  " + DefinitionText(f) + ";";
    var t := s.(commentLines := f.comments);
    CommentLinesRead(s, f);
    DefinitionRead(t, f, isNumber);
    hide Read, Cleaned, CanWrite, DefinitionText, Squeezed, Join, CommentLines;
    ReadAllAppend(s, comments, [line]);
    ReadOne(t, line);
  }

  function Definitions(fields: seq<Field>): (r: seq<string>)
    ensures |r| == |fields| && forall i :: 0 <= i < |r| ==> r[i] == Squeezed(fields[i])
  {
    seq(|fields|, i requires 0 <= i < |fields| => Squeezed(fields[i]))
  }

  function Descriptions(fields: seq<Field>): (r: seq<string>)
    ensures |r| == |fields| && forall i :: 0 <= i < |r| ==> r[i] == Join(fields[i].comments, " ")
  {
    seq(|fields|, i requires 0 <= i < |fields| => Join(fields[i].comments, " "))
  }

  lemma TextsOne(fields: seq<Field>, f: Field)
    ensures Descriptions(fields + [f]) == Descriptions(fields) + [Join(f.comments, " ")]
    ensures Definitions(fields + [f]) == Definitions(fields) + [Squeezed(f)]
  {
    hide Join, Squeezed;
  }

  lemma {:induction false} FieldsRead(fields: seq<Field>, isNumber: string -> bool)
    requires forall f :: f in fields ==> CanWrite(f, isNumber)
    ensures ReadAll(START, AllLines(fields)) == Scanner(0, [], [], Descriptions(fields), Definitions(fields))
  {
    hide Read, Cleaned, CanWrite, Squeezed, Join, FieldLines;
    if fields == [] {
    } else {
      var n := |fields| - 1;
      var before := ReadAll(START, AllLines(fields[..n]));
      FieldsRead(fields[..n], isNumber);
      ReadAllAppend(START, AllLines(fields[..n]), FieldLines(fields[n]));
      FieldRead(before, fields[n], isNumber);
      hide ReadAll, AllLines;
      TextsOne(fields[..n], fields[n]);
      assert fields == fields[..n] + [fields[n]];
    }
  }

  lemma EmptyRead(s: Scanner)
    ensures ReadAll(s, [""]) == s
  {
    assert Cleaned("") == "";
    ReadOne(s, "");
  }

  /** The scanner finds the definitions and descriptions of a written class. */
  lemma ClassRead(fields: seq<Field>, isNumber: string -> bool)
    requires forall f :: f in fields ==> CanWrite(f, isNumber)
    ensures var s := Scanned([""] + AllLines(fields) + [""]);
            s.codes == Definitions(fields) && s.comments == Descriptions(fields)
  {
    hide Read, Cleaned, CanWrite, Squeezed, Join, AllLines, Scanned, ReadAll;
    var lines := AllLines(fields);
    ScannedIsReadAll([""] + lines + [""]);
    ReadAllAppend(START, [""] + lines, [""]);
    ReadAllAppend(START, [""], lines);
    EmptyRead(START);
    FieldsRead(fields, isNumber);
    EmptyRead(ReadAll(START, lines));
  }

  lemma FieldLinesEnd(f: Field, isNumber: string -> bool)
    requires CanWrite(f, isNumber)
    ensures forall line :: line in FieldLines(f) ==> '\n' !in line
  {
    DefinitionOneLine(f, isNumber);
    hide DefinitionText, CanWriteKind, CanWriteValue, IsName, IsComment;
    CommentsEnd(f);
    hide CommentLines;
    assert '\n' !in "  " + DefinitionText(f) + ";";
  }

  lemma CommentsEnd(f: Field)
    requires forall c :: c in f.comments ==> IsComment(c)
    ensures forall line :: line in CommentLines(f) ==> '\n' !in line
  {
    forall i | 0 <= i < |f.comments|
      ensures '\n' !in CommentLines(f)[i]
    {
      CommentEnds(f.comments[i], if f.block then "   * " else "  // ");
    }
    hide CommentLines;
  }

  lemma CommentEnds(comment: string, mark: string)
    requires IsComment(comment) && '\n' !in mark
    ensures '\n' !in mark + comment
  {
  }

  lemma {:induction false} AllLinesEnd(fields: seq<Field>, isNumber: string -> bool)
    requires forall f :: f in fields ==> CanWrite(f, isNumber)
    ensures forall line :: line in AllLines(fields) ==> '\n' !in line
  {
    hide CanWrite, FieldLines;
    if fields != [] {
      AllLinesEnd(fields[..|fields| - 1], isNumber);
      FieldLinesEnd(fields[|fields| - 1], isNumber);
    }
  }

  /** The body of a written class splits into the lines it was made of. */
  lemma BodySplits(fields: seq<Field>, isNumber: string -> bool)
    requires forall f :: f in fields ==> CanWrite(f, isNumber)
    ensures Split(Body(fields), '\n') == [""] + AllLines(fields) + [""]
  {
    hide CanWrite, AllLines, Join, Split;
    AllLinesEnd(fields, isNumber);
    assert "\n" == ['\n'];
    SplitJoin([""] + AllLines(fields) + [""], '\n');
  }

  function Settings(fields: seq<Field>, prefix: string): (r: Config)
    ensures |r| == |fields| && forall i :: 0 <= i < |r| ==> r[i] == Written(fields[i], prefix)
  {
    seq(|fields|, i requires 0 <= i < |fields| => Written(fields[i], prefix))
  }

  predicate DistinctNames(fields: seq<Field>) {
    forall i, j :: 0 <= i < j < |fields| ==> fields[i].name != fields[j].name
  }

  lemma {:induction false} SettingsBack(fields: seq<Field>, prefix: string, isNumber: string -> bool)
    requires DistinctNames(fields) && forall f :: f in fields ==> CanWrite(f, isNumber)
    ensures SettingsOf(Definitions(fields), Descriptions(fields), prefix, isNumber)
            == Ok(Settings(fields, prefix))
  {
    hide CanWrite, Squeezed, Join, SettingOf, Written;
    if fields == [] {
    } else {
      var n := |fields| - 1;
      assert Definitions(fields)[..n] == Definitions(fields[..n]);
      assert Descriptions(fields)[..n] == Descriptions(fields[..n]);
      SettingsBack(fields[..n], prefix, isNumber);
      assert fields[n] in fields;
      DefinitionBack(fields[n], prefix, isNumber);
      hide DistinctNames;
      SettingsOne(fields, prefix);
    }
  }

  lemma SettingsOne(fields: seq<Field>, prefix: string)
    requires fields != [] && DistinctNames(fields)
    ensures var n := |fields| - 1;
            Settings(fields, prefix) == Inserted(Settings(fields[..n], prefix), Written(fields[n], prefix))
  {
    var n := |fields| - 1;
    var before, last := Settings(fields[..n], prefix), Written(fields[n], prefix);
    assert forall j :: 0 <= j < n ==> before[j].name == fields[j].name;
    hide Written, DistinctNames;
    assert PositionOf(before, last.name) == n;
    assert Settings(fields, prefix) == before + [last];
  }
}
