/** Sorting the lines of a config class into definitions and descriptions. */
module ConfigScan {
  import opened Text

  /** The scanner's variables: `depth` counts the comment blocks it is in. */
  datatype Scanner = Scanner(depth: nat, commentLines: seq<string>, codeLines: seq<string>,
                             comments: seq<string>, codes: seq<string>)

  const START := Scanner(0, [], [], [], [])

  function Cleaned(line: string): string {
    Trim(Without(line, {'\r'}))
  }

  /** The code on a cleaned line. */
  function Compact(line: string): string {
    Trim(Without(line, {' ', '\t'}))
  }

  predicate Ends(code: string) {
    code != "" && code[|code| - 1] == ';'
  }

  /** `cleanup_comment_line`, as the list of comment lines it adds. */
  function CommentOf(line: string, prefix: string): seq<string>
    requires StartsWith(line, prefix)
  {
    var text := Trim(line[|prefix|..]);
    if text == "" then [] else [text]
  }

  function AddComment(s: Scanner, comment: seq<string>): Scanner {
    s.(commentLines := s.commentLines + comment)
  }

  function AddCode(s: Scanner, code: string): Scanner {
    var lines := s.codeLines + [code];
    if !Ends(code) then s.(codeLines := lines)
    else
      JoinLast(s.codeLines, code);
      var whole := Join(lines, "");
      Scanner(s.depth, [], [], s.comments + [Join(s.commentLines, " ")], s.codes + [whole[..|whole| - 1]])
  }

  /** One turn of the scanner's loop, on a cleaned line. */
  function Read(s: Scanner, line: string): Scanner {
    if line == "" then s
    else if s.depth > 0 then
      if StartsWith(line, "*/") then s.(depth := s.depth - 1)
      else
        var text := if line[0] == '*' then Trim(line[1..]) else line;
        if text != "" || s.commentLines != [] then AddComment(s, [text]) else s
    else if StartsWith(line, "//") then AddComment(s, CommentOf(line, "//"))
    else if StartsWith(line, "/**") then AddComment(s, CommentOf(line, "/**")).(depth := s.depth + 1)
    else if StartsWith(line, "/*") then AddComment(s, CommentOf(line, "/*")).(depth := s.depth + 1)
    else AddCode(s, Compact(line))
  }

  function Scanned(lines: seq<string>): Scanner {
    if lines == [] then START else Read(Scanned(lines[..|lines| - 1]), Cleaned(lines[|lines| - 1]))
  }

  /** The scanner loop of `get_config_from_code`. */
  method Scan(lines: seq<string>) returns (codes: seq<string>, comments: seq<string>)
    ensures codes == Scanned(lines).codes && comments == Scanned(lines).comments
  {
    hide Cleaned, Compact, Join, CommentOf;
    var commentLines, codeLines, depth := [], [], 0;
    codes, comments := [], [];
    var k := 0;
    while k < |lines|
      invariant k <= |lines|
      invariant Scanner(depth, commentLines, codeLines, comments, codes) == Scanned(lines[..k])
    {
      assert lines[..k + 1][..k] == lines[..k];
      var line := Cleaned(lines[k]);
      k := k + 1;
      if line == "" {
        continue;
      }
      if depth > 0 {
        if StartsWith(line, "*/") {
          depth := depth - 1;
          continue;
        }
        var text := if line[0] == '*' then Trim(line[1..]) else line;
        if text != "" || commentLines != [] {
          commentLines := commentLines + [text];
        }
        continue;
      }
      if StartsWith(line, "//") {
        commentLines := commentLines + CommentOf(line, "//");
      } else if StartsWith(line, "/**") {
        commentLines := commentLines + CommentOf(line, "/**");
        depth := depth + 1;
      } else if StartsWith(line, "/*") {
        commentLines := commentLines + CommentOf(line, "/*");
        depth := depth + 1;
      } else {
        var code := Compact(line);
        JoinLast(codeLines, code);
        codeLines := codeLines + [code];
        if Ends(code) {
          comments := comments + [Join(commentLines, " ")];
          commentLines := [];
          var whole := Join(codeLines, "");
          codes := codes + [whole[..|whole| - 1]];
          codeLines := [];
        }
      }
    }
    assert lines[..k] == lines;
  }

  /** Comment blocks do not nest, and every definition has one description. */
  lemma {:induction false} DepthAndLengths(lines: seq<string>)
    ensures Scanned(lines).depth <= 1
    ensures |Scanned(lines).codes| == |Scanned(lines).comments|
  {
    hide Cleaned, Compact, Join, CommentOf;
    if lines != [] {
      DepthAndLengths(lines[..|lines| - 1]);
    }
  }

  /** Whether the lines leave a comment block open: the last line that opens or
      closes one decides. */
  predicate InBlock(lines: seq<string>) {
    lines != [] &&
    var before := InBlock(lines[..|lines| - 1]);
    var line := Cleaned(lines[|lines| - 1]);
    if before then !StartsWith(line, "*/") else StartsWith(line, "/*")
  }

  /** The text of the lines of code, without spaces and tabs. */
  function CodeText(lines: seq<string>): string {
    if lines == [] then ""
    else
      var before := lines[..|lines| - 1];
      var line := Cleaned(lines[|lines| - 1]);
      CodeText(before)
      + (if InBlock(before) || line == "" || StartsWith(line, "//") || StartsWith(line, "/*") then ""
         else Compact(line))
  }

  /** The definitions, each with its semicolon. */
  function Terminated(codes: seq<string>): string {
    if codes == [] then "" else Terminated(codes[..|codes| - 1]) + codes[|codes| - 1] + ";"
  }

  /** The definitions and the unfinished rest are the code of all lines: none is
      lost, repeated or moved. */
  lemma {:induction false} NoCodeLost(lines: seq<string>)
    ensures (Scanned(lines).depth > 0) == InBlock(lines)
    ensures Terminated(Scanned(lines).codes) + Join(Scanned(lines).codeLines, "") == CodeText(lines)
  {
    if lines != [] {
      var before := lines[..|lines| - 1];
      var line := Cleaned(lines[|lines| - 1]);
      NoCodeLost(before);
      DepthAndLengths(before);
      ReadKeepsCode(Scanned(before), line);
      hide Cleaned, Compact, Join, CommentOf, Terminated, Read;
    }
  }

  lemma Openers(line: string)
    ensures StartsWith(line, "/**") ==> StartsWith(line, "/*")
    ensures StartsWith(line, "//") ==> !StartsWith(line, "/*")
  {
    assert StartsWith(line, "/**") ==> line[..2] == "/**"[..2] == "/*";
    assert StartsWith(line, "//") ==> line[1] == '/';
    assert StartsWith(line, "/*") ==> line[1] == '*';
  }

  lemma ReadKeepsCode(s: Scanner, line: string)
    requires s.depth <= 1
    ensures var t := Read(s, line);
            && (t.depth > 0) == (if s.depth > 0 then !StartsWith(line, "*/") else StartsWith(line, "/*"))
            && Terminated(t.codes) + Join(t.codeLines, "")
               == Terminated(s.codes) + Join(s.codeLines, "")
                  + (if s.depth > 0 || line == "" || StartsWith(line, "//") || StartsWith(line, "/*") then ""
                     else Compact(line))
  {
    hide Compact, CommentOf, Terminated, Join, AddCode;
    Openers(line);
    if s.depth == 0 && line != "" && !StartsWith(line, "//") && !StartsWith(line, "/*") {
      AddCodeKeepsCode(s, Compact(line));
    }
  }

  lemma AddCodeKeepsCode(s: Scanner, code: string)
    ensures var t := AddCode(s, code);
            && t.depth == s.depth
            && Terminated(t.codes) + Join(t.codeLines, "")
               == Terminated(s.codes) + Join(s.codeLines, "") + code
  {
    JoinLast(s.codeLines, code);
    if Ends(code) {
      var whole := Join(s.codeLines + [code], "");
      var t := AddCode(s, code);
      assert t.codes[..|t.codes| - 1] == s.codes;
      assert whole[..|whole| - 1] + ";" == whole;
    }
  }

  // ---------------------------------------------------------------------
  // What each kind of line does to the scanner
  // ---------------------------------------------------------------------

  lemma StartsAt(line: string, prefix: string, i: nat)
    requires i < |prefix|
    ensures StartsWith(line, prefix) ==> i < |line| && line[i] == prefix[i] && line[0] == prefix[0]
  {
  }

  /** Carriage returns go wherever they are, and then the blanks around. */
  lemma CleanedIs(line: string, front: string, text: string, back: string)
    requires Without(line, {'\r'}) == front + text + back && IsTrim(text)
    requires forall c :: c in front + back ==> IsBlank(c)
    ensures Cleaned(line) == text
  {
    hide *;
    TrimExactly(front, text, back);
    CleanedTrims(line);
  }

  lemma CleanedTrims(line: string)
    ensures Cleaned(line) == Trim(Without(line, {'\r'}))
  {
  }

  lemma ReadEmpty(s: Scanner)
    ensures Read(s, "") == s
  {
    hide AddCode, Compact, CommentOf, Trim;
  }

  /** Outside a comment block, a comment adds its text. */
  lemma ReadSlashes(s: Scanner, text: string)
    requires s.depth == 0
    ensures Read(s, "//" + text)
            == s.(commentLines := s.commentLines + if Trim(text) == "" then [] else [Trim(text)])
  {
    hide AddCode, Compact, CommentOf, Trim;
    CommentAfter("//", text);
  }

  /** So do the openings of a block, with two stars or with one. */
  lemma ReadOpen(s: Scanner, text: string)
    requires s.depth == 0
    ensures Read(s, "/**" + text)
            == s.(depth := 1, commentLines := s.commentLines + if Trim(text) == "" then [] else [Trim(text)])
  {
    hide AddCode, Compact, CommentOf, Trim;
    Openers("/**" + text);
    CommentAfter("/**", text);
  }

  lemma ReadPlainOpen(s: Scanner, text: string)
    requires s.depth == 0 && (text != "" ==> text[0] != '*')
    ensures Read(s, "/*" + text)
            == s.(depth := 1, commentLines := s.commentLines + if Trim(text) == "" then [] else [Trim(text)])
  {
    hide AddCode, Compact, CommentOf, Trim;
    Openers("/*" + text);
    var line := "/*" + text;
    StartsAt(line, "/**", 2);
    CommentAfter("/*", text);
  }

  /** Inside one, a line with a star adds what follows, which may be nothing but
      not first; and a line without one is added whole. */
  lemma ReadStar(s: Scanner, text: string)
    requires s.depth > 0 && (text != "" ==> text[0] != '/')
    ensures Read(s, "*" + text)
            == if Trim(text) == "" && s.commentLines == [] then s
               else s.(commentLines := s.commentLines + [Trim(text)])
  {
    hide AddCode, Compact, CommentOf, Trim;
    var line := "*" + text;
    assert line[1..] == text;
    StartsAt(line, "*/", 1);
  }

  lemma ReadInside(s: Scanner, line: string)
    requires s.depth > 0 && line != "" && line[0] != '*'
    ensures Read(s, line) == s.(commentLines := s.commentLines + [line])
  {
    hide AddCode, Compact, CommentOf, Trim;
  }

  /** Whatever follows the closing mark is dropped. */
  lemma ReadClose(s: Scanner, rest: string)
    requires s.depth > 0
    ensures Read(s, "*/" + rest) == s.(depth := s.depth - 1)
  {
    hide AddCode, Compact, CommentOf, AddComment, Trim;
  }

  /** Everything else is code. */
  lemma ReadCode(s: Scanner, line: string)
    requires s.depth == 0 && line != "" && (|line| >= 2 && line[0] == '/' ==> line[1] != '/' && line[1] != '*')
    ensures Read(s, line) == AddCode(s, Compact(line))
  {
    hide AddCode, Compact, CommentOf, AddComment;
    Openers(line);
    StartsAt(line, "//", 1);
    StartsAt(line, "/*", 1);
  }

  /** Code up to a semicolon is a definition, described by the comments since the
      last one. */
  lemma CodeAdded(s: Scanner, code: string)
    ensures AddCode(s, code + ";")
            == Scanner(s.depth, [], [], s.comments + [Join(s.commentLines, " ")],
                       s.codes + [Join(s.codeLines, "") + code])
    ensures (code != "" ==> code[|code| - 1] != ';') ==> AddCode(s, code) == s.(codeLines := s.codeLines + [code])
  {
    JoinLast(s.codeLines, code + ";");
    var whole := Join(s.codeLines + [code + ";"], "");
    assert whole == (Join(s.codeLines, "") + code) + ";";
    assert whole[..|whole| - 1] == Join(s.codeLines, "") + code;
  }

  lemma CommentAfter(prefix: string, text: string)
    ensures StartsWith(prefix + text, prefix)
    ensures CommentOf(prefix + text, prefix) == if Trim(text) == "" then [] else [Trim(text)]
  {
    hide Trim;
    assert (prefix + text)[|prefix|..] == text;
  }
}
