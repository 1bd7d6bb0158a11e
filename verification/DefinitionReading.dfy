/** Which definitions are read at all, and what becomes of the others. */
module DefinitionReading {
  import opened Basics
  import opened Text
  import opened ByteSlices
  import opened ConfigExtract
  import opened ConfigSettings

  /** A way to take a definition apart. The mark is a colon, or a question mark
      and the narrow character that follows it. */
  datatype Cut = Cut(name: string, mark: string, typeText: string, default: Option<string>)

  function Tail(default: Option<string>): string {
    if default.Some? then "=" + default.value else ""
  }

  /** The parts make up the definition, the mark is the first one there, a
      question mark before any colon, and only a default follows an equals sign. */
  predicate IsReading(entry: string, cut: Cut) {
    && entry == cut.name + cut.mark + cut.typeText + Tail(cut.default)
    && cut.typeText != "" && '=' !in cut.name && '=' !in cut.mark && '=' !in cut.typeText
    && (if cut.mark == ":" then ':' !in cut.name && '?' !in entry
        else |cut.mark| == 2 && cut.mark[0] == '?' && '?' !in cut.name && !IsWide(cut.mark[1]))
  }

  /** The first question mark has a wide character behind it, and no equals sign
      in front of it: the type is sliced off inside that character. */
  ghost predicate HasWideMark(entry: string) {
    exists i :: 0 <= i < |entry| - 1 && entry[i] == '?' && IsWide(entry[i + 1])
      && '?' !in entry[..i] && '=' !in entry[..i]
  }

  lemma FrontFound(name: string, sep: string, typeText: string, tail: string)
    requires sep != "" && typeText != ""
    requires '=' !in name && '=' !in sep && '=' !in typeText && (tail != "" ==> tail[0] == '=')
    ensures var d := name + sep + typeText + tail;
            var typeStart := |name + sep|;
            var equals := typeStart + |typeText|;
            && d[..|name|] == name && d[|name|] == sep[0] && d[typeStart..equals] == typeText
            && (|sep| == 2 ==> d[|name| + 1] == sep[1])
            && d[equals..] == tail && (tail != "" ==> d[equals + 1..] == tail[1..])
            && Find(d, '=') == equals
  {
    var d := name + sep + typeText + tail;
    assert d[..|name + sep + typeText|] == name + sep + typeText;
    FindIs(d, '=', |name + sep + typeText|);
  }

  /** The parts stand in the entry behind each other. */
  predicate IsCut(entry: string, cut: Cut) {
    var typeStart := |cut.name| + |cut.mark|;
    var equals := typeStart + |cut.typeText|;
    && |entry| >= equals && entry[..|cut.name|] == cut.name && entry[typeStart..equals] == cut.typeText
    && (if cut.default.Some? then |entry| > equals && entry[equals + 1..] == cut.default.value
        else |entry| == equals)
    && (|cut.mark| == 2 ==> !IsWide(entry[|cut.name| + 1]))
  }

  lemma ReadingFound(entry: string, cut: Cut)
    requires IsReading(entry, cut)
    ensures cut.typeText != "" && (|cut.mark| == 1 || |cut.mark| == 2)
    ensures IsCut(entry, cut)
    ensures if |cut.mark| == 2 then Find(entry, '?') == |cut.name|
            else Find(entry, '?') == |entry| && Find(entry, ':') == |cut.name|
    ensures Find(entry, '=') == |cut.name| + |cut.mark| + |cut.typeText|
  {
    hide Find;
    FrontFound(cut.name, cut.mark, cut.typeText, Tail(cut.default));
    if |cut.mark| == 2 {
      FindBehind(entry, '?', |cut.name|);
    } else {
      FindIs(entry, '?', |entry|);
      FindBehind(entry, ':', |cut.name|);
    }
  }

  lemma EntryTaken(entry: string, question: nat, colon: nat, equals: nat, cut: Cut,
                   description: string, prefix: string, isNumber: string -> bool)
    requires cut.typeText != "" && (|cut.mark| == 1 || |cut.mark| == 2) && IsCut(entry, cut)
    requires question <= |entry| && colon <= |entry|
    requires if |cut.mark| == 2 then question == |cut.name| else question == |entry| && colon == |cut.name|
    requires equals == |cut.name| + |cut.mark| + |cut.typeText|
    ensures equals <= |entry|
    ensures SettingAt(entry, question, colon, equals, description, prefix, isNumber)
            == SettingFrom(cut.name, |cut.mark| == 2, cut.typeText, cut.default, description, prefix, isNumber)
  {
    hide SettingFrom;
  }

  /** What such parts make up is read as them. */
  lemma ReadingIsTaken(definition: string, cut: Cut, description: string, prefix: string, isNumber: string -> bool)
    requires IsReading(Trim(definition), cut)
    ensures SettingOf(definition, description, prefix, isNumber)
            == SettingFrom(cut.name, |cut.mark| == 2, cut.typeText, cut.default, description, prefix, isNumber)
  {
    var entry := Trim(definition);
    hide Trim, Find, SettingAt, SettingFrom, SettingOf, IsReading, IsCut;
    ReadByChars(definition, description, prefix, isNumber);
    ReadingFound(entry, cut);
    EntryTaken(entry, Find(entry, '?'), Find(entry, ':'), Find(entry, '='), cut, description, prefix, isNumber);
  }

  lemma NotBefore(s: string, c: char, i: nat, j: nat)
    requires i <= j <= Find(s, c)
    ensures c !in s[i..j]
  {
    hide Find;
    assert forall k :: i <= k < j ==> s[i..j][k - i] == s[k];
    forall k | 0 <= k < j - i
      ensures s[i..j][k] != c
    {
      assert s[i + k] != c;
    }
  }

  lemma InFour(s: string, a: nat, b: nat, c: nat)
    requires a <= b <= c <= |s|
    ensures s == s[..a] + s[a..b] + s[b..c] + s[c..]
  {
  }

  lemma FromStart(s: string, i: nat)
    requires i <= |s|
    ensures s[0..i] == s[..i] && s[..|s|] == s
  {
  }

  lemma TailAt(s: string, c: nat)
    requires c <= |s| && (c < |s| ==> s[c] == '=')
    ensures s[c..] == Tail(if c == |s| then None else Some(s[c + 1..]))
  {
  }

  lemma MarkAt(s: string, a: nat, b: nat)
    requires a < b <= |s| && b - a <= 2
    ensures |s[a..b]| == b - a && s[a..b][0] == s[a] && (b == a + 1 && s[a] == ':' ==> s[a..b] == ":")
    ensures b == a + 2 ==> s[a..b][1] == s[a + 1]
  {
  }

  /** The parts the code looks for, where its positions are in order. */
  lemma ReadingAt(entry: string) returns (cut: Cut)
    requires var question, colon := Find(entry, '?'), Find(entry, ':');
             && (question < |entry| || colon < |entry|)
             && (if question < |entry| then question + 2 else colon + 1) < Find(entry, '=')
             && (question + 1 < |entry| ==> !IsWide(entry[question + 1]))
    ensures IsReading(entry, cut)
  {
    hide Find, Tail;
    var question, colon, equals := Find(entry, '?'), Find(entry, ':'), Find(entry, '=');
    var optional := question < |entry|;
    var nameEnd := if optional then question else colon;
    var typeStart := nameEnd + if optional then 2 else 1;
    NotBefore(entry, '=', 0, nameEnd);
    NotBefore(entry, '=', nameEnd, typeStart);
    NotBefore(entry, '=', typeStart, equals);
    NotBefore(entry, if optional then '?' else ':', 0, nameEnd);
    NotBefore(entry, '?', 0, question);
    MarkAt(entry, nameEnd, typeStart);
    FromStart(entry, nameEnd);
    FromStart(entry, |entry|);
    InFour(entry, nameEnd, typeStart, equals);
    TailAt(entry, equals);
    cut := Cut(entry[..nameEnd], entry[nameEnd..typeStart], entry[typeStart..equals],
               if equals == |entry| then None else Some(entry[equals + 1..]));
  }

  /** What a wide mark is, at the position the code finds. */
  lemma WideMarkAt(entry: string)
    ensures var question := Find(entry, '?');
            HasWideMark(entry)
            <==> question + 1 < |entry| && question < Find(entry, '=') && IsWide(entry[question + 1])
  {
    hide Find, IsWide;
    var question := Find(entry, '?');
    if i :| 0 <= i < |entry| - 1 && entry[i] == '?' && IsWide(entry[i + 1])
            && '?' !in entry[..i] && '=' !in entry[..i] {
      FindBehind(entry, '?', i);
      assert forall k :: 0 <= k < i ==> entry[..i][k] == entry[k];
    } else if question + 1 < |entry| && question < Find(entry, '=') {
      NotBefore(entry, '?', 0, question);
      NotBefore(entry, '=', 0, question);
      FromStart(entry, question);
    }
  }

  /** A definition that has no such parts is an `Internal` error, or an abort if
      it has a wide mark; with a wide mark it has no such parts. */
  lemma NothingToRead(definition: string, description: string, prefix: string, isNumber: string -> bool)
    ensures HasWideMark(Trim(definition)) ==> forall cut :: !IsReading(Trim(definition), cut)
    ensures (forall cut :: !IsReading(Trim(definition), cut)) ==>
              SettingOf(definition, description, prefix, isNumber)
              == if HasWideMark(Trim(definition)) then Panic else Err(Internal)
  {
    var entry := Trim(definition);
    hide Trim, Find, IsReading, SettingFrom, HasWideMark, SettingOf, IsWide;
    ReadByChars(definition, description, prefix, isNumber);
    WideMarkAt(entry);
    if cut :| IsReading(entry, cut) {
      NoWideMark(entry, cut);
    } else if (Find(entry, '?') < |entry| || Find(entry, ':') < |entry|)
       && (if Find(entry, '?') < |entry| then Find(entry, '?') + 2 else Find(entry, ':') + 1) < Find(entry, '=')
       && !HasWideMark(entry)
    {
      var cut := ReadingAt(entry);
    }
  }

  lemma NoWideMark(entry: string, cut: Cut)
    requires IsReading(entry, cut)
    ensures !HasWideMark(entry)
  {
    hide IsReading, HasWideMark, Find;
    ReadingFound(entry, cut);
    WideMarkAt(entry);
  }

  // ---------------------------------------------------------------------
  // Types
  // ---------------------------------------------------------------------

  /** A text that starts with the quote it is taken to be in. */
  predicate StartsQuoted(text: string) {
    text != "" && if '\'' in text then text[0] == '\'' else text[0] == '"'
  }

  predicate IsQuoted(text: string) {
    StartsQuoted(text) && HasEnds(text)
  }

  /** A lone quote, or one with a wide character where its other belongs. */
  predicate IsTorn(text: string) {
    StartsQuoted(text) && !HasEnds(text)
  }

  lemma OptionExactly(text: string)
    ensures OptionOf(text) == if IsQuoted(text) then Ok(text[1..|text| - 1])
                              else if IsTorn(text) then Panic else Err(Internal)
  {
    InsideExactly(text);
    hide HasEnds, Inside;
  }

  ghost predicate AllQuoted(texts: seq<string>) {
    forall k :: 0 <= k < |texts| ==> IsQuoted(texts[k])
  }

  /** The options are what stands between the quotes. */
  lemma {:induction false} OptionsAre(texts: seq<string>)
    ensures OptionsOf(texts).Ok? <==> AllQuoted(texts)
    ensures OptionsOf(texts).Ok? ==>
              && |OptionsOf(texts).value| == |texts|
              && forall k :: 0 <= k < |texts| ==> OptionsOf(texts).value[k] == texts[k][1..|texts[k]| - 1]
  {
    if texts != [] {
      var init, last := texts[..|texts| - 1], texts[|texts| - 1];
      OptionsAre(init);
      OptionExactly(last);
      hide OptionOf, IsQuoted, IsTorn;
      assert forall k :: 0 <= k < |init| ==> init[k] == texts[k];
    }
  }

  lemma SplitNone(text: string, c: char)
    requires c !in text
    ensures Split(text, c) == [text]
  {
    hide Find;
    FindIs(text, c, |text|);
  }

  /** A type is one of three names, or options in quotes with bars between them. */
  lemma TypeExactly(typeText: string)
    ensures KindOf(typeText) == Ok(Text) <==> typeText == "string"
    ensures KindOf(typeText) == Ok(Boolean) <==> typeText == "boolean"
    ensures KindOf(typeText) == Ok(Number) <==> typeText == "number"
    ensures KindOf(typeText).Ok? && KindOf(typeText).value.Choice? <==> AllQuoted(Split(typeText, '|'))
    ensures KindOf(typeText).Ok? && KindOf(typeText).value.Choice? ==>
              var texts, options := Split(typeText, '|'), KindOf(typeText).value.options;
              |options| == |texts| && forall k :: 0 <= k < |texts| ==> options[k] == texts[k][1..|texts[k]| - 1]
  {
    hide Split, OptionsOf, AllQuoted;
    OptionsAre(Split(typeText, '|'));
    if typeText == "string" || typeText == "boolean" || typeText == "number" {
      NameIsNotQuoted(typeText);
    }
  }

  lemma NameIsNotQuoted(text: string)
    requires text == "string" || text == "boolean" || text == "number"
    ensures !AllQuoted(Split(text, '|'))
  {
    assert '|' !in text && '\'' !in text && text[0] != '"';
    hide Split, HasEnds;
    SplitNone(text, '|');
    assert !IsQuoted([text][0]);
  }

  // ---------------------------------------------------------------------
  // Defaults
  // ---------------------------------------------------------------------

  /** The value a type gives to the text of a default. */
  predicate IsValue(kind: Kind, text: string, value: Value, isNumber: string -> bool) {
    match kind
    case Text => HasEnds(text) && value == TextValue(text[1..|text| - 1])
    case Boolean => (text == "true" || text == "false") && value == BooleanValue(text == "true")
    case Number => isNumber(text) && value == NumberValue(text)
    case Choice(options) => HasEnds(text) && text[1..|text| - 1] in options && value == ChoiceValue(text[1..|text| - 1])
  }

  /** Which texts a type takes as its default. */
  ghost predicate Fits(kind: Kind, text: string, isNumber: string -> bool) {
    exists value :: IsValue(kind, text, value, isNumber)
  }

  lemma DefaultExactly(kind: Kind, text: string, isNumber: string -> bool)
    ensures var r := DefaultOf(kind, text, isNumber);
            && (r.Ok? <==> Fits(kind, text, isNumber))
            && (r.Ok? ==> IsValue(kind, text, r.value, isNumber))
            && (r == Panic <==> (kind.Text? || kind.Choice?) && !HasEnds(text))
            && (r == Err(BadRequest) <==> kind.Choice? && HasEnds(text) && !Fits(kind, text, isNumber))
            && (r == Err(Internal) <==> (kind.Boolean? || kind.Number?) && !Fits(kind, text, isNumber))
            && r != Err(NotFound)
  {
    InsideExactly(text);
    hide Inside, HasEnds;
    var r := DefaultOf(kind, text, isNumber);
    assert r.Ok? ==> IsValue(kind, text, r.value, isNumber);
  }

  /** Any definition that has parts and a type that can be read is itself read
      exactly if it is optional or has a default, and the default fits; it has the
      name of its parts, and as its value and default what the type gives to the
      text. A missing default is `NotFound`, an option that is not in the enum
      `BadRequest`, any other text that is no value of the type `Internal`, and an
      abort is a text in place of a quoted one that is shorter than two or has a
      wide character where a quote belongs. */
  lemma ReadExactly(definition: string, cut: Cut, description: string, prefix: string, isNumber: string -> bool)
    requires IsReading(Trim(definition), cut) && KindOf(cut.typeText).Ok?
    ensures var r := SettingOf(definition, description, prefix, isNumber);
            var kind, default, optional := KindOf(cut.typeText).value, cut.default, |cut.mark| == 2;
            && (r.Ok? <==> if default.Some? then Fits(kind, default.value, isNumber) else optional)
            && (r.Ok? ==> IsSettingFor(r.value, cut, kind, description, prefix, isNumber))
            && (r == Err(NotFound) <==> default.None? && !optional)
            && (r == Err(BadRequest) <==>
                  default.Some? && kind.Choice? && HasEnds(default.value) && !Fits(kind, default.value, isNumber))
            && (r == Panic <==> default.Some? && (kind.Text? || kind.Choice?) && !HasEnds(default.value))
  {
    ReadingIsTaken(definition, cut, description, prefix, isNumber);
    hide KindOf, SettingOf, IsReading, SettingFrom, Fits, IsSettingFor;
    FromExactly(cut, description, prefix, isNumber);
  }

  /** The setting of these parts. */
  predicate IsSettingFor(s: Setting, cut: Cut, kind: Kind, description: string, prefix: string,
                         isNumber: string -> bool)
  {
    && s.name == cut.name && s.description == description && s.id == prefix + "|" + cut.name && s.kind == kind
    && s.required == cut.default.Some? && !s.secret && s.changeable && s.value == s.default
    && if cut.default.None? then s.value == None
       else s.value.Some? && IsValue(kind, cut.default.value, s.value.value, isNumber)
  }

  lemma FromExactly(cut: Cut, description: string, prefix: string, isNumber: string -> bool)
    requires KindOf(cut.typeText).Ok?
    ensures var r := SettingFrom(cut.name, |cut.mark| == 2, cut.typeText, cut.default, description, prefix, isNumber);
            var kind, default, optional := KindOf(cut.typeText).value, cut.default, |cut.mark| == 2;
            && (r.Ok? <==> if default.Some? then Fits(kind, default.value, isNumber) else optional)
            && (r.Ok? ==> IsSettingFor(r.value, cut, kind, description, prefix, isNumber))
            && (r == Err(NotFound) <==> default.None? && !optional)
            && (r == Err(BadRequest) <==>
                  default.Some? && kind.Choice? && HasEnds(default.value) && !Fits(kind, default.value, isNumber))
            && (r == Panic <==> default.Some? && (kind.Text? || kind.Choice?) && !HasEnds(default.value))
  {
    hide KindOf, DefaultOf, Fits, IsValue, HasEnds;
    if cut.default.Some? {
      DefaultExactly(KindOf(cut.typeText).value, cut.default.value, isNumber);
    }
  }

  /** A type that cannot be read is passed on as the failure it is. */
  lemma TypeNotRead(definition: string, cut: Cut, description: string, prefix: string, isNumber: string -> bool)
    requires IsReading(Trim(definition), cut) && !KindOf(cut.typeText).Ok?
    ensures var r, kind := SettingOf(definition, description, prefix, isNumber), KindOf(cut.typeText);
            !r.Ok? && (r.Panic? <==> kind.Panic?) && (r.Err? ==> r.error == kind.error)
  {
    ReadingIsTaken(definition, cut, description, prefix, isNumber);
    hide KindOf, SettingOf, IsReading;
  }
}
