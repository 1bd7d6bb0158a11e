/** A written definition, squeezed by the scanner, is read back. */
module FieldRoundTrip {
  import opened Basics
  import opened Text
  import opened ByteSlices
  import opened ConfigExtract
  import opened ConfigScan
  import opened ConfigSettings
  import opened ConfigWriter
  import DefinitionReading

  /** The definition without blanks. */
  function Squeezed(f: Field): string {
    f.name + (if f.optional then "?:" else ":") + TypeText(SqueezedKind(f.kind), f.quotes, "|")
    + (if f.default.Some? then "=" + Literal(SqueezedValue(f.default.value), f.quote) else "")
  }

  lemma SqueezeAppend(a: string, b: string)
    ensures Squeeze(a + b) == Squeeze(a) + Squeeze(b)
  {
    WithoutAppend(a, b, {' ', '\t'});
  }

  lemma SqueezeNothing(s: string)
    ensures Squeeze(s) == s <==> ' ' !in s && '\t' !in s
  {
    WithoutNothing(s, {' ', '\t'});
  }

  lemma SqueezeQuoted(s: string, quote: Quote)
    ensures Squeeze(Quoted(s, quote)) == Quoted(Squeeze(s), quote)
  {
    var mark := Mark(quote);
    SqueezeNothing(mark);
    assert Squeeze(mark) == mark;
    hide Squeeze, Mark;
    SqueezeAppend(mark + s, mark);
    SqueezeAppend(mark, s);
  }

  lemma SqueezeQuotedAll(options: seq<string>, quotes: seq<Quote>)
    ensures SqueezeAll(QuotedAll(options, quotes)) == QuotedAll(SqueezeAll(options), quotes)
  {
    forall i | 0 <= i < |options|
      ensures SqueezeAll(QuotedAll(options, quotes))[i] == QuotedAll(SqueezeAll(options), quotes)[i]
    {
      SqueezeQuoted(options[i], QuoteAt(quotes, i));
    }
    hide Squeeze, Quoted;
  }

  lemma {:induction false} SqueezeJoin(texts: seq<string>)
    ensures Squeeze(Join(texts, " | ")) == Join(SqueezeAll(texts), "|")
  {
    if |texts| > 1 {
      assert SqueezeAll(texts)[1..] == SqueezeAll(texts[1..]);
      SqueezeJoin(texts[1..]);
      SqueezeAppend(texts[0] + " | ", Join(texts[1..], " | "));
      SqueezeAppend(texts[0], " | ");
      assert Squeeze(" | ") == "|";
    }
  }

  lemma SqueezeType(kind: Kind, quotes: seq<Quote>)
    ensures Squeeze(TypeText(kind, quotes, " | ")) == TypeText(SqueezedKind(kind), quotes, "|")
  {
    if kind.Choice? {
      SqueezeJoin(QuotedAll(kind.options, quotes));
      SqueezeQuotedAll(kind.options, quotes);
    } else {
      SqueezeNothing(TypeText(kind, quotes, " | "));
    }
  }

  lemma SqueezeLiteral(value: Value, quote: Quote)
    requires value.NumberValue? ==> forall c :: c in value.literal ==> !IsBlank(c)
    ensures Squeeze(Literal(value, quote)) == Literal(SqueezedValue(value), quote)
  {
    if value.TextValue? {
      SqueezeQuoted(value.text, quote);
    } else if value.ChoiceValue? {
      SqueezeQuoted(value.option, quote);
    } else {
      SqueezeNothing(Literal(value, quote));
    }
  }

  function Separator(f: Field): string {
    if f.optional then "?: " else ": "
  }

  function DefaultText(f: Field): string {
    if f.default.Some? then " = " + Literal(f.default.value, f.quote) else ""
  }

  /** A space beside a text is dropped. */
  lemma SqueezeSpace(s: string)
    ensures Squeeze(s + " ") == Squeeze(s) && Squeeze(" " + s) == Squeeze(s)
  {
    SqueezeAppend(s, " ");
    SqueezeAppend(" ", s);
    assert Squeeze(" ") == "";
  }

  lemma SqueezeSeparators(f: Field)
    ensures Squeeze(Separator(f)) == if f.optional then "?:" else ":"
    ensures Squeeze(" = ") == "="
  {
    SqueezeNothing(":");
    SqueezeNothing("?:");
    SqueezeNothing("=");
    hide Squeeze;
    SqueezeSpace(":");
    SqueezeSpace("?:");
    SqueezeSpace("=");
    SqueezeSpace(" =");
    assert ":" + " " == ": " && "?:" + " " == "?: " && " " + "=" == " =" && " =" + " " == " = ";
  }

  lemma SqueezeDefault(f: Field, isNumber: string -> bool)
    requires CanWrite(f, isNumber)
    ensures Squeeze(DefaultText(f))
            == if f.default.Some? then "=" + Literal(SqueezedValue(f.default.value), f.quote) else ""
  {
    if f.default.Some? {
      SqueezeAppend(" = ", Literal(f.default.value, f.quote));
      SqueezeSeparators(f);
      SqueezeLiteral(f.default.value, f.quote);
    }
  }

  /** The scanner's text of a definition. */
  lemma SqueezeDefinition(f: Field, isNumber: string -> bool)
    requires CanWrite(f, isNumber)
    ensures Squeeze(DefinitionText(f)) == Squeezed(f)
  {
    SqueezeSeparators(f);
    SqueezeType(f.kind, f.quotes);
    SqueezeDefault(f, isNumber);
    SqueezeNothing(f.name);
    hide Squeeze, Literal, TypeText, SqueezedKind, SqueezedValue;
    var kind := TypeText(f.kind, f.quotes, " | ");
    SqueezeAppend(f.name + Separator(f) + kind, DefaultText(f));
    SqueezeAppend(f.name + Separator(f), kind);
    SqueezeAppend(f.name, Separator(f));
  }

  lemma QuotedInside(s: string, quote: Quote)
    ensures Inside(Quoted(s, quote)) == Some(s)
  {
    InsideExactly(Quoted(s, quote));
    assert Quoted(s, quote)[1..|Quoted(s, quote)| - 1] == s;
  }

  /** An option in quotes is read as what is between them, exactly unless it is in
      double quotes and holds a single one. */
  lemma OptionBack(s: string, quote: Quote)
    ensures OptionOf(Quoted(s, quote)) == if quote.Double? && '\'' in s then Err(Internal) else Ok(s)
  {
    var text := Quoted(s, quote);
    QuoteIn(s, quote);
    if quote.Single? {
      FindIs(text, '\'', 0);
    } else {
      FindIs(text, '"', 0);
    }
    QuotedInside(s, quote);
    hide Inside;
  }

  lemma QuoteIn(s: string, quote: Quote)
    ensures var text := Quoted(s, quote);
            && text[0] == (if quote.Single? then '\'' else '"')
            && ('\'' in text <==> quote.Single? || '\'' in s)
  {
    var text := Quoted(s, quote);
    if '\'' in s {
      var i :| 0 <= i < |s| && s[i] == '\'';
      assert text[i + 1] == '\'';
    }
  }

  lemma {:induction false} OptionsBack(options: seq<string>, quotes: seq<Quote>)
    requires forall i :: 0 <= i < |options| && '\'' in options[i] ==> QuoteAt(quotes, i).Single?
    ensures OptionsOf(QuotedAll(options, quotes)) == Ok(options)
  {
    hide OptionOf, Quoted;
    if options != [] {
      var n := |options| - 1;
      var quoted := QuotedAll(options, quotes);
      assert quoted[..n] == QuotedAll(options[..n], quotes);
      OptionsBack(options[..n], quotes);
      OptionBack(options[n], QuoteAt(quotes, n));
      assert options == options[..n] + [options[n]];
    }
  }

  /** A type with such an option is not read. */
  lemma ApostropheAtAnExample()
    ensures KindOf(TypeText(Choice(["it's"]), [Double], " | ")) == Err(Internal)
  {
    var text := Quoted("it's", Double);
    assert QuotedAll(["it's"], [Double]) == [text];
    assert '|' !in text && text[0] == '"' && "it's"[2] == '\'';
    OptionBack("it's", Double);
    hide OptionOf, KindOf, Quoted;
    OneOption(text);
  }

  lemma OneOption(text: string)
    requires '|' !in text && text != "" && text[0] == '"' && OptionOf(text) == Err(Internal)
    ensures KindOf(text) == Err(Internal)
  {
    hide OptionOf, Find;
    FindIs(text, '|', |text|);
    assert Split(text, '|') == [text];
    assert [text][..0] == [];
    assert OptionsOf([text][..0]) == Ok([]);
  }

  lemma NoBars(options: seq<string>, quotes: seq<Quote>)
    requires forall o :: o in options ==> '|' !in o
    ensures forall part :: part in QuotedAll(SqueezeAll(options), quotes) ==> '|' !in part
  {
    var squeezed := SqueezeAll(options);
    var quoted := QuotedAll(squeezed, quotes);
    forall part | part in quoted
      ensures '|' !in part
    {
      var i :| 0 <= i < |quoted| && quoted[i] == part;
      assert options[i] in options;
      hide *;
      NoBar(options[i], QuoteAt(quotes, i));
    }
  }

  lemma NoBar(s: string, quote: Quote)
    requires '|' !in s
    ensures '|' !in Quoted(Squeeze(s), quote)
  {
    WithoutOnly(s, {' ', '\t'}, '|');
  }

  lemma ChoiceText(options: seq<string>, quotes: seq<Quote>)
    requires options != []
    ensures var text := Join(QuotedAll(options, quotes), "|");
            && text != "" && (text[0] == '\'' || text[0] == '"')
            && (text[|text| - 1] == '\'' || text[|text| - 1] == '"')
  {
    hide Join;
    JoinEnds(QuotedAll(options, quotes), "|");
  }

  lemma ChoiceBack(options: seq<string>, quotes: seq<Quote>)
    requires options != []
    requires forall i :: 0 <= i < |options| && '\'' in options[i] ==> QuoteAt(quotes, i).Single?
    requires forall part :: part in QuotedAll(options, quotes) ==> '|' !in part
    ensures KindOf(Join(QuotedAll(options, quotes), "|")) == Ok(Choice(options))
  {
    hide Join, Split, OptionsOf, QuotedAll;
    assert QuotedAll(options, quotes) != [];
    assert "|" == ['|'];
    SplitJoin(QuotedAll(options, quotes), '|');
    OptionsBack(options, quotes);
    ChoiceText(options, quotes);
  }

  lemma QuotesFit(options: seq<string>, quotes: seq<Quote>)
    requires forall i :: 0 <= i < |options| && '\'' in options[i] ==> QuoteAt(quotes, i).Single?
    ensures forall i :: 0 <= i < |options| && '\'' in SqueezeAll(options)[i] ==> QuoteAt(quotes, i).Single?
  {
    forall i | 0 <= i < |options| && '\'' in SqueezeAll(options)[i]
      ensures '\'' in options[i]
    {
      WithoutOnly(options[i], {' ', '\t'}, '\'');
    }
    hide Squeeze;
  }

  lemma NamedKindBack(kind: Kind, quotes: seq<Quote>)
    requires !kind.Choice?
    ensures var text := TypeText(SqueezedKind(kind), quotes, "|");
            KindOf(text) == Ok(SqueezedKind(kind)) && text != "" && !IsBlank(text[|text| - 1])
  {
  }

  lemma KindBack(kind: Kind, quotes: seq<Quote>)
    requires CanWriteKind(kind, quotes)
    ensures var text := TypeText(SqueezedKind(kind), quotes, "|");
            KindOf(text) == Ok(SqueezedKind(kind)) && text != "" && !IsBlank(text[|text| - 1])
  {
    hide KindOf, Join, QuotedAll, Squeeze, Quoted, QuoteAt, IsOneLine;
    if kind.Choice? {
      NoBars(kind.options, quotes);
      QuotesFit(kind.options, quotes);
      ChoiceBack(SqueezeAll(kind.options), quotes);
      ChoiceText(SqueezeAll(kind.options), quotes);
    } else {
      NamedKindBack(kind, quotes);
    }
  }

  lemma JoinUnfolds(parts: seq<string>, separator: string)
    requires parts != []
    ensures Join(parts, separator)
            == if |parts| == 1 then parts[0] else parts[0] + separator + Join(parts[1..], separator)
  {
  }

  lemma {:induction false} JoinEnds(parts: seq<string>, separator: string)
    requires parts != [] && forall i :: 0 <= i < |parts| ==> parts[i] != ""
    ensures var text := Join(parts, separator); var last := parts[|parts| - 1];
            text != "" && text[0] == parts[0][0] && text[|text| - 1] == last[|last| - 1]
  {
    hide Join;
    JoinUnfolds(parts, separator);
    if |parts| > 1 {
      JoinEnds(parts[1..], separator);
    }
  }

  lemma DefaultBack(kind: Kind, value: Value, quote: Quote, isNumber: string -> bool)
    requires CanWriteValue(kind, value, quote, isNumber)
    ensures DefaultOf(SqueezedKind(kind), Literal(SqueezedValue(value), quote), isNumber) == Ok(SqueezedValue(value))
  {
    if value.TextValue? {
      QuotedInside(Squeeze(value.text), quote);
    } else if value.ChoiceValue? {
      QuotedInside(Squeeze(value.option), quote);
    }
    hide Inside;
    if kind.Choice? {
      var i :| 0 <= i < |kind.options| && kind.options[i] == value.option;
      assert SqueezeAll(kind.options)[i] == Squeeze(value.option);
    }
  }

  function Parts(name: string, optional: bool, typeText: string, default: Option<string>): string {
    name + (if optional then "?:" else ":") + typeText + (if default.Some? then "=" + default.value else "")
  }

  lemma PartsTrimmed(d: string, name: string)
    requires IsName(name) && name <= d && !IsBlank(d[|d| - 1])
    ensures Trim(d) == d
  {
    assert d[0] == name[0];
    TrimSame(d);
  }

  lemma NameIsPlain(name: string)
    requires IsName(name)
    ensures name != "" && '=' !in name && ':' !in name && '?' !in name
  {
  }

  /** The parts are those the reader takes the definition apart into. */
  lemma PartsAreRead(name: string, optional: bool, typeText: string, default: Option<string>)
    requires name != "" && '=' !in name && ':' !in name && '?' !in name && typeText != "" && '=' !in typeText
    requires optional || '?' !in Parts(name, optional, typeText, default)
    ensures DefinitionReading.IsReading(Parts(name, optional, typeText, default),
                                        DefinitionReading.Cut(name, if optional then "?:" else ":", typeText, default))
  {
  }

  lemma PartsStart(name: string, optional: bool, typeText: string, default: Option<string>)
    ensures name <= Parts(name, optional, typeText, default)
  {
  }

  /** A definition is read as the parts it is made of. */
  lemma PartsBack(name: string, optional: bool, typeText: string, default: Option<string>,
                  description: string, prefix: string, isNumber: string -> bool)
    requires IsName(name) && typeText != "" && '=' !in typeText
    requires var d := Parts(name, optional, typeText, default);
             (optional || '?' !in d) && !IsBlank(d[|d| - 1])
    ensures SettingOf(Parts(name, optional, typeText, default), description, prefix, isNumber)
            == SettingFrom(name, optional, typeText, default, description, prefix, isNumber)
  {
    hide *;
    var d := Parts(name, optional, typeText, default);
    NameIsPlain(name);
    PartsAreRead(name, optional, typeText, default);
    PartsStart(name, optional, typeText, default);
    PartsTrimmed(d, name);
    var cut := DefinitionReading.Cut(name, if optional then "?:" else ":", typeText, default);
    DefinitionReading.ReadingIsTaken(d, cut, description, prefix, isNumber);
  }

  lemma LastOfLiteral(kind: Kind, value: Value, quote: Quote, isNumber: string -> bool)
    requires CanWriteValue(kind, value, quote, isNumber)
    ensures var text := "=" + Literal(SqueezedValue(value), quote); !IsBlank(text[|text| - 1])
  {
  }

  lemma LastOfSqueezed(f: Field, isNumber: string -> bool)
    requires CanWrite(f, isNumber)
    ensures Squeezed(f) != "" && !IsBlank(Squeezed(f)[|Squeezed(f)| - 1])
  {
    KindBack(f.kind, f.quotes);
    if f.default.Some? {
      LastOfLiteral(f.kind, f.default.value, f.quote, isNumber);
    }
    hide TypeText, KindOf, IsBlank, Literal, SqueezedValue, CanWriteKind, CanWriteValue, IsName, IsComment;
  }

  lemma NoMark(f: Field, isNumber: string -> bool)
    requires CanWrite(f, isNumber) && !f.optional
    ensures '?' !in Squeezed(f)
  {
    SqueezeDefinition(f, isNumber);
    WithoutOnly(DefinitionText(f), {' ', '\t'}, '?');
    hide Squeezed, DefinitionText, CanWriteKind, CanWriteValue;
  }

  lemma NoEquals(kind: Kind, quotes: seq<Quote>)
    requires CanWriteKind(kind, quotes)
    ensures '=' !in TypeText(SqueezedKind(kind), quotes, "|")
  {
    hide Without, Join, QuotedAll, SqueezedKind;
    SqueezeType(kind, quotes);
    WithoutOnly(TypeText(kind, quotes, " | "), {' ', '\t'}, '=');
    if kind.Choice? {
      NoEqualsQuoted(kind.options, quotes);
      NoEqualsJoined(QuotedAll(kind.options, quotes));
    }
  }

  lemma NoEqualsQuoted(options: seq<string>, quotes: seq<Quote>)
    requires forall o :: o in options ==> '=' !in o
    ensures forall i :: 0 <= i < |options| ==> '=' !in QuotedAll(options, quotes)[i]
  {
    assert forall i :: 0 <= i < |options| ==> options[i] in options;
  }

  lemma {:induction false} NoEqualsJoined(texts: seq<string>)
    requires forall i :: 0 <= i < |texts| ==> '=' !in texts[i]
    ensures '=' !in Join(texts, " | ")
  {
    if |texts| > 1 {
      NoEqualsJoined(texts[1..]);
    }
  }

  function SqueezedDefault(f: Field): Option<string> {
    if f.default.Some? then Some(Literal(SqueezedValue(f.default.value), f.quote)) else None
  }

  lemma SqueezedParts(f: Field)
    ensures Squeezed(f) == Parts(f.name, f.optional, TypeText(SqueezedKind(f.kind), f.quotes, "|"), SqueezedDefault(f))
  {
    hide TypeText, SqueezedKind, Literal, SqueezedValue;
  }

  lemma SettingBack(f: Field, prefix: string, isNumber: string -> bool)
    requires CanWrite(f, isNumber)
    ensures SettingFrom(f.name, f.optional, TypeText(SqueezedKind(f.kind), f.quotes, "|"), SqueezedDefault(f),
                        Join(f.comments, " "), prefix, isNumber)
            == Ok(Written(f, prefix))
  {
    KindBack(f.kind, f.quotes);
    if f.default.Some? {
      DefaultBack(f.kind, f.default.value, f.quote, isNumber);
      assert SqueezedDefault(f) == Some(Literal(SqueezedValue(f.default.value), f.quote));
      hide *;
      FromTexts(f, Literal(SqueezedValue(f.default.value), f.quote), prefix, isNumber);
    } else {
      hide KindOf, TypeText, SqueezedKind, Join;
    }
  }

  lemma FromTexts(f: Field, text: string, prefix: string, isNumber: string -> bool)
    requires f.default.Some?
    requires var kind := SqueezedKind(f.kind);
             && KindOf(TypeText(kind, f.quotes, "|")) == Ok(kind)
             && DefaultOf(kind, text, isNumber) == Ok(SqueezedValue(f.default.value))
    ensures SettingFrom(f.name, f.optional, TypeText(SqueezedKind(f.kind), f.quotes, "|"), Some(text),
                        Join(f.comments, " "), prefix, isNumber)
            == Ok(Written(f, prefix))
  {
    hide TypeText, KindOf, DefaultOf, SqueezedKind, SqueezedValue, Join, TypeCheck;
  }

  /** A squeezed definition is read as the setting that was written. */
  lemma DefinitionBack(f: Field, prefix: string, isNumber: string -> bool)
    requires CanWrite(f, isNumber)
    ensures SettingOf(Squeezed(f), Join(f.comments, " "), prefix, isNumber) == Ok(Written(f, prefix))
  {
    var typeText := TypeText(SqueezedKind(f.kind), f.quotes, "|");
    LastOfSqueezed(f, isNumber);
    KindBack(f.kind, f.quotes);
    NoEquals(f.kind, f.quotes);
    if !f.optional {
      NoMark(f, isNumber);
    }
    SettingBack(f, prefix, isNumber);
    SqueezedParts(f);
    hide Squeezed, SqueezedDefault, Parts, TypeText, SettingFrom, SettingOf, Written, Join, KindOf, IsBlank, IsName,
      CanWriteKind, CanWriteValue;
    PartsBack(f.name, f.optional, typeText, SqueezedDefault(f), Join(f.comments, " "), prefix, isNumber);
  }
}
