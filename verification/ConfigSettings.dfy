/** Reading the definitions of a config class into settings. */
module ConfigSettings {
  import opened Basics
  import opened Text
  import opened ByteSlices
  import opened ConfigExtract
  import opened ConfigScan

  /** The value types a config class can have. */
  datatype Kind = Text | Boolean | Number | Choice(options: seq<string>)

  /** A number is kept as the literal it is parsed from. */
  datatype Value = TextValue(text: string) | BooleanValue(on: bool) | NumberValue(literal: string)
                 | ChoiceValue(option: string)

  /** A `SettingManifest`. */
  datatype Setting = Setting(id: string, name: string, description: string, value: Option<Value>, kind: Kind,
                             default: Option<Value>, secret: bool, required: bool, changeable: bool)

  /** An `IndexMap` of settings by their name, in the order of insertion. */
  type Config = seq<Setting>

  predicate TypeCheck(kind: Kind, value: Value) {
    match kind
    case Text => value.TextValue?
    case Boolean => value.BooleanValue?
    case Number => value.NumberValue?
    case Choice(options) => value.ChoiceValue? && value.option in options
  }

  /** `new_value_with_type`, which must not be given a value of another type. */
  function NewSetting(id: string, name: string, description: string, value: Option<Value>, kind: Kind): Setting
    requires value.Some? ==> TypeCheck(kind, value.value)
  {
    Setting(id, name, description, value, kind, value, false, value.Some?, true)
  }

  /** A slice, or the abort of one that cuts a character. */
  function OrAbort(slice: Option<string>): (r: Outcome<string>)
    ensures r.Panic? <==> slice.None?
    ensures r.Ok? <==> slice.Some?
    ensures r.Ok? ==> r.value == slice.value
  {
    if slice.None? then Panic else Ok(slice.value)
  }

  /** One option of an enum type. */
  function OptionOf(text: string): Outcome<string> {
    var quote := if '\'' in text then Find(text, '\'') else Find(text, '"');
    if quote == |text| || quote > 0 then Err(Internal)
    else OrAbort(Inside(text))
  }

  /** The options up to the first that cannot be read. */
  function OptionsOf(texts: seq<string>): Outcome<seq<string>> {
    if texts == [] then Ok([])
    else
      var before := OptionsOf(texts[..|texts| - 1]);
      if !before.Ok? then before
      else
        var last := OptionOf(texts[|texts| - 1]);
        if last.Ok? then Ok(before.value + [last.value])
        else if last.Err? then Err(last.error) else Panic
  }

  /** `get_config_value_type`. */
  function KindOf(text: string): Outcome<Kind> {
    if text == "string" then Ok(Text)
    else if text == "boolean" then Ok(Boolean)
    else if text == "number" then Ok(Number)
    else
      var options := OptionsOf(Split(text, '|'));
      if options.Ok? then Ok(Choice(options.value))
      else if options.Err? then Err(options.error) else Panic
  }

  lemma {:induction false} OptionsFail(texts: seq<string>, k: nat)
    requires k <= |texts| && !OptionsOf(texts[..k]).Ok?
    ensures OptionsOf(texts) == OptionsOf(texts[..k])
  {
    if k == |texts| {
      assert texts[..k] == texts;
    } else {
      var before := texts[..|texts| - 1];
      assert before[..k] == texts[..k];
      OptionsFail(before, k);
    }
  }

  method ParseKind(text: string) returns (r: Outcome<Kind>)
    ensures r == KindOf(text)
  {
    hide OptionOf, Split;
    if text == "string" {
      return Ok(Text);
    } else if text == "boolean" {
      return Ok(Boolean);
    } else if text == "number" {
      return Ok(Number);
    }
    var texts := Split(text, '|');
    var options := [];
    for k := 0 to |texts|
      invariant OptionsOf(texts[..k]) == Ok(options)
    {
      assert texts[..k + 1][..k] == texts[..k];
      var option := OptionOf(texts[k]);
      if !option.Ok? {
        OptionsFail(texts, k + 1);
        return if option.Err? then Err(option.error) else Panic;
      }
      options := options + [option.value];
    }
    assert texts[..|texts|] == texts;
    return Ok(Choice(options));
  }

  function DefaultOf(kind: Kind, text: string, isNumber: string -> bool): (r: Outcome<Value>)
    ensures r.Ok? ==> TypeCheck(kind, r.value)
  {
    match kind
    case Text => if Inside(text).None? then Panic else Ok(TextValue(Inside(text).value))
    case Boolean =>
      if text == "true" then Ok(BooleanValue(true))
      else if text == "false" then Ok(BooleanValue(false)) else Err(Internal)
    case Number => if isNumber(text) then Ok(NumberValue(text)) else Err(Internal)
    case Choice(options) =>
      if Inside(text).None? then Panic
      else if Inside(text).value in options then Ok(ChoiceValue(Inside(text).value)) else Err(BadRequest)
  }

  /** The setting of a field, from the texts of its type and default. */
  function SettingFrom(name: string, optional: bool, typeText: string, default: Option<string>,
                       description: string, prefix: string, isNumber: string -> bool): Outcome<Setting>
  {
    var kind := KindOf(typeText);
    var id := prefix + "|" + name;
    if kind.Err? then Err(kind.error)
    else if kind.Panic? then Panic
    else if default.None? then
      if optional then Ok(NewSetting(id, name, description, None, kind.value)) else Err(NotFound)
    else
      var value := DefaultOf(kind.value, default.value, isNumber);
      if value.Err? then Err(value.error)
      else if value.Panic? then Panic
      else Ok(NewSetting(id, name, description, Some(value.value), kind.value))
  }

  /** `parse_config_single`, in bytes; its name is the key of the setting. */
  function SettingOf(definition: string, description: string, prefix: string, isNumber: string -> bool)
    : Outcome<Setting>
  {
    var entry := Trim(definition);
    var question, colon := FindByte(entry, '?'), FindByte(entry, ':');
    if question.None? && colon.None? then Err(Internal)
    else
      var nameEnd := if question.Some? then question.value else colon.value;
      var typeStart := nameEnd + if question.Some? then 2 else 1;
      var equals := if FindByte(entry, '=').Some? then FindByte(entry, '=').value else Length(entry);
      SettingBetween(entry, nameEnd, typeStart, equals, description, prefix, isNumber)
  }

  function SettingBetween(entry: string, nameEnd: nat, typeStart: nat, equals: nat,
                          description: string, prefix: string, isNumber: string -> bool): Outcome<Setting>
  {
    var name := Slice(entry, 0, nameEnd);
    if name.None? then Panic
    else if typeStart >= equals then Err(Internal)
    else
      var typeText, default := Slice(entry, typeStart, equals), DefaultBehind(entry, equals);
      if typeText.None? || default.None? then Panic
      else
        SettingFrom(name.value, nameEnd + 2 == typeStart, typeText.value, default.value, description, prefix, isNumber)
  }

  /** The text behind the equals sign, if there is one. */
  function DefaultBehind(entry: string, equals: nat): Option<Option<string>> {
    if equals == Length(entry) then Some(None)
    else
      var text := Slice(entry, equals + 1, Length(entry));
      if text.None? then None else Some(Some(text.value))
  }

  /** The same in characters, from the first `?`, `:` and `=`. */
  function SettingAt(entry: string, question: nat, colon: nat, equals: nat,
                     description: string, prefix: string, isNumber: string -> bool): Outcome<Setting>
    requires question <= |entry| && colon <= |entry| && equals <= |entry|
  {
    var optional := question < |entry|;
    var nameEnd := if optional then question else colon;
    var typeStart := nameEnd + if optional then 2 else 1;
    if !optional && colon == |entry| then Err(Internal)
    else if question + 1 < |entry| && question < equals && IsWide(entry[question + 1]) then Panic
    else if typeStart >= equals then Err(Internal)
    else
      var default := if equals == |entry| then None else Some(entry[equals + 1..]);
      SettingFrom(entry[..nameEnd], optional, entry[typeStart..equals], default, description, prefix, isNumber)
  }

  lemma EqualsIs(entry: string)
    ensures Offset(entry, Find(entry, '='))
            == if FindByte(entry, '=').Some? then FindByte(entry, '=').value else Length(entry)
  {
  }

  lemma DefaultIs(entry: string, equals: nat)
    requires equals <= |entry| && (equals < |entry| ==> entry[equals] == '=')
    ensures DefaultBehind(entry, Offset(entry, equals))
            == Some(if equals == |entry| then None else Some(entry[equals + 1..]))
  {
    hide Offset, Slice;
    if equals < |entry| {
      OffsetBehind(entry, equals);
      OffsetsGrow(entry, equals + 1, |entry|);
      SliceBehind(entry, equals + 1);
    }
  }

  /** Where the type starts, and that it starts before the equals sign in bytes
      exactly if it does in characters. */
  lemma TypeStartIs(entry: string, nameEnd: nat, optional: bool, equals: nat)
    requires nameEnd < |entry| && !IsWide(entry[nameEnd]) && equals <= |entry|
    requires equals < |entry| ==> !IsWide(entry[equals])
    requires optional && nameEnd + 1 < |entry| ==> !IsWide(entry[nameEnd + 1])
    ensures var start := nameEnd + if optional then 2 else 1;
            var byte := Offset(entry, nameEnd) + if optional then 2 else 1;
            && (byte >= Offset(entry, equals) <==> start >= equals)
            && (start < equals ==> byte == Offset(entry, start))
  {
    var start := nameEnd + if optional then 2 else 1;
    OffsetBehind(entry, nameEnd);
    if optional && nameEnd + 1 < |entry| {
      TwoBehind(entry, nameEnd);
    }
    hide Offset;
    if start <= |entry| {
      if start < equals {
        OffsetsGrow(entry, start, equals);
      } else {
        OffsetsGrow(entry, equals, start);
      }
    } else {
      OffsetsGrow(entry, equals, nameEnd + 1);
    }
  }

  /** Reading by bytes is reading by characters. */
  lemma NarrowBetween(entry: string, nameEnd: nat, optional: bool, equals: nat,
                      description: string, prefix: string, isNumber: string -> bool)
    requires nameEnd < |entry| && !IsWide(entry[nameEnd]) && equals <= |entry|
    requires equals < |entry| ==> entry[equals] == '='
    requires optional && nameEnd + 1 < |entry| ==> !IsWide(entry[nameEnd + 1])
    ensures SettingBetween(entry, Offset(entry, nameEnd), Offset(entry, nameEnd) + (if optional then 2 else 1),
                           Offset(entry, equals), description, prefix, isNumber)
            == (var start := nameEnd + if optional then 2 else 1;
                if start >= equals then Err(Internal)
                else
                  var default := if equals == |entry| then None else Some(entry[equals + 1..]);
                  SettingFrom(entry[..nameEnd], optional, entry[start..equals], default, description, prefix, isNumber))
  {
    hide Offset, Slice, SettingFrom, DefaultBehind;
    TypeStartIs(entry, nameEnd, optional, equals);
    SliceFront(entry, nameEnd);
    DefaultIs(entry, equals);
    var start := nameEnd + if optional then 2 else 1;
    if start < equals {
      SliceBetween(entry, start, equals);
    }
  }

  /** But for the abort at a wide character behind the question mark. */
  lemma WideBetween(entry: string, question: nat, equals: nat,
                    description: string, prefix: string, isNumber: string -> bool)
    requires question + 1 < |entry| && entry[question] == '?' && IsWide(entry[question + 1])
    requires equals == Find(entry, '=')
    ensures SettingBetween(entry, Offset(entry, question), Offset(entry, question) + 2,
                           Offset(entry, equals), description, prefix, isNumber)
            == if question < equals then Panic else Err(Internal)
  {
    hide Offset, Slice, SettingFrom, DefaultBehind, Find, IsWide;
    SliceFront(entry, question);
    WideBehind(entry, question, equals);
  }

  lemma WideBehind(entry: string, question: nat, equals: nat)
    requires question + 1 < |entry| && entry[question] == '?' && IsWide(entry[question + 1])
    requires equals == Find(entry, '=')
    ensures Offset(entry, question) + 2 < Offset(entry, equals) <==> question < equals
    ensures Slice(entry, Offset(entry, question) + 2, Offset(entry, equals)).None?
  {
    TwoBehind(entry, question);
    hide Offset;
    if question < equals {
      OffsetsGrow(entry, question + 2, equals);
    } else {
      OffsetsGrow(entry, equals, question);
    }
  }

  /** A definition is read by characters. */
  lemma ReadByChars(definition: string, description: string, prefix: string, isNumber: string -> bool)
    ensures var entry := Trim(definition);
            SettingOf(definition, description, prefix, isNumber)
            == SettingAt(entry, Find(entry, '?'), Find(entry, ':'), Find(entry, '='), description, prefix, isNumber)
  {
    var entry := Trim(definition);
    var question, colon, equals := Find(entry, '?'), Find(entry, ':'), Find(entry, '=');
    EqualsIs(entry);
    hide Trim, Find, Offset, SettingBetween, SettingFrom;
    if question + 1 < |entry| && IsWide(entry[question + 1]) {
      WideBetween(entry, question, equals, description, prefix, isNumber);
    } else if question < |entry| {
      NarrowBetween(entry, question, true, equals, description, prefix, isNumber);
    } else if colon < |entry| {
      NarrowBetween(entry, colon, false, equals, description, prefix, isNumber);
    }
  }

  /** Every setting that is read has its default as its value, of its own type,
      and is required exactly if it has one. */
  lemma SettingsAreTyped(definition: string, description: string, prefix: string, isNumber: string -> bool)
    requires SettingOf(definition, description, prefix, isNumber).Ok?
    ensures var s := SettingOf(definition, description, prefix, isNumber).value;
            && s.value == s.default && s.required == s.value.Some?
            && (s.value.Some? ==> TypeCheck(s.kind, s.value.value))
            && s.id == prefix + "|" + s.name && s.name <= Trim(definition)
  {
    ReadByChars(definition, description, prefix, isNumber);
    hide Trim, KindOf, DefaultOf, SettingOf, Find;
  }

  function PositionOf(config: Config, name: string): (i: nat)
    ensures i <= |config| && (i < |config| ==> config[i].name == name)
    ensures forall j :: 0 <= j < i ==> config[j].name != name
  {
    if config == [] || config[0].name == name then 0 else 1 + PositionOf(config[1..], name)
  }

  /** `insert`: a name that is there keeps its place. */
  function Inserted(config: Config, s: Setting): (r: Config)
    ensures s in r
  {
    var i := PositionOf(config, s.name);
    if i < |config| then
      assert config[i := s][i] == s;
      config[i := s]
    else config + [s]
  }

  predicate Distinct(config: Config) {
    forall i, j :: 0 <= i < j < |config| ==> config[i].name != config[j].name
  }

  /** The settings of all definitions, or the first failure. */
  function SettingsOf(codes: seq<string>, comments: seq<string>, prefix: string, isNumber: string -> bool)
    : Outcome<Config>
    requires |codes| == |comments|
  {
    if codes == [] then Ok([])
    else
      var n := |codes| - 1;
      var before := SettingsOf(codes[..n], comments[..n], prefix, isNumber);
      if !before.Ok? then before
      else
        var last := SettingOf(codes[n], comments[n], prefix, isNumber);
        if last.Ok? then Ok(Inserted(before.value, last.value))
        else if last.Err? then Err(last.error) else Panic
  }

  /** No two settings of a config share their name. */
  lemma {:induction false} NamesAreDistinct(codes: seq<string>, comments: seq<string>, prefix: string,
                                            isNumber: string -> bool)
    requires |codes| == |comments| && SettingsOf(codes, comments, prefix, isNumber).Ok?
    ensures Distinct(SettingsOf(codes, comments, prefix, isNumber).value)
  {
    hide SettingOf, Inserted;
    if codes != [] {
      var n := |codes| - 1;
      var before := SettingsOf(codes[..n], comments[..n], prefix, isNumber);
      assert before.Ok?;
      var last := SettingOf(codes[n], comments[n], prefix, isNumber);
      assert last.Ok?;
      hide Distinct;
      NamesAreDistinct(codes[..n], comments[..n], prefix, isNumber);
      InsertedDistinct(before.value, last.value);
    }
  }

  lemma InsertedDistinct(config: Config, s: Setting)
    requires Distinct(config)
    ensures Distinct(Inserted(config, s))
  {
  }

  /** Inserting replaces the setting of that name where it stands, or adds one at
      the end. */
  lemma InsertedExactly(config: Config, s: Setting)
    requires Distinct(config)
    ensures (forall i :: 0 <= i < |config| ==> config[i].name != s.name) ==> Inserted(config, s) == config + [s]
    ensures forall i :: 0 <= i < |config| && config[i].name == s.name ==> Inserted(config, s) == config[i := s]
  {
  }

  lemma InsertedHolds(config: Config, s: Setting, t: Setting)
    requires Distinct(config)
    ensures t in Inserted(config, s) <==> t == s || (t in config && t.name != s.name)
  {
    InsertedExactly(config, s);
    hide Inserted;
    if i :| 0 <= i < |config| && config[i].name == s.name {
      forall t | t in config && t.name != s.name ensures t in config[i := s] {
        var j :| 0 <= j < |config| && config[j] == t;
        assert config[i := s][j] == t;
      }
      assert config[i := s][i] == s;
    }
  }

  /** Definition `k` is the last that gives the setting its name. */
  predicate IsLastOfName(codes: seq<string>, comments: seq<string>, prefix: string, isNumber: string -> bool,
                         s: Setting, k: int)
    requires |codes| == |comments|
  {
    && 0 <= k < |codes| && SettingOf(codes[k], comments[k], prefix, isNumber) == Ok(s)
    && forall j :: k < j < |codes| && SettingOf(codes[j], comments[j], prefix, isNumber).Ok? ==>
                     SettingOf(codes[j], comments[j], prefix, isNumber).value.name != s.name
  }

  /** A config holds, of each name, what its last definition says. */
  lemma {:induction false} HoldsTheLast(codes: seq<string>, comments: seq<string>, prefix: string,
                                        isNumber: string -> bool, s: Setting)
    requires |codes| == |comments| && SettingsOf(codes, comments, prefix, isNumber).Ok?
    ensures s in SettingsOf(codes, comments, prefix, isNumber).value
            <==> exists k :: IsLastOfName(codes, comments, prefix, isNumber, s, k)
  {
    hide SettingOf, Inserted;
    if codes != [] {
      var n := |codes| - 1;
      var before := SettingsOf(codes[..n], comments[..n], prefix, isNumber);
      var last := SettingOf(codes[n], comments[n], prefix, isNumber);
      NamesAreDistinct(codes[..n], comments[..n], prefix, isNumber);
      HoldsTheLast(codes[..n], comments[..n], prefix, isNumber, s);
      hide Distinct;
      InsertedHolds(before.value, last.value, s);
      LastOneMore(codes, comments, prefix, isNumber, s);
    }
  }

  lemma LastOneMore(codes: seq<string>, comments: seq<string>, prefix: string, isNumber: string -> bool, s: Setting)
    requires |codes| == |comments| > 0 && SettingOf(codes[|codes| - 1], comments[|codes| - 1], prefix, isNumber).Ok?
    ensures var n := |codes| - 1;
            var last := SettingOf(codes[n], comments[n], prefix, isNumber).value;
            (exists k :: IsLastOfName(codes, comments, prefix, isNumber, s, k))
            <==> s == last || (last.name != s.name
                               && exists k :: IsLastOfName(codes[..n], comments[..n], prefix, isNumber, s, k))
  {
    hide SettingOf;
    var n := |codes| - 1;
    if s == SettingOf(codes[n], comments[n], prefix, isNumber).value {
      assert IsLastOfName(codes, comments, prefix, isNumber, s, n);
    } else if k :| IsLastOfName(codes, comments, prefix, isNumber, s, k) {
      assert IsLastOfName(codes[..n], comments[..n], prefix, isNumber, s, k);
    } else if SettingOf(codes[n], comments[n], prefix, isNumber).value.name != s.name {
      forall k ensures !IsLastOfName(codes[..n], comments[..n], prefix, isNumber, s, k) {
        assert !IsLastOfName(codes, comments, prefix, isNumber, s, k);
      }
    }
  }

  lemma {:induction false} SettingsFail(codes: seq<string>, comments: seq<string>, prefix: string,
                                        isNumber: string -> bool, k: nat)
    requires |codes| == |comments| && k <= |codes|
    requires !SettingsOf(codes[..k], comments[..k], prefix, isNumber).Ok?
    ensures SettingsOf(codes, comments, prefix, isNumber) == SettingsOf(codes[..k], comments[..k], prefix, isNumber)
  {
    hide SettingOf, Inserted;
    if k == |codes| {
      assert codes[..k] == codes && comments[..k] == comments;
    } else {
      var n := |codes| - 1;
      assert codes[..n][..k] == codes[..k] && comments[..n][..k] == comments[..k];
      SettingsFail(codes[..n], comments[..n], prefix, isNumber, k);
    }
  }

  /** The first definition that is not read decides how the reading fails. */
  lemma {:induction false} FirstFailure(codes: seq<string>, comments: seq<string>, prefix: string,
                                        isNumber: string -> bool, k: nat)
    requires |codes| == |comments| && k < |codes|
    requires forall j :: 0 <= j < k ==> SettingOf(codes[j], comments[j], prefix, isNumber).Ok?
    requires !SettingOf(codes[k], comments[k], prefix, isNumber).Ok?
    ensures var r, failure := SettingsOf(codes, comments, prefix, isNumber),
                              SettingOf(codes[k], comments[k], prefix, isNumber);
            !r.Ok? && (r.Panic? <==> failure.Panic?) && (r.Err? ==> r.error == failure.error)
  {
    hide SettingOf, Inserted;
    AllRead(codes[..k], comments[..k], prefix, isNumber);
    assert codes[..k + 1][..k] == codes[..k] && comments[..k + 1][..k] == comments[..k];
    SettingsFail(codes, comments, prefix, isNumber, k + 1);
  }

  lemma {:induction false} AllRead(codes: seq<string>, comments: seq<string>, prefix: string, isNumber: string -> bool)
    requires |codes| == |comments|
    requires forall j :: 0 <= j < |codes| ==> SettingOf(codes[j], comments[j], prefix, isNumber).Ok?
    ensures SettingsOf(codes, comments, prefix, isNumber).Ok?
  {
    hide SettingOf, Inserted;
    if codes != [] {
      AllRead(codes[..|codes| - 1], comments[..|codes| - 1], prefix, isNumber);
    }
  }

  /** `get_config_from_code`. */
  function ConfigOf(prefix: string, definition: string, isNumber: string -> bool): Outcome<Config> {
    var body := Inside(definition);
    if body.None? then Panic
    else
      var lines := Split(body.value, '\n');
      DepthAndLengths(lines);
      SettingsOf(Scanned(lines).codes, Scanned(lines).comments, prefix, isNumber)
  }

  method ParseConfig(prefix: string, definition: string, isNumber: string -> bool) returns (r: Outcome<Config>)
    ensures r == ConfigOf(prefix, definition, isNumber)
  {
    hide Scanned, Split, SettingOf, Inserted, Inside;
    var body := Inside(definition);
    if body.None? {
      return Panic;
    }
    var lines := Split(body.value, '\n');
    var codes, comments := Scan(lines);
    DepthAndLengths(lines);
    var config := [];
    for k := 0 to |codes|
      invariant SettingsOf(codes[..k], comments[..k], prefix, isNumber) == Ok(config)
    {
      assert codes[..k + 1][..k] == codes[..k] && comments[..k + 1][..k] == comments[..k];
      var setting := SettingOf(codes[k], comments[k], prefix, isNumber);
      if !setting.Ok? {
        SettingsFail(codes, comments, prefix, isNumber, k + 1);
        return if setting.Err? then Err(setting.error) else Panic;
      }
      config := Inserted(config, setting.value);
    }
    assert codes[..|codes|] == codes && comments[..|codes|] == comments;
    return Ok(config);
  }

  function ConfigIn(found: Outcome<Option<ConfigCode>>, isNumber: string -> bool): Outcome<Config> {
    if found.Err? then Err(found.error)
    else if found.Panic? then Panic
    else if found.value.None? then Ok([])
    else ConfigOf(found.value.value.name, found.value.value.definition, isNumber)
  }

  /** `get_config_manifest`, on the macro's code. */
  function Manifest(code: string, isNumber: string -> bool): Outcome<Config> {
    ConfigIn(Extracted(code), isNumber)
  }

  /** However it is read, a config has no two settings of one name. */
  lemma ConfigDistinct(prefix: string, definition: string, isNumber: string -> bool)
    requires ConfigOf(prefix, definition, isNumber).Ok?
    ensures Distinct(ConfigOf(prefix, definition, isNumber).value)
  {
    hide SettingsOf, Scanned, Split, Inside, Distinct;
    var lines := Split(Inside(definition).value, '\n');
    DepthAndLengths(lines);
    NamesAreDistinct(Scanned(lines).codes, Scanned(lines).comments, prefix, isNumber);
  }

  /** Code that does not hold the keyword has no settings, and none has two of
      one name. */
  method ReadManifest(code: string, isNumber: string -> bool) returns (r: Outcome<Config>)
    ensures r == Manifest(code, isNumber)
    ensures !Contains(code, KEYWORD) ==> r == Ok([])
    ensures Extracted(code).Err? ==> r == Err(Extracted(code).error)
    ensures r.Ok? ==> Distinct(r.value)
  {
    assert Distinct([]);
    hide Extracted, ConfigOf, Contains, Distinct, KEYWORD;
    NothingToExtract(code);
    var found := Extract(code);
    if found.Err? {
      return Err(found.error);
    } else if found.Panic? {
      return Panic;
    } else if found.value.None? {
      return Ok([]);
    }
    var name, definition := found.value.value.name, found.value.value.definition;
    r := ParseConfig(name, definition, isNumber);
    if r.Ok? {
      ConfigDistinct(name, definition, isNumber);
    }
  }
}
