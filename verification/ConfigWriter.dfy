/** Writing a config class the way macros declare theirs. */
module ConfigWriter {
  import opened Basics
  import opened Text
  import opened ConfigExtract
  import opened ConfigScan
  import opened ConfigSettings

  datatype Quote = Single | Double

  /** A field and the comment lines above it, in one block or each behind `//`;
      each option and the default have a quote of their own. */
  datatype Field = Field(comments: seq<string>, block: bool, name: string, optional: bool, kind: Kind,
                         quotes: seq<Quote>, default: Option<Value>, quote: Quote)

  function Mark(quote: Quote): string {
    if quote.Single? then "'" else "\""
  }

  function Quoted(s: string, quote: Quote): string {
    Mark(quote) + s + Mark(quote)
  }

  /** The quote of an option, a single one if none is given. */
  function QuoteAt(quotes: seq<Quote>, i: nat): Quote {
    if i < |quotes| then quotes[i] else Single
  }

  function QuotedAll(options: seq<string>, quotes: seq<Quote>): (r: seq<string>)
    ensures |r| == |options| && forall i :: 0 <= i < |r| ==> r[i] == Quoted(options[i], QuoteAt(quotes, i))
  {
    seq(|options|, i requires 0 <= i < |options| => Quoted(options[i], QuoteAt(quotes, i)))
  }

  /** The type, with the separator between options. */
  function TypeText(kind: Kind, quotes: seq<Quote>, separator: string): string {
    match kind
    case Text => "string"
    case Boolean => "boolean"
    case Number => "number"
    case Choice(options) => Join(QuotedAll(options, quotes), separator)
  }

  function Literal(value: Value, quote: Quote): string {
    match value
    case TextValue(text) => Quoted(text, quote)
    case BooleanValue(on) => if on then "true" else "false"
    case NumberValue(literal) => literal
    case ChoiceValue(option) => Quoted(option, quote)
  }

  function CommentLines(f: Field): (r: seq<string>)
    ensures |r| == |f.comments|
    ensures forall i :: 0 <= i < |r| ==> r[i] == (if f.block then "   * " else "  // ") + f.comments[i]
  {
    seq(|f.comments|, i requires 0 <= i < |f.comments| => (if f.block then "   * " else "  // ") + f.comments[i])
  }

  /** The definition, without its semicolon. */
  function DefinitionText(f: Field): string {
    f.name + (if f.optional then "?: " else ": ") + TypeText(f.kind, f.quotes, " | ")
    + (if f.default.Some? then " = " + Literal(f.default.value, f.quote) else "")
  }

  function FieldLines(f: Field): seq<string> {
    (if f.block then ["  /**"] + CommentLines(f) + ["   */"] else CommentLines(f))
    + ["  " + DefinitionText(f) + ";"]
  }

  function AllLines(fields: seq<Field>): seq<string> {
    if fields == [] then [] else AllLines(fields[..|fields| - 1]) + FieldLines(fields[|fields| - 1])
  }

  /** What stands between the braces of the class. */
  function Body(fields: seq<Field>): string {
    Join([""] + AllLines(fields) + [""], "\n")
  }

  function Block(fields: seq<Field>): string {
    "{" + Body(fields) + "}"
  }

  /** The text from the class to the second keyword. */
  function Declaration(declarator: string, name: string): string {
    "\ndeclare " + declarator + " " + name + ": "
  }

  /** A macro: the class, then the declaration of its instance. */
  function Code(before: string, fields: seq<Field>, declarator: string, name: string, after: string): string {
    before + "class " + KEYWORD + " " + Block(fields) + Declaration(declarator, name) + KEYWORD + after
  }

  /** Every identifier is a name. */
  predicate IsName(s: string) {
    s != "" && forall c :: c in s ==> !IsBlank(c) && c !in {'?', ':', '=', '/'}
  }

  predicate IsOneLine(s: string) {
    '\n' !in s && '\r' !in s
  }

  predicate IsComment(s: string) {
    s != "" && IsTrim(s) && IsOneLine(s)
  }

  /** Options are on one line and hold neither separator; one in double quotes
      holds no single quote, which would be taken for its first. */
  predicate CanWriteKind(kind: Kind, quotes: seq<Quote>) {
    kind.Choice? ==>
      && kind.options != []
      && (forall o :: o in kind.options ==> IsOneLine(o) && '|' !in o && '=' !in o)
      && forall i :: 0 <= i < |kind.options| && '\'' in kind.options[i] ==> QuoteAt(quotes, i).Single?
  }

  predicate CanWriteValue(kind: Kind, value: Value, quote: Quote, isNumber: string -> bool) {
    && TypeCheck(kind, value)
    && IsOneLine(Literal(value, quote))
    && (value.NumberValue? ==> isNumber(value.literal) && forall c :: c in value.literal ==> !IsBlank(c))
  }

  /** What a field must satisfy to be written: comments are trimmed lines, a
      field that is not optional has a default and no question mark. */
  predicate CanWrite(f: Field, isNumber: string -> bool) {
    && IsName(f.name)
    && (forall c :: c in f.comments ==> IsComment(c))
    && CanWriteKind(f.kind, f.quotes)
    && (f.default.Some? ==> CanWriteValue(f.kind, f.default.value, f.quote, isNumber))
    && (!f.optional ==> f.default.Some? && '?' !in DefinitionText(f))
  }

  /** Text as the scanner leaves it. */
  function Squeeze(s: string): string {
    Without(s, {' ', '\t'})
  }

  function SqueezeAll(options: seq<string>): (r: seq<string>)
    ensures |r| == |options| && forall i :: 0 <= i < |r| ==> r[i] == Squeeze(options[i])
  {
    seq(|options|, i requires 0 <= i < |options| => Squeeze(options[i]))
  }

  function SqueezedKind(kind: Kind): Kind {
    if kind.Choice? then Choice(SqueezeAll(kind.options)) else kind
  }

  function SqueezedValue(value: Value): Value {
    match value
    case TextValue(text) => TextValue(Squeeze(text))
    case ChoiceValue(option) => ChoiceValue(Squeeze(option))
    case _ => value
  }

  /** The setting a field is read back as. */
  function Written(f: Field, prefix: string): (s: Setting)
    ensures s.name == f.name
  {
    var value := if f.default.Some? then Some(SqueezedValue(f.default.value)) else None;
    Setting(prefix + "|" + f.name, f.name, Join(f.comments, " "), value, SqueezedKind(f.kind), value, false,
            value.Some?, true)
  }
}
