/** Data model of the schema language (`src/schema/mod.rs`): the typed
    schema, the untyped syntax tree the parser builds, and the parse errors
    with their rendering. */
module DslSyntax {

  /** Rust's `u8`: the payload of a natural-number literal. */
  type U8 = x: nat | x < 256

  /** How many keywords of a category must be selected. */
  datatype Requirement = Exactly(n: nat) | AtLeast(n: nat) | AtMost(n: nat)

  /** A category as the typechecker builds it: a display name and a
      requirement (the typechecker gives it no `id`). */
  datatype Category = Category(name: string, requirement: Requirement)

  /** A selectable keyword: a display name and the id written into filenames. */
  datatype Keyword = Keyword(name: string, id: string)

  /** A typed schema: the filename delimiter, the placeholder written for a
      category with no selection, and the categories in declaration order,
      each paired with its own ordered keyword list. */
  datatype Schema = Schema(delim: string, empty: string, categories: seq<(Category, seq<Keyword>)>)

  /** The untyped syntax tree produced by the parser. */
  datatype ExprU =
    | KeywordU(name: string, id: string)
    | StringU(s: string)
    | FnU(fname: string, args: seq<ExprU>)
    | ListU(items: seq<ExprU>)
    | NatU(n: U8)

  /** The two ways parsing schema text can fail. */
  datatype SchemaParseError = MustStartWithSchemaConstructor | UnexpectedInput(input: string)

  /** The `Display` rendering of a parse error. */
  function ParseErrorMessage(e: SchemaParseError): (m: string)
  {
    match e
    case MustStartWithSchemaConstructor => "Expected \"schema\" constructor"
    case UnexpectedInput(input) => "Unexpected input: " + input
  }

  /** The message names the error kind and reproduces the unexpected input
      verbatim after a fixed prefix, so distinct errors render differently. */
  lemma ParseErrorMessageInjective(a: SchemaParseError, b: SchemaParseError)
    ensures ParseErrorMessage(a) == ParseErrorMessage(b) ==> a == b
    ensures ParseErrorMessage(MustStartWithSchemaConstructor) == "Expected \"schema\" constructor"
    ensures a.UnexpectedInput? ==>
              ParseErrorMessage(a)[..18] == "Unexpected input: " && ParseErrorMessage(a)[18..] == a.input
  {
    var prefix := "Unexpected input: ";
    // the first character tells the two kinds apart
    assert ParseErrorMessage(a)[0] == if a.UnexpectedInput? then 'U' else 'E';
    assert ParseErrorMessage(b)[0] == if b.UnexpectedInput? then 'U' else 'E';
    if a.UnexpectedInput? && b.UnexpectedInput? {
      assert a.input == ParseErrorMessage(a)[|prefix|..];
      assert b.input == ParseErrorMessage(b)[|prefix|..];
    }
    if a.UnexpectedInput? {
      assert ParseErrorMessage(a) == prefix + a.input;
    }
  }
}
