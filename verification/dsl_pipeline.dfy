/** Loading a schema file's text in the schema-language snapshot
    (`src/fs/mod.rs`): parse the text, then typecheck the tree. The file
    is read by the caller. The grammar's identifiers admit letters and
    hyphens only, while the typechecker names two of the three requirement
    constructors `at_least` and `at_most`: as written, only `exactly`
    categories ever load. The corrected pipeline, with `_` allowed in
    identifiers and trailing text rejected, loads every printed schema. */
module DslPipeline {
  import opened Wrappers
  import opened DslSyntax
  import opened DslParse
  import opened DslTypecheck
  import opened DslPrint

  datatype LoadError = ParseFailed(parseError: SchemaParseError) | TypecheckFailed(typeError: TypeError)

  /** `read_schema_file` once the text is read: `parse`, then `typecheck`. */
  function LoadSchema(contents: string): Result<Schema, LoadError> {
    match Parse(contents)
    case Failure(e) => Failure(ParseFailed(e))
    case Success(tree) =>
      match Typecheck(tree)
      case Success(s) => Success(s)
      case Failure(e) => Failure(TypecheckFailed(e))
  }

  /** The same with the corrected parser. */
  function LoadSchemaStrict(contents: string): Result<Schema, LoadError> {
    match ParseStrict(contents)
    case Failure(e) => Failure(ParseFailed(e))
    case Success(tree) =>
      match Typecheck(tree)
      case Success(s) => Success(s)
      case Failure(e) => Failure(TypecheckFailed(e))
  }

  predicate AllExactly(s: Schema) {
    forall i | 0 <= i < |s.categories| :: s.categories[i].0.requirement.Exactly?
  }

  /** `exactly` is an identifier of the grammar as written; `at_least` and
      `at_most` are identifiers only once `_` is admitted. */
  lemma RequirementNames()
    ensures IsIdentifier("exactly", LettersAndHyphens)
    ensures !IsIdentifier("at_least", LettersAndHyphens) && !IsIdentifier("at_most", LettersAndHyphens)
    ensures IsIdentifier("at_least", WithUnderscores) && IsIdentifier("at_most", WithUnderscores)
  {
    assert !IsIdentTail("at_least"[2], LettersAndHyphens);
    assert !IsIdentTail("at_most"[2], LettersAndHyphens);
  }

  /** Every schema the as-written pipeline loads has only `exactly`
      categories, whatever the text. */
  lemma LoadedOnlyExactly(contents: string)
    ensures LoadSchema(contents).Success? ==> AllExactly(LoadSchema(contents).value)
  {
    if LoadSchema(contents).Success? {
      var e := Parse(contents).value;
      var s := LoadSchema(contents).value;
      TypecheckSound(e);
      assert Typecheck(e).value == s;
      var cs := EraseCategories(s.categories);
      assert e.args[2] == ListU(cs);
      assert WellFormed(e.args[2], LettersAndHyphens);
      forall i | 0 <= i < |s.categories|
        ensures s.categories[i].0.requirement.Exactly?
      {
        var q := s.categories[i].0.requirement;
        assert WellFormed(cs[i], LettersAndHyphens);
        assert cs[i].args[1] == EraseRequirement(q);
        assert WellFormed(cs[i].args[1], LettersAndHyphens);
        RequirementNames();
      }
    }
  }

  /** The text a schema is written with has no `"` inside its strings. */
  predicate CategoryPrintable(entry: (Category, seq<Keyword>)) {
    QuoteFree(entry.0.name)
    && forall j | 0 <= j < |entry.1| :: QuoteFree(entry.1[j].name) && QuoteFree(entry.1[j].id)
  }

  predicate Printable(s: Schema) {
    QuoteFree(s.delim) && QuoteFree(s.empty)
    && forall i | 0 <= i < |s.categories| :: CategoryPrintable(s.categories[i])
  }

  lemma EraseCategoryWellFormed(entry: (Category, seq<Keyword>), st: IdentStyle)
    requires SmallBound(entry.0.requirement) && CategoryPrintable(entry)
    requires st == WithUnderscores || entry.0.requirement.Exactly?
    ensures WellFormed(EraseCategory(entry.0, entry.1), st)
  {
    RequirementNames();
    assert "category"[1..] == "ategory";
    assert IsIdentifier("category", st);
    var kws := EraseKeywords(entry.1);
    assert forall j | 0 <= j < |kws| :: WellFormed(kws[j], st);
    var args := EraseCategory(entry.0, entry.1).args;
    assert WellFormed(args[0], st) && WellFormed(args[1], st) && WellFormed(args[2], st);
  }

  /** The tree a printable, well-typed schema erases to is one the grammar
      produces: always once `_` is admitted, and as written when every
      category is `exactly`. */
  lemma EraseSchemaWellFormed(s: Schema, st: IdentStyle)
    requires WellTypedSchema(s) && Printable(s)
    requires st == WithUnderscores || AllExactly(s)
    ensures WellFormed(EraseSchema(s), st)
  {
    var cs := EraseCategories(s.categories);
    forall i | 0 <= i < |cs|
      ensures WellFormed(cs[i], st)
    {
      EraseCategoryWellFormed(s.categories[i], st);
    }
    assert "schema"[1..] == "chema";
    assert IsIdentifier("schema", st);
    var args := EraseSchema(s).args;
    assert WellFormed(args[0], st) && WellFormed(args[1], st) && WellFormed(args[2], st);
  }

  /** Printing a well-typed schema and loading the text with the
      as-written pipeline gives the schema back exactly when all its
      categories are `exactly`. */
  lemma LoadSchemaRoundTrip(s: Schema)
    requires WellTypedSchema(s) && Printable(s)
    ensures LoadSchema(Render(EraseSchema(s))) == Success(s) <==> AllExactly(s)
  {
    LoadedOnlyExactly(Render(EraseSchema(s)));
    if AllExactly(s) {
      EraseSchemaWellFormed(s, LettersAndHyphens);
      ParseRender(EraseSchema(s));
      TypecheckComplete(s);
    }
  }

  /** With the corrected parser every printable well-typed schema survives
      printing and loading. */
  lemma LoadSchemaStrictRoundTrip(s: Schema)
    requires WellTypedSchema(s) && Printable(s)
    ensures LoadSchemaStrict(Render(EraseSchema(s))) == Success(s)
  {
    EraseSchemaWellFormed(s, WithUnderscores);
    ParseStrictRender(EraseSchema(s));
    TypecheckComplete(s);
  }

  /** A schema with an `at_least` category: no text loads it as written,
      and its printed text loads it once corrected. */
  lemma AtLeastSchemaUnreachable(contents: string)
    ensures var s := Schema("-", "none", [(Category("tags", AtLeast(0)), [Keyword("Art", "art")])]);
            LoadSchema(contents) != Success(s)
            && LoadSchemaStrict(Render(EraseSchema(s))) == Success(s)
  {
    var s := Schema("-", "none", [(Category("tags", AtLeast(0)), [Keyword("Art", "art")])]);
    LoadedOnlyExactly(contents);
    assert !s.categories[0].0.requirement.Exactly?;
    assert CategoryPrintable(s.categories[0]);
    LoadSchemaStrictRoundTrip(s);
  }
}
