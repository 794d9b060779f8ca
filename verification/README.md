# nametag: a Dafny model of the schema language and the filename codec

nametag renames files by tagging them. A schema names categories of tags and
says how many tags of each category a file must carry. The program writes the
chosen tags into the file's new name, after a random id. The repository holds
two snapshots of this pipeline, and their types disagree, so the model keeps
them apart:

- **Schema language** (modules `DslSyntax`, `DslParse`, `DslParseFacts`,
  `DslPrint`, `DslParseExamples`, `DslTypecheck`, `DslPipeline`,
  `DslFilename`, `DslApp`).
  - Schema text is parsed into an untyped tree `ExprU` by a nom-style
    recursive-descent parser.
  - The tree is typechecked into a `Schema`: a delimiter, a placeholder for
    empty categories, and categories with their keyword lists.
  - A selection state (every keyword marked selected or not) is written as a
    name with `generate`.
  - The application glues the random id, the generated name and the file's
    extension together and moves between files.
- **String-tag snapshot** (modules `TagSchema`, `TagFilename`, `TagParse`,
  `Util`).
  - A schema is a delimiter and categories of plain string tags.
  - `selection_to_filename` writes a salt, then the selected tags.
  - `Schema::parse`, the inverse, is declared in the source but left
    unimplemented. The round-trip property test is the only statement of what it must do.
    `TagParse.Parse` is that inverse, built on `drain_while`'s run.
  - `gen_salt` draws six characters from a 34-character set.

Shared pieces are in `Wrappers` (`Option`, `Result`) and `Strings` (join,
split, `String::pop`, decimal rendering).

Parsers are functions from the remaining input to `Done(value, rest)` or
`Fail`. Each combinator (`between`, `sep_by0`, `sep_by1`,
`lexeme_vert_allowed`, `line_space0`/`line_space1`, `identifier`, `nat`,
`string`, `keyword`) is a function of its own, and the grammar's mutual
recursion is ordered by input length. Parser properties come in two
directions:

- grammar facts about each combinator;
- a printer (`DslPrint.Render`) with the theorem that parsing the printed
  text of every well-formed tree gives the tree back.

The typechecker has an eraser (`DslTypecheck.Erase`) as its partner. What
`typecheck` accepts is exactly the erasures of well-typed schemas.

The identifier style (`LettersAndHyphens` as written, `WithUnderscores`
corrected) is a parameter of the whole parser family. This lets one set of
proofs cover both the grammar as written and its correction.

## Model

| member | source | states |
|---|---|---|
| DslSyntax.ParseErrorMessage | src/schema/mod.rs:39-48 | models `SchemaParseError`'s `Display`; its renderings and their injectivity are the contract of `DslSyntax.ParseErrorMessageInjective` |
| DslSyntax.ParseErrorMessageInjective | src/schema/mod.rs:39-48 | `MustStartWithSchemaConstructor` renders as `Expected "schema" constructor`; `UnexpectedInput(s)` renders as `Unexpected input: ` followed by `s` verbatim; distinct errors render differently |
| DslParse.LineSpace0 | src/schema/parse.rs:145-147 | `line_space0` never fails and never lengthens the input |
| DslParse.LineSpace0Skips | src/schema/parse.rs:145-147 | `line_space0` skips exactly the leading run of spaces, tabs and newlines: all skipped characters are white space and what is left does not start with any |
| DslParse.LineSpace1 | src/schema/parse.rs:141-143 | `line_space1` succeeds exactly when the input starts with a space, tab or newline, and then skips what `line_space0` skips |
| DslParse.Indent | src/schema/parse.rs:137-139 | models `indent`; its contract is carried by `DslParse.IndentMeans`, and its use in layouts by `DslParseExamples.NameThenLayout` and `DslParseExamples.FuncLayouts` |
| DslParse.IndentMeans | src/schema/parse.rs:137-139 | `indent` succeeds exactly when the input starts with two spaces or a tab, and consumes exactly that prefix |
| DslParse.Identifier | src/schema/parse.rs:118-120 | `identifier` succeeds exactly when the input starts with an ASCII letter, and then consumes something |
| DslParse.IdentifierReads | src/schema/parse.rs:118-120 | what `identifier` reads is a letter followed by letters or `-` (or `_` in the corrected style), it is a prefix of the input, and the next character could not continue it |
| DslParse.IdentifierExact | src/schema/parse.rs:118-120 | an identifier followed by a character that cannot continue it is read whole |
| DslParse.Nat | src/schema/parse.rs:133-135 | models `nat` (nom's `u8`); its contract is carried by `DslParse.NatReads` and `DslParse.NatExact` |
| DslParse.NatReads | src/schema/parse.rs:133-135 | `nat` succeeds exactly when the maximal run of leading digits is non-empty and its value is below 256; it then consumes that run and returns its value |
| DslParse.NatExact | src/schema/parse.rs:133-135 | the decimal text of any `u8` not followed by a digit reads back as that number |
| DslParse.TakeTillQuote | src/schema/parse.rs:128 | `take_till` on `"` never fails and returns text with no double quote |
| DslParse.Str | src/schema/parse.rs:127-131 | a string literal's value never contains `"` and something was consumed |
| DslParse.StrExact | src/schema/parse.rs:127-131 | a quoted text with no `"` inside reads back as that text, whatever follows |
| DslParse.Between | src/schema/parse.rs:157-166 | `between(l, r, inner)` succeeds only on `l`, then what `inner` reads, then `r` |
| DslParse.SepBy1 | src/schema/parse.rs:178-212 | `sep_by1` returns at least one value, the first being what `value` reads at the start, and every value is one `value` returns |
| DslParse.SepLoop | src/schema/parse.rs:192-210 | the loop only appends to the values it was given and never lengthens the input; it stops, keeping the input before the separator, when the separator or the value after it fails; it fails when a separator and a value together consume nothing |
| DslParse.SepBy0 | src/schema/parse.rs:168-175 | `sep_by0` never fails; it returns no values exactly when `sep_by1` fails, and then consumes nothing |
| DslParse.SepLoopLed | src/schema/parse.rs:192-210 | on pieces each led by a separator, the loop reads one value per piece and stops where no further round can complete, leaving an unmatched separator unconsumed |
| DslParse.SepByLed | src/schema/parse.rs:178-212 | `sep_by1` and `sep_by0` on a first value followed by separator-led pieces read exactly the first value and one value per piece |
| DslParse.VertTerminator | src/schema/parse.rs:228-233 | models the terminator `alt` of `lexeme_vert_allowed` (spaces, newlines and an indent; or spaces or tabs; or end of input); its contract is carried by `DslParseExamples.NameThenLayout` and `DslParseExamples.FuncLayouts` |
| DslParse.LexemeVertAllowed | src/schema/parse.rs:223-234 | `lexeme_vert_allowed(inner)` returns what `inner` reads and consumes at least as much |
| DslParse.ListSep | src/schema/parse.rs:108 | the list separator consumes input whenever it succeeds (at least its comma) |
| DslParse.KeywordLit | src/schema/parse.rs:122-125 | a keyword literal yields a `KeywordU` whose name and id contain no `"` |
| DslParse.Expr | src/schema/parse.rs:78-88 | every tree `expr` returns is well-formed (identifier names, quote-free strings, `u8` literals), and `expr` always consumes input |
| DslParse.Func | src/schema/parse.rs:90-100 | every application `func` returns is well-formed and something was consumed |
| DslParse.List | src/schema/parse.rs:102-116 | every list `list` returns is well-formed and something was consumed |
| DslParse.Parens | src/schema/parse.rs:149-154 | `parens(expr)` returns a well-formed tree and consumes input |
| DslParse.Parse | src/schema/parse.rs:59-76 | `parse` succeeds exactly when `expr` recognises a prefix that is a function application; another successful shape gives `MustStartWithSchemaConstructor` |
| DslParse.ParseStrict | src/schema/parse.rs:59-76 | the corrected `parse` succeeds exactly when `expr` consumes the whole input and yields an application; leftover text is reported as `UnexpectedInput` carrying exactly that text |
| DslParse.ExprClosed | src/schema/parse.rs:78-88 | no expression starts at the end of the input or at `)`, `]` or `,` |
| DslParseFacts.FirstChars | src/schema/parse.rs:78-88 | each alternative of `expr` is recognised by its first character: `(`, `[`, a letter, a digit, or `"` |
| DslParseFacts.ExprByParens | src/schema/parse.rs:80 | when `parens` succeeds it is what `expr` returns |
| DslParseFacts.ExprByList | src/schema/parse.rs:81 | when `list` succeeds it is what `expr` returns |
| DslParseFacts.ExprByFunc | src/schema/parse.rs:82 | when `func` succeeds it is what `expr` returns |
| DslParseFacts.ExprByNat | src/schema/parse.rs:83 | when `nat` succeeds `expr` returns its number as `NatU` |
| DslParseFacts.ExprByKeyword | src/schema/parse.rs:84-85 | when `keyword` succeeds it is what `expr` returns, before a plain string is tried |
| DslParseFacts.ExprByStr | src/schema/parse.rs:86 | a plain string is what `expr` returns only when the keyword form fails |
| DslParseFacts.KeywordExact | src/schema/parse.rs:122-125 | `"name"/"id"` with quote-free parts reads as the keyword `(name, id)` |
| DslParseFacts.StrNotKeyword | src/schema/parse.rs:122-125 | a quoted string not followed by `/` is not a keyword |
| DslParseFacts.ParensExact | src/schema/parse.rs:149-154 | `(`, an expression, `)` reads as that expression |
| DslParseFacts.ListExact | src/schema/parse.rs:102-116 | `[`, a list body, `]` reads as the list of the body's elements |
| DslParseFacts.ListBodyEmpty | src/schema/parse.rs:111 | nothing before the closing bracket is the empty list body |
| DslParseFacts.ListBodyLed | src/schema/parse.rs:106-110 | items separated by single commas and followed by `]` are read as a list body, one element per item |
| DslParseFacts.ArgsLed | src/schema/parse.rs:92 | arguments separated by single spaces and followed by a closing character are read one by one |
| DslParseFacts.FuncNameExact | src/schema/parse.rs:91 | an identifier followed by one space and then no further white space is read as the function name with its terminator |
| DslParseFacts.FuncFrom | src/schema/parse.rs:90-100 | `func` is its name with terminator followed by the argument loop |
| DslPrint.RenderHead | src/schema/parse.rs:78-88 | printed text starts with a character that begins an expression, starts with a letter exactly for applications, and never starts with `(` outside argument position |
| DslPrint.ExprRender | src/schema/parse.rs:78-88 | every well-formed tree is read back from its printed text, whatever follows, as long as what follows cannot continue it |
| DslPrint.ExprRenderArg | src/schema/parse.rs:90-100 | the same for a tree printed in argument position |
| DslPrint.ListRender | src/schema/parse.rs:102-116 | every well-formed list is read back from its printed text |
| DslPrint.FuncRender | src/schema/parse.rs:90-100 | every well-formed application is read back from its printed text |
| DslPrint.ParseRender | src/schema/parse.rs:59-76 | printing a well-formed application and parsing it gives it back |
| DslPrint.ParseStrictRender | src/schema/parse.rs:59-76 | the same for the corrected parser, whose identifiers may contain `_` |
| DslPrint.ParseIgnoresTrailing | src/schema/parse.rs:59-62 | as written, `parse` accepts a schema followed by stray closing characters and drops them |
| DslPrint.ParseStrictRejectsTrailing | src/schema/parse.rs:59-76 | the corrected parser reports the stray text as `UnexpectedInput` |
| DslParseExamples.ParensTransparent | src/schema/parse.rs:280-285 | `(n)` and `((n))` read as `n`: parentheses add nothing to the tree |
| DslParseExamples.KeywordOrString | src/schema/parse.rs:363-380 | `"abc"/"a"` is a keyword, and `"abc"` not followed by `/` is a string |
| DslParseExamples.LineSpace0Skips | src/schema/parse.rs:382-387 | `line_space0` skips every space, tab and newline in front and stops at the first other character |
| DslParseExamples.BlankList | src/schema/parse.rs:339-361 | brackets with only white space between them (`[ ]`, `[\n\t]`) are the empty list, and a second `]` after them (`[]]`) is left over |
| DslParseExamples.NameThenLayout | src/schema/parse.rs:222-234 | a function name followed by spaces, by newlines plus a two-space or tab indent, or by a mix, is read up to its first argument |
| DslParseExamples.FuncLayouts | src/schema/parse.rs:314-318 | `foo 0`, `foo\n  0`, `foo\n\t0` and `foo \n  0` all read as `foo` applied to `0` |
| DslParseExamples.StrayBracket | src/schema/parse.rs:327-336 | `boop []]` reads as `boop` applied to the empty list, leaving `]`, and `parse` accepts the whole text |
| DslParseExamples.SepBy1Short | src/schema/parse.rs:390-393 | `sep_by1` fails on empty input and reads a single letter |
| DslParseExamples.SepBy1Letters | src/schema/parse.rs:394-397 | on `a,b,c123`, `sep_by1` reads `a`, `b` and `c` and leaves `123` |
| DslTypecheck.TypeOf | src/schema/typecheck.rs:167-180 | models `type_of`: a list has the type of its first element, or `List(Hole)` when empty; its contract is carried by `DslTypecheck.NoHole` and `DslTypecheck.ListTypeMeans` |
| DslTypecheck.TypeNameKinds | src/schema/typecheck.rs:35-48 | two types print alike exactly when they are the same type or both lists |
| DslTypecheck.HomogeneousCard | src/schema/typecheck.rs:70-82 | "at most one distinct element type" holds exactly when every element has the first element's type |
| DslTypecheck.AllOfType | src/schema/typecheck.rs:93-101 | in a homogeneous list of keyword (category) type every element is a keyword (category) node |
| DslTypecheck.CheckAll | src/schema/typecheck.rs:65-69 | list elements are checked left to right; success checks every element, and failure is the error of the first failing element |
| DslTypecheck.CheckAllOk | src/schema/typecheck.rs:65-69 | a list whose elements all check succeeds with their results |
| DslTypecheck.Check | src/schema/typecheck.rs:60-165 | a successful check loses nothing: erasing its result gives back the input tree (so leaf payloads are kept); a checked list is homogeneous |
| DslTypecheck.CheckCall | src/schema/typecheck.rs:84-162 | a successful function application erases back to the application |
| DslTypecheck.CheckCategory | src/schema/typecheck.rs:88-121 | an error in the requirement, then in the list, is passed on; with both checked, `category` succeeds exactly when the first is a requirement and the list's type is `List(Keyword)`, and otherwise fails with `TypeMismatch` expecting `List(Keyword)` and carrying the list's type; a success erases back to its arguments |
| DslTypecheck.CheckSchema | src/schema/typecheck.rs:122-152 | an error in the list is passed on; a checked list makes `schema` succeed exactly when its type is `List(Category)`, and otherwise fails with `TypeMismatch` expecting `List(Category)` and carrying the list's type; a success erases back to its arguments |
| DslTypecheck.Typecheck | src/schema/typecheck.rs:52-58 | `typecheck` succeeds only with the schema the root checks to |
| DslTypecheck.NoHole | src/schema/typecheck.rs:167-180 | no typed tree has the hole type |
| DslTypecheck.ListTypeMeans | src/schema/typecheck.rs:167-180 | a list's type is `List(Hole)` exactly when it is empty, and otherwise `List` of its first element's type, which all elements share when it is homogeneous |
| DslTypecheck.CheckErase | src/schema/typecheck.rs:60-165 | every well-typed tree is what the checker makes of its erasure |
| DslTypecheck.CheckWellTyped | src/schema/typecheck.rs:60-165 | every typed tree the checker returns is well typed: homogeneous lists, `u8` bounds, and non-empty keyword and category lists |
| DslTypecheck.TypecheckSound | src/schema/typecheck.rs:52-165 | whatever `typecheck` accepts is a `schema` application; the schema returned is well typed, and the input is its erasure |
| DslTypecheck.TypecheckComplete | src/schema/typecheck.rs:52-165 | every well-typed schema is returned by `typecheck` from its erasure |
| DslTypecheck.RequirementRules | src/schema/typecheck.rs:85-87 | `exactly`, `at_least` and `at_most` on one nat literal give that requirement with that bound |
| DslTypecheck.ListRule | src/schema/typecheck.rs:65-83 | a list whose elements check fails exactly when their types differ, with `HeterogeneousList` of the distinct types, of which there are at least two |
| DslTypecheck.MixedListRejected | src/schema/typecheck.rs:182-195 | a string and a keyword in one list are rejected, with both types |
| DslTypecheck.CategoryRule | src/schema/typecheck.rs:88-121 | the `category` rule on the tree: errors of the requirement, then of the list, pass through; otherwise success exactly for a requirement and a `List(Keyword)`, else `TypeMismatch(List(Keyword), type of the list)` |
| DslTypecheck.CategoryOddMismatch | src/schema/typecheck.rs:116-119 | a checked non-requirement in requirement position is reported through the list's type, as `TypeMismatch(List(Keyword), List(Keyword))` |
| DslTypecheck.CategoryRequirementError | src/schema/typecheck.rs:88-121 | an error inside the requirement argument passes through `category` unchanged, whatever the list |
| DslTypecheck.SchemaRule | src/schema/typecheck.rs:122-152 | the `schema` rule on the tree: the list's error passes through; otherwise success exactly for `List(Category)`, else `TypeMismatch(List(Category), type of the list)` |
| DslTypecheck.EmptyKeywordsRejected | src/schema/typecheck.rs:88-121 | an empty keyword list has type `List(Hole)`, so `category` rejects it with `TypeMismatch` expecting `List(Keyword)` |
| DslTypecheck.EmptyCategoriesRejected | src/schema/typecheck.rs:122-152 | an empty category list is rejected by `schema` with `TypeMismatch` expecting `List(Category)` |
| DslTypecheck.UnknownRule | src/schema/typecheck.rs:153-162 | any other name or shape fails: with the first argument error if one fails, otherwise with `UnknownFunction` carrying the name and the argument types in order |
| DslTypecheck.RootRule | src/schema/typecheck.rs:52-58 | a root that checks as anything but a schema gives `ExpectedTopLevelSchema`; a failing root passes its error on |
| DslPipeline.LoadSchema | src/fs/mod.rs:4-9 | models `read_schema_file` from the text on: parse, then typecheck, with either error passed on; its contract is carried by `DslPipeline.LoadedOnlyExactly`, `DslPipeline.LoadSchemaRoundTrip` and `DslPipeline.AtLeastSchemaUnreachable` |
| DslPipeline.RequirementNames | src/schema/parse.rs:118-120 | `exactly` is an identifier of the grammar as written, `at_least` and `at_most` are not, and all three are once `_` is admitted |
| DslPipeline.LoadedOnlyExactly | src/schema/typecheck.rs:85-87 | every schema that parsing then typechecking accepts, from any text, has only `exactly` categories |
| DslPipeline.EraseSchemaWellFormed | src/schema/typecheck.rs:122-152 | the tree a printable well-typed schema erases to is one the grammar produces |
| DslPipeline.LoadSchemaRoundTrip | src/fs/mod.rs:4-9 | printing a schema and loading the text as written gives the schema back exactly when all its categories are `exactly` |
| DslPipeline.LoadSchemaStrictRoundTrip | src/fs/mod.rs:4-9 | with the corrected parser every printable well-typed schema survives printing and loading |
| DslPipeline.AtLeastSchemaUnreachable | src/schema/typecheck.rs:86 | no text loads a schema with an `at_least` category as written, while its printed text loads it once corrected |
| DslFilename.SelectedIdsMeans | src/filename/mod.rs:36-39 | the ids written are exactly those of the selected keywords |
| DslFilename.SelectedIdsAppend | src/filename/mod.rs:36-39 | selecting distributes over concatenation, so declared order is kept |
| DslFilename.GenerateFrom | src/filename/mod.rs:35-67 | models the loop of `generate` over the categories; its contract is carried by `DslFilename.GenerateFromSucceeds`, `DslFilename.GenerateFromValue` and `DslFilename.GenerateFromFirstError` |
| DslFilename.GenerateFromSucceeds | src/filename/mod.rs:35-67 | the loop succeeds exactly when every category's requirement holds (`Exactly(n)`: count = n; `AtMost(n)`: count ≤ n; `AtLeast(n)`: count ≥ n) |
| DslFilename.CategoryText | src/filename/mod.rs:57-64 | a category writes the placeholder and the delimiter when nothing is selected, otherwise each selected id followed by the delimiter |
| DslFilename.GenerateFromValue | src/filename/mod.rs:56-66 | on success the loop has appended every category's tokens in state order, each followed by the delimiter |
| DslFilename.GenerateFromFirstError | src/filename/mod.rs:40-55 | on failure the loop reports the first category whose requirement fails, with its requirement and count |
| DslFilename.Generate | src/filename/mod.rs:33-73 | models `generate`: the loop, then one character popped; its contract is carried by `DslFilename.GenerateMeans`, `DslFilename.GenerateFirstError` and `DslFilename.GenerateKeepsHalfDelimiter` |
| DslFilename.GenerateName | src/filename/mod.rs:33-68 | from an empty name the loop succeeds exactly when every requirement holds, giving every token followed by the delimiter; there is no salt |
| DslFilename.GenerateMeans | src/filename/mod.rs:33-73 | `generate` succeeds exactly when every requirement holds; the name is the terminated tokens minus one character, `""` for an empty state, and the tokens joined by the delimiter when it is one character |
| DslFilename.GenerateFirstError | src/filename/mod.rs:33-73 | a failing `generate` reports the first violated category and produces no name |
| DslFilename.GenerateFixedJoins | src/filename/mod.rs:70-72 | the corrected generator joins the tokens by the delimiter, whatever its length |
| DslFilename.GenerateKeepsHalfDelimiter | src/filename/mod.rs:70-72 | with the delimiter `--`, selecting id `a` is written `a-` as written and `a` when corrected |
| DslFilename.GenerateAgrees | src/filename/mod.rs:70-72 | with a one-character delimiter the corrected generator is `generate` as written, errors included |
| DslFilename.GenerateErrorMessage | src/filename/mod.rs:23-29 | models the `Display` of `GenerateFilenameError`; its contract is carried by `DslFilename.GenerateErrorMessageNames` |
| DslFilename.GenerateErrorMessageNames | src/filename/mod.rs:23-29 | the message begins with `Category ` and the category's name and ends with the count and ` keywords found.` |
| DslApp.ToEmptyState | src/app.rs:136-143 | models `to_empty_state`: one entry per schema category; the rest of its contract is carried by `DslApp.EmptyStateShape` and `DslApp.EmptyStateGenerates` |
| DslApp.EmptyStateShape | src/app.rs:136-143 | `to_empty_state` keeps every category and keyword in order and selects nothing |
| DslApp.EmptyStateGenerates | src/app.rs:136-143 | naming a file straight after loading writes only placeholders, and succeeds exactly when every requirement admits no selection |
| DslApp.Next | src/app.rs:68-75 | models `next` with the new file id as a parameter; its contract is carried by `DslApp.NextPrevCycle` |
| DslApp.Prev | src/app.rs:77-84 | models `prev` with the new file id as a parameter; its contract is carried by `DslApp.NextPrevCycle` |
| DslApp.NextPrevCycle | src/app.rs:68-84 | `next` and `prev` move one step around the cycle of files, keep the active index in range, change only it and the id, and undo each other |
| DslApp.MkFilename | src/app.rs:90-102 | models `mk_filename`: id, delimiter, generated name and extension, or the error's message; its contract is carried by `DslApp.MkFilenameMeans` |
| DslApp.MkFilenameMeans | src/app.rs:90-101 | the new name is the id, the delimiter, the generated name and `.`+extension (the tokens joined after the id); a violated requirement gives the first violation's message |
| DslApp.ApplyRename | src/app.rs:123-133 | after a rename only the active file's entry changes, and it becomes the new path |
| TagSchema.RequirementText | src/schema.rs:141-149 | models the `Display` of `Requirement`; its contract is carried by `TagSchema.RequirementTextInjective` |
| TagSchema.RequirementTextInjective | src/schema.rs:141-149 | the three requirement kinds render differently (`exactly`, `at least`, `at most`) |
| TagFilename.FindMeans | src/filename.rs:48-53 | the lookup finds a category exactly when one has the name, and then the first such |
| TagFilename.SelectedTagsMeans | src/filename.rs:55-59 | the tags written are exactly the selected ones |
| TagFilename.SelectedTagsEmpty | src/filename.rs:78-80 | nothing is written for a category exactly when none of its tags is selected |
| TagFilename.WriteFrom | src/filename.rs:47-88 | models the loop of `selection_to_filename` over the categories; its contract is carried by `TagFilename.WriteFromSucceeds`, `TagFilename.WriteFromValue` and `TagFilename.WriteFromFirstError` |
| TagFilename.WriteFromSucceeds | src/filename.rs:47-88 | the loop succeeds exactly when every category meets its requirement |
| TagFilename.CategoryText | src/filename.rs:78-84 | a category with no selection writes one delimiter (an empty token), otherwise each selected tag followed by the delimiter |
| TagFilename.WriteFromValue | src/filename.rs:47-88 | on success the loop has appended every category's tokens, each followed by the delimiter |
| TagFilename.WriteFromFirstError | src/filename.rs:61-76 | on failure the loop reports the first category whose requirement fails, with its name, `(rtype, rvalue)` and count |
| TagFilename.SelectionToFilename | src/filename.rs:41-93 | models `selection_to_filename`: salt and delimiter, the loop, then one character popped; its contract is carried by `TagFilename.SelectionToFilenameMeans`, `TagFilename.SelectionToFilenameFirstError` and `TagFilename.SelectionKeepsHalfDelimiter` |
| TagFilename.SelectionToFilenameMeans | src/filename.rs:41-93 | `selection_to_filename` succeeds exactly when every requirement holds; when the delimiter is non-empty and there is at least one category, the name starts with the salt and the whole delimiter, and with a one-character delimiter it is the salt and tokens joined by the delimiter |
| TagFilename.SelectionToFilenameFirstError | src/filename.rs:41-93 | a failing `selection_to_filename` reports the first violated category |
| TagFilename.SelectionToFilenameFixedJoins | src/filename.rs:90-92 | the corrected generator joins the salt and the tokens by the delimiter, whatever its length |
| TagFilename.SelectionKeepsHalfDelimiter | src/filename.rs:90-92 | with the delimiter `--`, salt `S` and tag `x` selected, the name is `S--x-` as written and `S--x` when corrected |
| TagFilename.ErrorMessage | src/filename.rs:24-37 | models the `Display` of `GenerateFilenameError`; its contract is carried by `TagFilename.ErrorMessageNames` |
| TagFilename.ErrorMessageNames | src/filename.rs:24-37 | the message opens with the category name, ` must have ` and the requirement kind, and closes with the count and ` are selected.` |
| TagFilename.CharsetShape | src/filename.rs:101-110 | the character set has `RANGE` = 34 entries, so every sampled index is in bounds; it is the capital letters without `O` and the digits without `0`, each once |
| TagFilename.GenSalt | src/filename.rs:95-99 | a salt is six characters |
| TagFilename.GenSaltMeans | src/filename.rs:95-110 | every salt character is in the set, and different draws give different salts |
| TagParse.Parse | src/schema.rs:20-24 | models the unimplemented `Schema::parse` as the inverse its round-trip test asks for; its contract is carried by `TagParse.RoundTrip` and `TagParse.RoundTripFixed` |
| TagParse.RunBounds | src/util.rs:13-33 | every token of a category's run is one of its tags and the next token is not |
| TagParse.RunIsDrained | src/util.rs:13-33 | a category's run is the prefix `drain_while` returns for membership in its tags |
| TagParse.ReadTokens | src/schema.rs:21-23 | reading the tokens a selection mirroring the schema writes gives the selection back |
| TagParse.ParseJoined | src/schema.rs:21-23 | the salt and tokens of such a selection, joined by the delimiter, parse back to the selection |
| TagParse.RoundTrip | src/schema.rs:37-57 | whenever `selection_to_filename` succeeds on a selection mirroring the schema (one-character delimiter, distinct non-empty tags and a salt free of the delimiter), parsing the name gives the selection back |
| TagParse.RoundTripFixed | src/schema.rs:37-57 | the round trip holds for the corrected generator with a delimiter of any positive length |
| TagParse.GeneratedSaltFree | src/schema.rs:39-43 | a salt from `gen_salt` meets the round trip's salt condition whenever the delimiter does not start with a salt character |
| TagParse.HalfDelimiterReadsUnselected | src/schema.rs:63-66 | `S--x-` reads back as salt `S` with `x` not selected |
| TagParse.TwoCharDelimiterBreaksRoundTrip | src/schema.rs:63-66 | with a two-character delimiter, as the test can draw, the name written for a one-tag selection reads back without the tag, while the corrected name reads back whole |
| TagParse.DrainedReadingLosesTag | src/util.rs:24-29 | letting each category consume what `drain_while` consumes, including the token after its run, loses the next category's first tag |
| Util.DrainWhile | src/util.rs:13-33 | `drain_while` returns the longest prefix whose elements satisfy `p`; the first failing element is taken and neither returned nor left; with no failing element everything is returned and nothing is left |
| Util.DrainedUnique | src/util.rs:13-33 | the result and the remainder are determined by the input |
| Util.DrainedLosesOne | src/util.rs:24-29 | the result, the lost element and the remainder make up the input |
| Util.DrainWhileExample | src/util.rs:36-40 | `[1, 2, 3, 4, 5]` drained while below 3 gives `[1, 2]` and leaves `[4, 5]` |
| Strings.DropLastTerminated | src/filename/mod.rs:70-72 | with a one-character delimiter, popping one character off the terminated tokens leaves them joined |

## Left out

- The GUI (`run`, `update`, `load_active`, `active_uri`, the egui/eframe calls) is user interface and event loop, so it is not modelled.
- The file system is not modelled. `read_schema_file` is modelled from the text on (`DslPipeline.LoadSchema`). The directory listing in `AppConfig::new` is not modelled, and a rename is only the list update (`DslApp.ApplyRename`). Paths and the active file's extension are strings passed in.
- The random number generator is not modelled. `gen_salt` receives the indices drawn (`TagFilename.GenSalt`). `gen_rand_id` is not modelled; the file id it produces is a parameter of `DslApp.Next`/`Prev`.
- Dhall deserialisation (`parse_schema`) and `config.rs` are not modelled. They are a thin serde wrapper.
- nom's error plumbing (`NomParseError`, its `From` impls, the `Incomplete` panics) is not modelled. `DslParse.Parse` reports a failed parse as `UnexpectedInput` carrying the whole input, because the exact remainder nom reports depends on its error merging. The unused `lexeme` and `symbol` helpers are not modelled either.
- The `Arbitrary` and `shrink` test generators are not behaviour, so they are not modelled. Their delimiter choice (one or two characters) is reflected in `TagParse.TwoCharDelimiterBreaksRoundTrip`.
- The `HeterogeneousList` types are kept as a set. The source collects them through a hash set, so their order is unspecified.
- The schema-language `Requirement` has no `Display` in the program. `DslFilename.GenerateErrorMessage` takes its rendering as a parameter.
- Schema validation (non-empty tags, unique tags, tags free of the delimiter) has no implementation in the program. Its guarantees are the `requires` of `TagParse.RoundTrip` (`TagsDistinct`, `Mirrors`).
- TagFilename.SelectionToFilename: requires every category of the state to be named in the schema (`Known`). The source's `.unwrap()` (src/filename.rs:48-53) panics on an unknown category that no earlier category's error pre-empts; the model does not reach that panic.
- `TagParse.Parse` follows the source's empty `FilenameParseError` and never fails. Tokens left after the last category are ignored, not reported as an unexpected tag.
- `DslApp.MkFilename` keeps `generate` as written. `DslFilename.GenerateAgrees` shows it equals the corrected generator for one-character delimiters, the case `DslApp.MkFilenameMeans` covers.
- `DslApp.MkFilenameMeans`: covers one-character delimiters only, because with longer delimiters the name keeps part of the last delimiter (see Findings).
- `TagParse.RoundTrip`: requires a one-character delimiter, because the round trip fails for longer ones (see Findings).

## Findings

| source | as written | input that shows it | evidently intended | confidence | as-written member | corrected member |
|---|---|---|---|---|---|---|
| src/filename/mod.rs:70-72 | `name.pop()` removes one character of the final delimiter | delimiter `--`, one category selecting the keyword with id `a`: the name is `a-` | remove the whole final delimiter: `a` | not executed | DslFilename.GenerateKeepsHalfDelimiter | DslFilename.GenerateFixedJoins |
| src/filename.rs:90-92 | `name.pop()` removes one character of the final delimiter, so the round-trip test fails for the two-character delimiters it draws | delimiter `--`, salt `S`, tag `x` selected: the name is `S--x-`, which reads back with `x` not selected | remove the whole final delimiter: `S--x`, which reads back whole | not executed | TagParse.TwoCharDelimiterBreaksRoundTrip | TagParse.RoundTripFixed |
| src/schema/parse.rs:59-62 | the text after the top-level expression is dropped | `boop []]` parses as `boop []` | reject leftover text with `UnexpectedInput` | not executed | DslParseExamples.StrayBracket | DslPrint.ParseStrictRejectsTrailing |
| src/schema/parse.rs:118-120 | identifiers admit letters and `-` only, so `at_least` and `at_most` (typecheck.rs:86-87) never parse | a schema with a category `(at_least 0)`: no text loads it | admit `_` in identifiers | not executed | DslPipeline.AtLeastSchemaUnreachable | DslPipeline.LoadSchemaStrictRoundTrip |

Three further facts about the program shape the model:

- `parse` drops the text after the top-level expression (see Findings).
- `FilenameParseError` is an empty type, so `TagParse.Parse` is total.
- The program has no schema validator, so its conditions are the `requires` of `TagParse.RoundTrip`.
