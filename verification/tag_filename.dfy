/** Filename generation in the string-tag snapshot (`src/filename.rs`):
    the salt and the delimiter, then, for every category of the selection
    in order, its selected tags each followed by the delimiter (or the
    delimiter alone when none is selected), checked against the
    requirement of the schema category of the same name; the last
    character is dropped at the end. Also the salt generator, with the
    random source replaced by the indices it draws. */
module TagFilename {
  import opened Wrappers
  import opened Strings
  import opened TagSchema

  datatype GenerateError = RequirementMismatch(categoryName: string, expected: (Requirement, nat), selected: nat)

  /** `Iterator::find` over the schema's categories: the first of the given name. */
  function Find(cats: seq<Category>, name: string): Option<Category>
  {
    if |cats| == 0 then None
    else if cats[0].name == name then Some(cats[0])
    else Find(cats[1..], name)
  }

  /** The lookup finds a category exactly when one has the name, and then
      the first such. */
  lemma {:induction false} FindMeans(cats: seq<Category>, name: string)
    ensures Find(cats, name).Some? <==> exists i | 0 <= i < |cats| :: cats[i].name == name
    ensures Find(cats, name).Some? ==>
              exists i | 0 <= i < |cats| :: cats[i] == Find(cats, name).value && cats[i].name == name
                && forall j | 0 <= j < i :: cats[j].name != name
    decreases |cats|
  {
    if |cats| > 0 && cats[0].name != name {
      FindMeans(cats[1..], name);
      if exists i | 0 <= i < |cats| :: cats[i].name == name {
        var i :| 0 <= i < |cats| && cats[i].name == name;
        assert cats[1..][i - 1] == cats[i];
      }
      if Find(cats, name).Some? {
        var i :| 0 <= i < |cats[1..]| && cats[1..][i] == Find(cats, name).value && cats[1..][i].name == name
                 && forall j | 0 <= j < i :: cats[1..][j].name != name;
        assert cats[i + 1] == cats[1..][i];
        forall j | 0 <= j < i + 1
          ensures cats[j].name != name
        {
          if j > 0 {
            assert cats[j] == cats[1..][j - 1];
          }
        }
      }
    }
  }

  /** Every category of the selection names a schema category (the source
      unwraps the lookup, noting that states are built from schemas). */
  predicate Known(schema: Schema, cats: seq<CategoryState>) {
    forall i | 0 <= i < |cats| :: Find(schema.categories, cats[i].name).Some?
  }

  /** The selected tags, in their declared order. */
  function SelectedTags(values: seq<(string, bool)>): seq<string>
  {
    if |values| == 0 then [] else (if values[0].1 then [values[0].0] else []) + SelectedTags(values[1..])
  }

  /** A string is among the selected tags exactly when some selected entry carries it. */
  lemma {:induction false} SelectedTagsMeans(values: seq<(string, bool)>, x: string)
    ensures x in SelectedTags(values) <==> exists j | 0 <= j < |values| :: values[j].1 && values[j].0 == x
    ensures |SelectedTags(values)| <= |values|
    decreases |values|
  {
    if |values| > 0 {
      SelectedTagsMeans(values[1..], x);
      if x in SelectedTags(values[1..]) {
        var j :| 0 <= j < |values[1..]| && values[1..][j].1 && values[1..][j].0 == x;
        assert values[j + 1] == values[1..][j];
      }
      if exists j | 0 <= j < |values| :: values[j].1 && values[j].0 == x {
        var j :| 0 <= j < |values| && values[j].1 && values[j].0 == x;
        if j > 0 {
          assert values[1..][j - 1] == values[j];
        }
      }
    }
  }

  /** Nothing is selected exactly when no tag is written. */
  lemma {:induction false} SelectedTagsEmpty(values: seq<(string, bool)>)
    ensures SelectedTags(values) == [] <==> forall j | 0 <= j < |values| :: !values[j].1
    decreases |values|
  {
    if |values| > 0 {
      SelectedTagsEmpty(values[1..]);
      if forall j | 0 <= j < |values[1..]| :: !values[1..][j].1 {
        forall j | 0 <= j < |values| ensures !values[j].1 || j == 0 {
          if j > 0 {
            assert values[j] == values[1..][j - 1];
          }
        }
      }
      if forall j | 0 <= j < |values| :: !values[j].1 {
        forall j | 0 <= j < |values[1..]| ensures !values[1..][j].1 {
          assert values[1..][j] == values[j + 1];
        }
      }
    }
  }

  /** Whether `count` selected tags break the requirement `(rtype, rvalue)`. */
  predicate Violates(rtype: Requirement, rvalue: nat, count: nat) {
    match rtype
    case Exactly => count != rvalue
    case AtMost => count > rvalue
    case AtLeast => count < rvalue
  }

  /** The tokens one category writes: its selected tags, or one empty token. */
  function CategoryTokens(values: seq<(string, bool)>): seq<string> {
    var tags := SelectedTags(values);
    if |tags| == 0 then [""] else tags
  }

  /** The tokens the categories write, one category after another. */
  function Tokens(cats: seq<CategoryState>): seq<string> {
    if |cats| == 0 then [] else CategoryTokens(cats[0].values) + Tokens(cats[1..])
  }

  /** The schema category a selected category is checked against. */
  function DefinitionOf(schema: Schema, c: CategoryState): Category
    requires Find(schema.categories, c.name).Some?
  {
    Find(schema.categories, c.name).value
  }

  predicate CategoryOk(schema: Schema, c: CategoryState)
    requires Find(schema.categories, c.name).Some?
  {
    var def := DefinitionOf(schema, c);
    !Violates(def.rtype, def.rvalue, |SelectedTags(c.values)|)
  }

  predicate Satisfied(schema: Schema, cats: seq<CategoryState>)
    requires Known(schema, cats)
  {
    forall i | 0 <= i < |cats| :: CategoryOk(schema, cats[i])
  }

  lemma SatisfiedCons(schema: Schema, cats: seq<CategoryState>)
    requires |cats| > 0 && Known(schema, cats)
    ensures Known(schema, cats[1..])
    ensures Satisfied(schema, cats) <==> CategoryOk(schema, cats[0]) && Satisfied(schema, cats[1..])
  {
    assert forall i | 0 <= i < |cats[1..]| :: cats[1..][i] == cats[i + 1];
    if CategoryOk(schema, cats[0]) && Satisfied(schema, cats[1..]) {
      forall i | 0 <= i < |cats|
        ensures CategoryOk(schema, cats[i])
      {
        if i > 0 {
          assert cats[i] == cats[1..][i - 1];
        }
      }
    }
  }

  lemma KnownTail(schema: Schema, cats: seq<CategoryState>)
    requires |cats| > 0 && Known(schema, cats)
    ensures Known(schema, cats[1..])
  {
    assert forall i | 0 <= i < |cats[1..]| :: cats[1..][i] == cats[i + 1];
  }

  lemma KnownPrefix(schema: Schema, cats: seq<CategoryState>, k: nat)
    requires k <= |cats| && Known(schema, cats)
    ensures Known(schema, cats[..k])
  {
    assert forall i | 0 <= i < k :: cats[..k][i] == cats[i];
  }

  /** The error for the category at `k`. */
  function MismatchAt(schema: Schema, cats: seq<CategoryState>, k: nat): GenerateError
    requires k < |cats| && Known(schema, cats)
  {
    var def := DefinitionOf(schema, cats[k]);
    RequirementMismatch(cats[k].name, (def.rtype, def.rvalue), |SelectedTags(cats[k].values)|)
  }

  /** The loop of `selection_to_filename`, from the name built so far. */
  function WriteFrom(schema: Schema, cats: seq<CategoryState>, name: string): Result<string, GenerateError>
    requires Known(schema, cats)
    decreases |cats|
  {
    if |cats| == 0 then Success(name)
    else
      var def := DefinitionOf(schema, cats[0]);
      var tags := SelectedTags(cats[0].values);
      if Violates(def.rtype, def.rvalue, |tags|) then
        Failure(RequirementMismatch(cats[0].name, (def.rtype, def.rvalue), |tags|))
      else
        assert Known(schema, cats[1..]) by { KnownTail(schema, cats); }
        var empty := if |tags| == 0 then schema.delim else "";
        WriteFrom(schema, cats[1..], name + empty + Terminated(tags, schema.delim))
  }

  /** `selection_to_filename` as written: salt, delimiter, the loop, then
      `String::pop`. */
  function SelectionToFilename(schema: Schema, state: State): Result<string, GenerateError>
    requires Known(schema, state.categories)
  {
    var name :- WriteFrom(schema, state.categories, state.salt + schema.delim);
    Success(DropLast(name))
  }

  lemma {:induction false} WriteFromSucceeds(schema: Schema, cats: seq<CategoryState>, name: string)
    requires Known(schema, cats)
    ensures WriteFrom(schema, cats, name).Success? <==> Satisfied(schema, cats)
    decreases |cats|
  {
    if |cats| > 0 {
      SatisfiedCons(schema, cats);
      var tags := SelectedTags(cats[0].values);
      var d := schema.delim;
      var empty := if |tags| == 0 then d else "";
      WriteFromSucceeds(schema, cats[1..], name + empty + Terminated(tags, d));
    }
  }

  /** An empty category's lone delimiter is its empty token, terminated. */
  lemma CategoryText(d: string, values: seq<(string, bool)>)
    ensures (if |SelectedTags(values)| == 0 then d else "") + Terminated(SelectedTags(values), d)
            == Terminated(CategoryTokens(values), d)
  {
    if |SelectedTags(values)| == 0 {
      assert Terminated([""], d) == "" + d + Terminated([], d);
    }
  }

  lemma {:induction false} WriteFromValue(schema: Schema, cats: seq<CategoryState>, name: string)
    requires Known(schema, cats) && WriteFrom(schema, cats, name).Success?
    ensures WriteFrom(schema, cats, name).value == name + Terminated(Tokens(cats), schema.delim)
    decreases |cats|
  {
    if |cats| > 0 {
      KnownTail(schema, cats);
      var tags := SelectedTags(cats[0].values);
      var d := schema.delim;
      var empty := if |tags| == 0 then d else "";
      var name' := name + empty + Terminated(tags, d);
      assert WriteFrom(schema, cats, name) == WriteFrom(schema, cats[1..], name');
      WriteFromValue(schema, cats[1..], name');
      CategoryText(d, cats[0].values);
      var here := Terminated(CategoryTokens(cats[0].values), d);
      var later := Terminated(Tokens(cats[1..]), d);
      TerminatedAppend(CategoryTokens(cats[0].values), Tokens(cats[1..]), d);
      assert Terminated(Tokens(cats), d) == here + later;
      AppendAssoc(name, empty, Terminated(tags, d));
      AppendAssoc(name, here, later);
    }
  }

  lemma {:induction false} WriteFromFirstError(schema: Schema, cats: seq<CategoryState>, name: string)
    requires Known(schema, cats) && WriteFrom(schema, cats, name).Failure?
    ensures exists k | 0 <= k < |cats| ::
              WriteFrom(schema, cats, name).error == MismatchAt(schema, cats, k)
              && !CategoryOk(schema, cats[k])
              && (KnownPrefix(schema, cats, k); Satisfied(schema, cats[..k]))
    decreases |cats|
  {
    SatisfiedCons(schema, cats);
    KnownPrefix(schema, cats, 0);
    if CategoryOk(schema, cats[0]) {
      var tags := SelectedTags(cats[0].values);
      var d := schema.delim;
      var empty := if |tags| == 0 then d else "";
      var name' := name + empty + Terminated(tags, d);
      var rest := cats[1..];
      WriteFromFirstError(schema, rest, name');
      var k :| 0 <= k < |rest| &&
               WriteFrom(schema, rest, name').error == MismatchAt(schema, rest, k)
               && !CategoryOk(schema, rest[k])
               && (KnownPrefix(schema, rest, k); Satisfied(schema, rest[..k]));
      assert rest[k] == cats[k + 1];
      KnownPrefix(schema, cats, k + 1);
      assert cats[..k + 1][1..] == rest[..k];
      SatisfiedCons(schema, cats[..k + 1]);
    }
  }

  /** With a one-character delimiter, the salt and the terminated tokens
      less one character are the salt and the tokens joined. */
  lemma SaltTokensJoined(salt: string, ts: seq<string>, d: string)
    requires |d| == 1
    ensures DropLast(salt + d + Terminated(ts, d)) == Join([salt] + ts, d)
  {
    DropLastTerminated([salt] + ts, d);
    TerminatedAppend([salt], ts, d);
    assert Terminated([salt], d) == salt + d + Terminated([], d);
  }

  /** Dropping the last character of the salt, a delimiter and at least one
      terminated token keeps the salt and the whole first delimiter. */
  lemma SaltPrefixKept(salt: string, ts: seq<string>, d: string)
    requires |d| > 0 && |ts| > 0
    ensures var full := salt + d + Terminated(ts, d);
            |DropLast(full)| >= |salt + d| && DropLast(full)[..|salt + d|] == salt + d
  {
    var start := salt + d;
    var full := start + Terminated(ts, d);
    assert |Terminated(ts, d)| >= |d|;
    assert full[..|start|] == start;
    assert DropLast(full) + [full[|full| - 1]] == full;
    assert DropLast(full) == full[..|full| - 1];
  }

  /** What `selection_to_filename` returns: it succeeds exactly when every
      category meets the requirement of its schema namesake; the name is
      the salt and every token, each followed by the delimiter, less one
      character; with a one-character delimiter that is the salt and the
      tokens joined by the delimiter, and whenever there is a category the
      name starts with the salt and a whole delimiter. */
  lemma SelectionToFilenameMeans(schema: Schema, state: State)
    requires Known(schema, state.categories)
    ensures SelectionToFilename(schema, state).Success? <==> Satisfied(schema, state.categories)
    ensures SelectionToFilename(schema, state).Success? ==>
              SelectionToFilename(schema, state).value
              == DropLast(state.salt + schema.delim + Terminated(Tokens(state.categories), schema.delim))
    ensures SelectionToFilename(schema, state).Success? && |schema.delim| == 1 ==>
              SelectionToFilename(schema, state).value == Join([state.salt] + Tokens(state.categories), schema.delim)
    ensures SelectionToFilename(schema, state).Success? && |schema.delim| > 0 && |state.categories| > 0 ==>
              var prefix := state.salt + schema.delim;
              |SelectionToFilename(schema, state).value| >= |prefix|
              && SelectionToFilename(schema, state).value[..|prefix|] == prefix
  {
    var d := schema.delim;
    var start := state.salt + d;
    var ts := Tokens(state.categories);
    WriteFromSucceeds(schema, state.categories, start);
    if SelectionToFilename(schema, state).Success? {
      WriteFromValue(schema, state.categories, start);
      if |d| == 1 {
        SaltTokensJoined(state.salt, ts, d);
      }
      if |d| > 0 && |state.categories| > 0 {
        assert |ts| > 0;
        SaltPrefixKept(state.salt, ts, d);
      }
    }
  }

  /** A failing `selection_to_filename` reports the first category whose
      requirement fails, with no name produced. */
  lemma SelectionToFilenameFirstError(schema: Schema, state: State)
    requires Known(schema, state.categories) && SelectionToFilename(schema, state).Failure?
    ensures exists k | 0 <= k < |state.categories| ::
              SelectionToFilename(schema, state).error == MismatchAt(schema, state.categories, k)
              && !CategoryOk(schema, state.categories[k])
              && (KnownPrefix(schema, state.categories, k); Satisfied(schema, state.categories[..k]))
  {
    WriteFromFirstError(schema, state.categories, state.salt + schema.delim);
  }

  /** `selection_to_filename` as evidently intended: the whole final
      delimiter is removed. */
  function SelectionToFilenameFixed(schema: Schema, state: State): Result<string, GenerateError>
    requires Known(schema, state.categories)
  {
    var name :- WriteFrom(schema, state.categories, state.salt + schema.delim);
    var n := if |name| < |schema.delim| then 0 else |name| - |schema.delim|;
    Success(name[..n])
  }

  /** The corrected generator joins the salt and the tokens by the
      delimiter, whatever its length. */
  lemma SelectionToFilenameFixedJoins(schema: Schema, state: State)
    requires Known(schema, state.categories)
    ensures SelectionToFilenameFixed(schema, state).Success? <==> Satisfied(schema, state.categories)
    ensures SelectionToFilenameFixed(schema, state).Success? ==>
              SelectionToFilenameFixed(schema, state).value == Join([state.salt] + Tokens(state.categories), schema.delim)
  {
    var d := schema.delim;
    var start := state.salt + d;
    var ts := Tokens(state.categories);
    WriteFromSucceeds(schema, state.categories, start);
    if SelectionToFilenameFixed(schema, state).Success? {
      WriteFromValue(schema, state.categories, start);
      var all := [state.salt] + ts;
      JoinThenDelimiter(all, d);
      TerminatedAppend([state.salt], ts, d);
      assert Terminated([state.salt], d) == state.salt + d + Terminated([], d);
      var j := Join(all, d);
      assert start + Terminated(ts, d) == j + d;
      assert (j + d)[..|j + d| - |d|] == j;
    }
  }

  /** With the two-character delimiter `--`, salt `S` and one category
      selecting its only tag `x`, the name is `S--x-`: half of the final
      delimiter stays. */
  lemma SelectionKeepsHalfDelimiter()
    ensures var schema := Schema("--", [Category("c", Exactly, 1, ["x"])]);
            var state := State("S", [CategoryState("c", [("x", true)])]);
            Known(schema, state.categories)
            && SelectionToFilename(schema, state) == Success("S--x-")
            && SelectionToFilenameFixed(schema, state) == Success("S--x")
  {
    var schema := Schema("--", [Category("c", Exactly, 1, ["x"])]);
    var state := State("S", [CategoryState("c", [("x", true)])]);
    var values := state.categories[0].values;
    assert Find(schema.categories, "c") == Some(schema.categories[0]);
    assert SelectedTags(values[1..]) == [];
    assert SelectedTags(values) == ["x"];
    assert Tokens(state.categories[1..]) == [];
    assert Tokens(state.categories) == ["x"];
    SelectionToFilenameMeans(schema, state);
    SelectionToFilenameFixedJoins(schema, state);
    assert Satisfied(schema, state.categories);
    assert Terminated(["x"], "--") == "x--";
    assert "S" + "--" + "x--" == "S--x--";
    assert DropLast("S--x--") == "S--x-";
    assert Join(["S", "x"], "--") == "S--x";
    assert [state.salt] + Tokens(state.categories) == ["S", "x"];
  }

  /** The `Display` rendering of the error. */
  function ErrorMessage(e: GenerateError): string {
    e.categoryName + " must have " + RequirementText(e.expected.0) + " " + DecimalString(e.expected.1)
    + " tag but " + DecimalString(e.selected) + " are selected."
  }

  /** The message opens with the category name and the requirement kind,
      and closes with the number selected. */
  lemma ErrorMessageNames(e: GenerateError)
    ensures var m := ErrorMessage(e);
            var prefix := e.categoryName + " must have " + RequirementText(e.expected.0);
            var suffix := DecimalString(e.selected) + " are selected.";
            |m| >= |prefix| + |suffix| && m[..|prefix|] == prefix && m[|m| - |suffix|..] == suffix
  {
    var m := ErrorMessage(e);
    var prefix := e.categoryName + " must have " + RequirementText(e.expected.0);
    var suffix := DecimalString(e.selected) + " are selected.";
    var middle := " " + DecimalString(e.expected.1) + " tag but ";
    assert m == prefix + middle + suffix;
  }

  /** The size of the index range `IDChars` samples from. */
  const RANGE: nat := 25 + 9

  const CHARSET: string := "ABCDEFGHIJKLMNPQRSTUVWXYZ123456789"

  predicate IsSaltChar(c: char) {
    ('A' <= c <= 'Z' && c != 'O') || ('1' <= c <= '9')
  }

  /** The character at index `i` of the set: the letters before `O`, the
      letters after it, then the digits from `1`. */
  function CharAt(i: nat): char
    requires i < RANGE
  {
    if i < 14 then ('A' as int + i) as char
    else if i < 25 then ('A' as int + i + 1) as char
    else ('1' as int + i - 25) as char
  }

  /** The set is listed in the order `CharAt` gives. */
  lemma CharsetIndexed()
    ensures |CHARSET| == RANGE
    ensures forall i | 0 <= i < RANGE :: CHARSET[i] == CharAt(i) && IsSaltChar(CHARSET[i])
  {
    forall i | 0 <= i < RANGE
      ensures CHARSET[i] == CharAt(i) && IsSaltChar(CHARSET[i])
    {
    }
  }

  /** Every index the sampler can draw is in bounds; the set is the capital
      letters without `O` and the digits without `0`, each once. */
  lemma CharsetShape()
    ensures |CHARSET| == RANGE
    ensures forall c :: c in CHARSET <==> IsSaltChar(c)
    ensures forall i, j | 0 <= i < j < |CHARSET| :: CHARSET[i] != CHARSET[j]
  {
    CharsetIndexed();
    forall i, j | 0 <= i < j < |CHARSET|
      ensures CHARSET[i] != CHARSET[j]
    {
      assert CharAt(i) != CharAt(j);
    }
    forall c | IsSaltChar(c)
      ensures c in CHARSET
    {
      var i := if 'A' <= c < 'O' then c as int - 'A' as int
               else if 'O' < c <= 'Z' then c as int - 'A' as int - 1
               else c as int - '1' as int + 25;
      assert CharAt(i) == c;
    }
  }

  /** One `IDChars` sample, given the index the uniform distribution drew. */
  function SampleIdChar(index: nat): char
    requires index < RANGE
  {
    CHARSET[index]
  }

  /** `gen_salt`, given the six indices drawn: six salt characters. */
  function GenSalt(draws: seq<nat>): (r: string)
    requires |draws| == 6 && forall i | 0 <= i < 6 :: draws[i] < RANGE
    ensures |r| == 6
  {
    seq(6, i requires 0 <= i < 6 => SampleIdChar(draws[i]))
  }

  /** A salt is six characters of the set, and different draws give
      different salts, so every salt is equally likely. */
  lemma GenSaltMeans(a: seq<nat>, b: seq<nat>)
    requires |a| == 6 && forall i | 0 <= i < 6 :: a[i] < RANGE
    requires |b| == 6 && forall i | 0 <= i < 6 :: b[i] < RANGE
    ensures forall i | 0 <= i < 6 :: IsSaltChar(GenSalt(a)[i])
    ensures GenSalt(a) == GenSalt(b) <==> a == b
  {
    CharsetShape();
    assert forall i | 0 <= i < 6 :: GenSalt(a)[i] == CHARSET[a[i]];
    assert forall i | 0 <= i < 6 :: GenSalt(b)[i] == CHARSET[b[i]];
    if GenSalt(a) == GenSalt(b) {
      forall i | 0 <= i < 6
        ensures a[i] == b[i]
      {
        assert CHARSET[a[i]] == CHARSET[b[i]];
      }
    }
  }
}
