/** Reading a filename back into a selection state, for the string-tag
    snapshot. `Schema::parse` is declared in `src/schema.rs` but left
    unimplemented, with an empty error type; what it must do is stated only by the
    round-trip property test beside it. This is the inverse that test
    asks for: split the name at the delimiter, take the first token as the
    salt, then let every schema category in order claim the longest run of
    following tokens that are its own tags (the run `drain_while` returns);
    a category with no run consumes one token, the empty token its empty
    selection was written as. Parsing never fails. */
module TagParse {
  import opened Wrappers
  import opened Strings
  import opened TagSchema
  import opened TagFilename
  import opened Util

  /** The length of the longest run at the front of `tokens` whose tokens
      are all in `values`. */
  function RunLength(tokens: seq<string>, values: seq<string>): (n: nat)
    ensures n <= |tokens|
  {
    if |tokens| == 0 || tokens[0] !in values then 0 else 1 + RunLength(tokens[1..], values)
  }

  /** Every token of the run is in `values`, and the token after it is not. */
  lemma {:induction false} RunBounds(tokens: seq<string>, values: seq<string>)
    ensures var n := RunLength(tokens, values);
            (forall i | 0 <= i < n :: tokens[i] in values)
            && (n < |tokens| ==> tokens[n] !in values)
    decreases |tokens|
  {
    if |tokens| > 0 && tokens[0] in values {
      RunBounds(tokens[1..], values);
      var n := RunLength(tokens, values);
      forall i | 0 <= i < n
        ensures tokens[i] in values
      {
        if i > 0 {
          assert tokens[i] == tokens[1..][i - 1];
        }
      }
      if n < |tokens| {
        assert tokens[n] == tokens[1..][n - 1];
      }
    }
  }

  /** The run is the prefix `drain_while` returns for membership in `values`. */
  lemma RunIsDrained(tokens: seq<string>, values: seq<string>)
    ensures var n := RunLength(tokens, values);
            Drained(tokens, t => t in values, tokens[..n], if n < |tokens| then tokens[n + 1..] else [])
  {
    var n := RunLength(tokens, values);
    RunBounds(tokens, values);
    var run := tokens[..n];
    assert forall i | 0 <= i < |run| :: run[i] in values by {
      forall i | 0 <= i < |run| ensures run[i] in values {
        assert run[i] == tokens[i];
      }
    }
  }

  /** Every tag of `values` with its mark: selected when it is in the run. */
  function Mark(values: seq<string>, run: seq<string>): (r: seq<(string, bool)>)
    ensures |r| == |values|
  {
    seq(|values|, j requires 0 <= j < |values| => (values[j], values[j] in run))
  }

  /** Every schema category in order claims its run of tokens; an empty
      run still consumes one token. */
  function ReadCategories(cats: seq<Category>, tokens: seq<string>): (r: seq<CategoryState>)
    ensures |r| == |cats|
    decreases |cats|
  {
    if |cats| == 0 then []
    else
      var n := RunLength(tokens, cats[0].values);
      var used := if n == 0 && |tokens| > 0 then 1 else n;
      [CategoryState(cats[0].name, Mark(cats[0].values, tokens[..n]))] + ReadCategories(cats[1..], tokens[used..])
  }

  /** `Schema::parse`: the salt, then the categories of the schema. */
  function Parse(schema: Schema, filename: string): State {
    var tokens := Split(filename, schema.delim);
    State(tokens[0], ReadCategories(schema.categories, tokens[1..]))
  }

  /** A selection category built from the schema category `c`: same name,
      same tags in the same order. */
  predicate MirrorsCategory(c: Category, s: CategoryState) {
    s.name == c.name && |s.values| == |c.values|
    && forall j | 0 <= j < |c.values| :: s.values[j].0 == c.values[j]
  }

  /** A selection built from the schema, category by category. */
  predicate Mirrors(cats: seq<Category>, states: seq<CategoryState>) {
    |states| == |cats| && forall i | 0 <= i < |cats| :: MirrorsCategory(cats[i], states[i])
  }

  /** The tags of one category: non-empty, free of the delimiter's first
      character, and pairwise distinct. */
  predicate TagsOk(d: string, values: seq<string>)
    requires |d| > 0
  {
    (forall j | 0 <= j < |values| :: values[j] != "" && d[0] !in values[j])
    && forall j, k | 0 <= j < k < |values| :: values[j] != values[k]
  }

  predicate Disjoint(a: seq<string>, b: seq<string>) {
    forall t | t in a :: t !in b
  }

  /** The tags of the schema can be told apart in a filename: each category's
      are well-formed and no tag belongs to two categories. */
  predicate TagsDistinct(d: string, cats: seq<Category>)
    requires |d| > 0
  {
    (forall i | 0 <= i < |cats| :: TagsOk(d, cats[i].values))
    && forall i, k | 0 <= i < k < |cats| :: Disjoint(cats[i].values, cats[k].values)
  }

  lemma TagsDistinctTail(d: string, cats: seq<Category>)
    requires |d| > 0 && |cats| > 0 && TagsDistinct(d, cats)
    ensures TagsDistinct(d, cats[1..])
    ensures forall k | 0 <= k < |cats[1..]| :: Disjoint(cats[0].values, cats[1..][k].values)
  {
    forall i, k | 0 <= i < k < |cats[1..]|
      ensures Disjoint(cats[1..][i].values, cats[1..][k].values)
    {
      assert cats[1..][i] == cats[i + 1] && cats[1..][k] == cats[k + 1];
    }
    forall k | 0 <= k < |cats[1..]|
      ensures Disjoint(cats[0].values, cats[1..][k].values)
    {
      assert cats[1..][k] == cats[k + 1];
    }
  }

  lemma MirrorsTail(cats: seq<Category>, states: seq<CategoryState>)
    requires |cats| > 0 && Mirrors(cats, states)
    ensures Mirrors(cats[1..], states[1..])
  {
    forall i | 0 <= i < |cats[1..]|
      ensures MirrorsCategory(cats[1..][i], states[1..][i])
    {
      assert cats[1..][i] == cats[i + 1] && states[1..][i] == states[i + 1];
    }
  }

  /** The selected tags of a mirrored category are among its schema tags. */
  lemma SelectedAreTags(c: Category, s: CategoryState, t: string)
    requires MirrorsCategory(c, s) && t in SelectedTags(s.values)
    ensures t in c.values
  {
    SelectedTagsMeans(s.values, t);
    var j :| 0 <= j < |s.values| && s.values[j].1 && s.values[j].0 == t;
    assert c.values[j] == t;
  }

  /** Marking the schema tags by the selected ones gives back the selection. */
  lemma MarkSelected(d: string, c: Category, s: CategoryState)
    requires |d| > 0 && MirrorsCategory(c, s) && TagsOk(d, c.values)
    ensures Mark(c.values, SelectedTags(s.values)) == s.values
  {
    var m := Mark(c.values, SelectedTags(s.values));
    forall j | 0 <= j < |c.values|
      ensures m[j] == s.values[j]
    {
      SelectedTagsMeans(s.values, c.values[j]);
      if c.values[j] in SelectedTags(s.values) {
        var k :| 0 <= k < |s.values| && s.values[k].1 && s.values[k].0 == c.values[j];
        assert c.values[k] == c.values[j];
        assert k == j;
      }
    }
  }

  /** No token a selection writes belongs to `values` when `values` is
      disjoint from every category's tags and holds no empty tag. */
  lemma {:induction false} TokensOutside(cats: seq<Category>, states: seq<CategoryState>, values: seq<string>)
    requires Mirrors(cats, states)
    requires forall k | 0 <= k < |cats| :: Disjoint(values, cats[k].values)
    requires "" !in values
    ensures forall t | t in Tokens(states) :: t !in values
    decreases |cats|
  {
    if |cats| > 0 {
      MirrorsTail(cats, states);
      assert forall k | 0 <= k < |cats[1..]| :: cats[1..][k] == cats[k + 1];
      TokensOutside(cats[1..], states[1..], values);
      assert Disjoint(values, cats[0].values);
      forall t | t in CategoryTokens(states[0].values)
        ensures t !in values
      {
        if t != "" {
          SelectedAreTags(cats[0], states[0], t);
        }
      }
    }
  }

  /** The run of a category is exactly its written tags when the next
      token, if any, is not one of its tags. */
  lemma {:induction false} RunLengthPrefix(run: seq<string>, rest: seq<string>, values: seq<string>)
    requires forall t | t in run :: t in values
    requires |rest| > 0 ==> rest[0] !in values
    ensures RunLength(run + rest, values) == |run|
    decreases |run|
  {
    if |run| == 0 {
      assert run + rest == rest;
    } else {
      assert (run + rest)[0] == run[0];
      assert (run + rest)[1..] == run[1..] + rest;
      RunLengthPrefix(run[1..], rest, values);
    }
  }

  /** The first token of a non-empty written selection is its first category's. */
  lemma TokensHead(states: seq<CategoryState>)
    requires |states| > 0
    ensures |Tokens(states)| > 0 && Tokens(states)[0] in CategoryTokens(states[0].values)
  {
  }

  /** Reading the tokens a mirrored selection writes gives the selection back. */
  lemma {:induction false} ReadTokens(d: string, cats: seq<Category>, states: seq<CategoryState>)
    requires |d| > 0 && TagsDistinct(d, cats) && Mirrors(cats, states)
    ensures ReadCategories(cats, Tokens(states)) == states
    decreases |cats|
  {
    if |cats| > 0 {
      var c := cats[0];
      var s := states[0];
      var here := CategoryTokens(s.values);
      var rest := Tokens(states[1..]);
      assert Tokens(states) == here + rest;
      assert MirrorsCategory(c, s);
      assert TagsOk(d, c.values);
      MirrorsTail(cats, states);
      TagsDistinctTail(d, cats);
      assert "" !in c.values;
      TokensOutside(cats[1..], states[1..], c.values);
      assert |rest| > 0 ==> rest[0] !in c.values;
      var tags := SelectedTags(s.values);
      var n := RunLength(here + rest, c.values);
      if |tags| == 0 {
        assert here == [""];
        assert n == 0;
        assert (here + rest)[1..] == rest;
        assert (here + rest)[..n] == [];
      } else {
        forall t | t in tags
          ensures t in c.values
        {
          SelectedAreTags(c, s, t);
        }
        RunLengthPrefix(tags, rest, c.values);
        assert (here + rest)[..n] == tags;
        assert (here + rest)[n..] == rest;
      }
      MarkSelected(d, c, s);
      ReadTokens(d, cats[1..], states[1..]);
      assert states == [s] + states[1..];
    }
  }

  /** Every token of a mirrored selection is free of the delimiter's first character. */
  lemma {:induction false} TokensFree(d: string, cats: seq<Category>, states: seq<CategoryState>)
    requires |d| > 0 && TagsDistinct(d, cats) && Mirrors(cats, states)
    ensures forall t | t in Tokens(states) :: d[0] !in t
    decreases |cats|
  {
    if |cats| > 0 {
      MirrorsTail(cats, states);
      TagsDistinctTail(d, cats);
      TokensFree(d, cats[1..], states[1..]);
      assert MirrorsCategory(cats[0], states[0]) && TagsOk(d, cats[0].values);
      forall t | t in CategoryTokens(states[0].values)
        ensures d[0] !in t
      {
        if t != "" {
          SelectedAreTags(cats[0], states[0], t);
        }
      }
    }
  }

  /** The salt and the tokens of a mirrored selection, joined by the
      delimiter, parse back to the selection. */
  lemma ParseJoined(schema: Schema, state: State)
    requires |schema.delim| > 0 && schema.delim[0] !in state.salt
    requires TagsDistinct(schema.delim, schema.categories) && Mirrors(schema.categories, state.categories)
    ensures Parse(schema, Join([state.salt] + Tokens(state.categories), schema.delim)) == state
  {
    var d := schema.delim;
    var ts := [state.salt] + Tokens(state.categories);
    TokensFree(d, schema.categories, state.categories);
    forall i | 0 <= i < |ts|
      ensures d[0] !in ts[i]
    {
      if i > 0 {
        assert ts[i] in Tokens(state.categories);
      }
    }
    SplitJoin(ts, d);
    assert ts[1..] == Tokens(state.categories);
    ReadTokens(d, schema.categories, state.categories);
  }

  /** Every category of a mirrored selection is found by name. */
  lemma MirrorsKnown(schema: Schema, state: State)
    requires Mirrors(schema.categories, state.categories)
    ensures Known(schema, state.categories)
  {
    forall i | 0 <= i < |state.categories|
      ensures Find(schema.categories, state.categories[i].name).Some?
    {
      FindMeans(schema.categories, state.categories[i].name);
      assert MirrorsCategory(schema.categories[i], state.categories[i]);
    }
  }

  /** The round-trip law of the property test, for the generator as
      written: with a one-character delimiter, distinct non-empty tags and
      a salt and tags free of the delimiter, a selection built from the
      schema that generates a name is read back from that name. */
  lemma RoundTrip(schema: Schema, state: State)
    requires |schema.delim| == 1 && schema.delim[0] !in state.salt
    requires TagsDistinct(schema.delim, schema.categories) && Mirrors(schema.categories, state.categories)
    ensures Known(schema, state.categories)
    ensures SelectionToFilename(schema, state).Success? ==>
              Parse(schema, SelectionToFilename(schema, state).value) == state
  {
    MirrorsKnown(schema, state);
    SelectionToFilenameMeans(schema, state);
    ParseJoined(schema, state);
  }

  /** The round-trip law for the corrected generator, for a delimiter of
      any positive length. */
  lemma RoundTripFixed(schema: Schema, state: State)
    requires |schema.delim| > 0 && schema.delim[0] !in state.salt
    requires TagsDistinct(schema.delim, schema.categories) && Mirrors(schema.categories, state.categories)
    ensures Known(schema, state.categories)
    ensures SelectionToFilenameFixed(schema, state).Success? ==>
              Parse(schema, SelectionToFilenameFixed(schema, state).value) == state
  {
    MirrorsKnown(schema, state);
    SelectionToFilenameFixedJoins(schema, state);
    ParseJoined(schema, state);
  }

  /** A salt from `gen_salt` satisfies the round trip's salt condition
      whenever the delimiter does not start with a salt character. */
  lemma GeneratedSaltFree(draws: seq<nat>, d: string)
    requires |draws| == 6 && forall i | 0 <= i < 6 :: draws[i] < RANGE
    requires |d| > 0 && !IsSaltChar(d[0])
    ensures d[0] !in GenSalt(draws)
  {
    GenSaltMeans(draws, draws);
  }

  /** The half delimiter left at the end sticks to the last tag. */
  lemma SplitHalfDelimiter()
    ensures Split("S--x-", "--") == ["S", "x-"]
  {
    var empty := Split("", "--");
    assert empty == [""];
    assert !("--" <= "-") && "-"[1..] == "";
    assert ["-"[0]] + empty[0] == "-" && empty[1..] == [];
    assert Split("-", "--") == ["-"];
    var r := Split("-", "--");
    assert "--"[0] != "x-"[0];
    assert !("--" <= "x-") && "x-"[1..] == "-";
    assert ["x-"[0]] + r[0] == "x-" && r[1..] == [];
    assert Split("x-", "--") == ["x-"];
    SplitAfterToken("S", "--", "x-");
    assert "S" + "--" + "x-" == "S--x-";
  }

  /** `S--x-` reads back as salt `S` with `x-`, not a tag, in place of `x`. */
  lemma HalfDelimiterReadsUnselected()
    ensures Parse(Schema("--", [Category("c", Exactly, 1, ["x"])]), "S--x-")
            == State("S", [CategoryState("c", [("x", false)])])
  {
    SplitHalfDelimiter();
    var tokens := ["S", "x-"];
    assert RunLength(tokens[1..], ["x"]) == 0;
    assert tokens[1..][1..] == [];
    assert Mark(["x"], []) == [("x", false)];
  }

  /** With the two-character delimiter `--`, the name `S--x-` written for
      salt `S` and the selected tag `x` reads back with `x` unselected:
      the round trip fails for the generator as written and holds for the
      corrected one. */
  lemma TwoCharDelimiterBreaksRoundTrip()
    ensures var schema := Schema("--", [Category("c", Exactly, 1, ["x"])]);
            var state := State("S", [CategoryState("c", [("x", true)])]);
            Known(schema, state.categories)
            && SelectionToFilename(schema, state) == Success("S--x-")
            && Parse(schema, "S--x-") == State("S", [CategoryState("c", [("x", false)])])
            && Parse(schema, SelectionToFilenameFixed(schema, state).value) == state
  {
    var schema := Schema("--", [Category("c", Exactly, 1, ["x"])]);
    var state := State("S", [CategoryState("c", [("x", true)])]);
    SelectionKeepsHalfDelimiter();
    HalfDelimiterReadsUnselected();
    assert TagsDistinct("--", schema.categories);
    assert MirrorsCategory(schema.categories[0], state.categories[0]);
    RoundTripFixed(schema, state);
  }

  /** Letting a category consume what `drain_while` consumes, the token
      after its run included, loses the next category's first tag. */
  function ReadCategoriesDrained(cats: seq<Category>, tokens: seq<string>): (r: seq<CategoryState>)
    ensures |r| == |cats|
    decreases |cats|
  {
    if |cats| == 0 then []
    else
      var n := RunLength(tokens, cats[0].values);
      var rest := if n < |tokens| then tokens[n + 1..] else [];
      [CategoryState(cats[0].name, Mark(cats[0].values, tokens[..n]))] + ReadCategoriesDrained(cats[1..], rest)
  }

  /** Two categories with one selected tag each, `a` then `b`, written
      as the tokens `a`, `b`. */
  lemma TwoSelectedTokens()
    ensures Tokens([CategoryState("p", [("a", true)]), CategoryState("q", [("b", true)])]) == ["a", "b"]
  {
    var states := [CategoryState("p", [("a", true)]), CategoryState("q", [("b", true)])];
    assert SelectedTags(states[0].values) == ["a"] by {
      assert SelectedTags(states[0].values[1..]) == [];
    }
    assert SelectedTags(states[1].values) == ["b"] by {
      assert SelectedTags(states[1].values[1..]) == [];
    }
    assert Tokens(states[1..][1..]) == [];
    assert Tokens(states[1..]) == ["b"];
  }

  /** The drained reading of `a`, `b` leaves nothing for the second category. */
  lemma DrainedReadingOfTwo()
    ensures ReadCategoriesDrained([Category("p", Exactly, 1, ["a"]), Category("q", Exactly, 1, ["b"])], ["a", "b"])
            == [CategoryState("p", [("a", true)]), CategoryState("q", [("b", false)])]
  {
    var ab := ["a", "b"];
    assert RunLength(ab[1..], ["a"]) == 0;
    assert RunLength(ab, ["a"]) == 1;
    assert ab[..1] == ["a"] && ab[2..] == [];
    assert Mark(["a"], ["a"]) == [("a", true)];
    assert RunLength([], ["b"]) == 0;
    assert Mark(["b"], []) == [("b", false)];
  }

  /** `ReadCategories` reads `a`, `b` back as both tags selected. */
  lemma ReadingOfTwo()
    ensures ReadCategories([Category("p", Exactly, 1, ["a"]), Category("q", Exactly, 1, ["b"])], ["a", "b"])
            == [CategoryState("p", [("a", true)]), CategoryState("q", [("b", true)])]
  {
    var cats := [Category("p", Exactly, 1, ["a"]), Category("q", Exactly, 1, ["b"])];
    var states := [CategoryState("p", [("a", true)]), CategoryState("q", [("b", true)])];
    TwoSelectedTokens();
    assert TagsDistinct("-", cats);
    assert MirrorsCategory(cats[0], states[0]) && MirrorsCategory(cats[1], states[1]);
    ReadTokens("-", cats, states);
  }

  /** Two categories with one selected tag each, `a` then `b`: the drained
      reading of `a`, `b` sees `b` unselected, while `ReadCategories` gets
      the selection back. */
  lemma DrainedReadingLosesTag()
    ensures var cats := [Category("p", Exactly, 1, ["a"]), Category("q", Exactly, 1, ["b"])];
            var states := [CategoryState("p", [("a", true)]), CategoryState("q", [("b", true)])];
            Tokens(states) == ["a", "b"]
            && ReadCategories(cats, ["a", "b"]) == states
            && ReadCategoriesDrained(cats, ["a", "b"]) == [states[0], CategoryState("q", [("b", false)])]
  {
    TwoSelectedTokens();
    ReadingOfTwo();
    DrainedReadingOfTwo();
  }
}
