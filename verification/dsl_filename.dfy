/** Filename generation in the schema-language snapshot
    (`src/filename/mod.rs`): every category of the selection state writes
    the ids of its selected keywords, or the schema's placeholder when none
    is selected, each followed by the delimiter; the first category whose
    requirement is violated aborts with an error, and the last character of
    the name is dropped at the end. */
module DslFilename {
  import opened Wrappers
  import opened Strings
  import opened DslSyntax

  /** The selection state: every category with its keywords, each marked
      selected or not. */
  type State = seq<(Category, seq<(Keyword, bool)>)>

  datatype GenerateError = RequirementMismatch(category: Category, expected: Requirement, got: nat)

  /** The ids of the selected keywords, in their declared order. */
  function SelectedIds(kws: seq<(Keyword, bool)>): seq<string>
  {
    if |kws| == 0 then [] else (if kws[0].1 then [kws[0].0.id] else []) + SelectedIds(kws[1..])
  }

  /** The selected ids are exactly the ids of the selected keywords, and
      selecting distributes over concatenation, so declared order is kept. */
  lemma {:induction false} SelectedIdsMeans(kws: seq<(Keyword, bool)>, x: string)
    ensures x in SelectedIds(kws) <==> exists j | 0 <= j < |kws| :: kws[j].1 && kws[j].0.id == x
    ensures |SelectedIds(kws)| <= |kws|
    decreases |kws|
  {
    if |kws| > 0 {
      SelectedIdsMeans(kws[1..], x);
      if x in SelectedIds(kws[1..]) {
        var j :| 0 <= j < |kws[1..]| && kws[1..][j].1 && kws[1..][j].0.id == x;
        assert kws[j + 1] == kws[1..][j];
      }
      if exists j | 0 <= j < |kws| :: kws[j].1 && kws[j].0.id == x {
        var j :| 0 <= j < |kws| && kws[j].1 && kws[j].0.id == x;
        if j > 0 {
          assert kws[1..][j - 1] == kws[j];
        }
      }
    }
  }

  lemma {:induction false} SelectedIdsAppend(a: seq<(Keyword, bool)>, b: seq<(Keyword, bool)>)
    ensures SelectedIds(a + b) == SelectedIds(a) + SelectedIds(b)
    decreases |a|
  {
    if |a| == 0 {
      assert a + b == b;
    } else {
      assert (a + b)[1..] == a[1..] + b;
      SelectedIdsAppend(a[1..], b);
    }
  }

  /** Whether `count` selections break the requirement. */
  predicate Violates(q: Requirement, count: nat) {
    match q
    case Exactly(n) => count != n
    case AtMost(n) => count > n
    case AtLeast(n) => count < n
  }

  /** The tokens one category writes: its selected ids, or the placeholder. */
  function CategoryTokens(empty: string, kws: seq<(Keyword, bool)>): seq<string> {
    var ids := SelectedIds(kws);
    if |ids| == 0 then [empty] else ids
  }

  /** The tokens the whole state writes, category after category. */
  function Tokens(empty: string, state: State): seq<string> {
    if |state| == 0 then [] else CategoryTokens(empty, state[0].1) + Tokens(empty, state[1..])
  }

  /** A category whose selection meets its requirement. */
  predicate CategoryOk(entry: (Category, seq<(Keyword, bool)>)) {
    !Violates(entry.0.requirement, |SelectedIds(entry.1)|)
  }

  predicate Satisfied(state: State) {
    forall i | 0 <= i < |state| :: CategoryOk(state[i])
  }

  lemma SatisfiedCons(state: State)
    requires |state| > 0
    ensures Satisfied(state) <==> CategoryOk(state[0]) && Satisfied(state[1..])
  {
    if CategoryOk(state[0]) && Satisfied(state[1..]) {
      forall i | 0 <= i < |state|
        ensures CategoryOk(state[i])
      {
        if i > 0 {
          assert state[i] == state[1..][i - 1];
        }
      }
    }
  }

  /** The error for the category at `k`. */
  function MismatchAt(state: State, k: nat): GenerateError
    requires k < |state|
  {
    RequirementMismatch(state[k].0, state[k].0.requirement, |SelectedIds(state[k].1)|)
  }

  /** The loop of `generate`, from the name built so far. */
  function GenerateFrom(schema: Schema, state: State, name: string): Result<string, GenerateError>
    decreases |state|
  {
    if |state| == 0 then Success(name)
    else
      var cat := state[0].0;
      var ids := SelectedIds(state[0].1);
      if Violates(cat.requirement, |ids|) then Failure(RequirementMismatch(cat, cat.requirement, |ids|))
      else
        var placeholder := if |ids| == 0 then schema.empty + schema.delim else "";
        GenerateFrom(schema, state[1..], name + placeholder + Terminated(ids, schema.delim))
  }

  /** `generate` as written: the loop, then `String::pop`. */
  function Generate(schema: Schema, state: State): Result<string, GenerateError>
  {
    var name :- GenerateFrom(schema, state, "");
    Success(DropLast(name))
  }

  /** The loop succeeds exactly when every requirement holds. */
  lemma {:induction false} GenerateFromSucceeds(schema: Schema, state: State, name: string)
    ensures GenerateFrom(schema, state, name).Success? <==> Satisfied(state)
    decreases |state|
  {
    if |state| > 0 {
      SatisfiedCons(state);
      var ids := SelectedIds(state[0].1);
      var d := schema.delim;
      var placeholder := if |ids| == 0 then schema.empty + d else "";
      GenerateFromSucceeds(schema, state[1..], name + placeholder + Terminated(ids, d));
    }
  }

  /** The placeholder, or the selected ids, each followed by the delimiter. */
  lemma CategoryText(empty: string, d: string, kws: seq<(Keyword, bool)>)
    ensures (if |SelectedIds(kws)| == 0 then empty + d else "") + Terminated(SelectedIds(kws), d)
            == Terminated(CategoryTokens(empty, kws), d)
  {
    if |SelectedIds(kws)| == 0 {
      assert Terminated([empty], d) == empty + d + Terminated([], d);
    }
  }

  /** On success the loop has appended every token followed by the delimiter. */
  lemma {:induction false} GenerateFromValue(schema: Schema, state: State, name: string)
    requires GenerateFrom(schema, state, name).Success?
    ensures GenerateFrom(schema, state, name).value == name + Terminated(Tokens(schema.empty, state), schema.delim)
    decreases |state|
  {
    if |state| > 0 {
      var ids := SelectedIds(state[0].1);
      var d := schema.delim;
      var placeholder := if |ids| == 0 then schema.empty + d else "";
      var name' := name + placeholder + Terminated(ids, d);
      assert GenerateFrom(schema, state, name) == GenerateFrom(schema, state[1..], name');
      GenerateFromValue(schema, state[1..], name');
      var head := CategoryTokens(schema.empty, state[0].1);
      var tail := Tokens(schema.empty, state[1..]);
      CategoryText(schema.empty, d, state[0].1);
      assert placeholder + Terminated(ids, d) == Terminated(head, d);
      TerminatedAppend(head, tail, d);
      assert Tokens(schema.empty, state) == head + tail;
      AppendAssoc(name, placeholder, Terminated(ids, d));
      assert name' == name + Terminated(head, d);
      AppendAssoc(name, Terminated(head, d), Terminated(tail, d));
    }
  }

  /** On failure the loop reports the first category whose requirement fails. */
  lemma {:induction false} GenerateFromFirstError(schema: Schema, state: State, name: string)
    requires GenerateFrom(schema, state, name).Failure?
    ensures exists k | 0 <= k < |state| ::
              GenerateFrom(schema, state, name).error == MismatchAt(state, k)
              && !CategoryOk(state[k]) && Satisfied(state[..k])
    decreases |state|
  {
    var ids := SelectedIds(state[0].1);
    var d := schema.delim;
    if !CategoryOk(state[0]) {
      assert Satisfied(state[..0]);
    } else {
      var placeholder := if |ids| == 0 then schema.empty + d else "";
      var name' := name + placeholder + Terminated(ids, d);
      GenerateFromFirstError(schema, state[1..], name');
      var k :| 0 <= k < |state[1..]| &&
               GenerateFrom(schema, state[1..], name').error == MismatchAt(state[1..], k)
               && !CategoryOk(state[1..][k]) && Satisfied(state[1..][..k]);
      assert state[1..][k] == state[k + 1];
      assert state[..k + 1][1..] == state[1..][..k];
      SatisfiedCons(state[..k + 1]);
    }
  }

  /** The loop from an empty name: every token followed by the delimiter. */
  lemma GenerateName(schema: Schema, state: State)
    ensures GenerateFrom(schema, state, "").Success? <==> Satisfied(state)
    ensures GenerateFrom(schema, state, "").Success? ==>
              GenerateFrom(schema, state, "").value == Terminated(Tokens(schema.empty, state), schema.delim)
  {
    GenerateFromSucceeds(schema, state, "");
    if GenerateFrom(schema, state, "").Success? {
      GenerateFromValue(schema, state, "");
      assert "" + Terminated(Tokens(schema.empty, state), schema.delim) == Terminated(Tokens(schema.empty, state), schema.delim);
    }
  }

  lemma TokensNonEmpty(empty: string, state: State)
    requires |state| > 0
    ensures |Tokens(empty, state)| > 0
  {
  }

  /** What `generate` returns: the tokens, each followed by the delimiter,
      less one character; with a one-character delimiter that is the
      tokens joined by the delimiter, and an empty state gives "". */
  lemma GenerateMeans(schema: Schema, state: State)
    ensures Generate(schema, state).Success? <==> Satisfied(state)
    ensures Generate(schema, state).Success? ==>
              Generate(schema, state).value == DropLast(Terminated(Tokens(schema.empty, state), schema.delim))
    ensures Generate(schema, state).Success? && |state| == 0 ==> Generate(schema, state).value == ""
    ensures Generate(schema, state).Success? && |state| > 0 && |schema.delim| == 1 ==>
              Generate(schema, state).value == Join(Tokens(schema.empty, state), schema.delim)
  {
    GenerateName(schema, state);
    var ts := Tokens(schema.empty, state);
    var d := schema.delim;
    if |state| > 0 && |d| == 1 {
      TokensNonEmpty(schema.empty, state);
      DropLastTerminated(ts, d);
    }
  }

  /** A failing `generate` reports the first category whose requirement fails. */
  lemma GenerateFirstError(schema: Schema, state: State)
    requires Generate(schema, state).Failure?
    ensures exists k | 0 <= k < |state| ::
              Generate(schema, state).error == MismatchAt(state, k)
              && !CategoryOk(state[k]) && Satisfied(state[..k])
  {
    GenerateFromFirstError(schema, state, "");
  }

  /** `generate` as evidently intended: the whole final delimiter is removed. */
  function GenerateFixed(schema: Schema, state: State): Result<string, GenerateError>
  {
    var name :- GenerateFrom(schema, state, "");
    var n := if |name| < |schema.delim| then 0 else |name| - |schema.delim|;
    Success(name[..n])
  }

  /** The corrected generator joins the tokens by the delimiter, whatever its length. */
  lemma GenerateFixedJoins(schema: Schema, state: State)
    ensures GenerateFixed(schema, state).Success? <==> Satisfied(state)
    ensures GenerateFixed(schema, state).Success? ==>
              GenerateFixed(schema, state).value ==
                (if |state| == 0 then "" else Join(Tokens(schema.empty, state), schema.delim))
  {
    GenerateName(schema, state);
    var ts := Tokens(schema.empty, state);
    var d := schema.delim;
    if |state| > 0 {
      TokensNonEmpty(schema.empty, state);
      JoinThenDelimiter(ts, d);
      var j := Join(ts, d);
      assert (j + d)[..|j + d| - |d|] == j;
    }
  }

  /** With the two-character delimiter `--`, one category selecting the
      keyword with id `a` is written `a-`: half of the delimiter stays. */
  lemma GenerateKeepsHalfDelimiter()
    ensures var schema := Schema("--", "none", []);
            var state: State := [(Category("c", Exactly(1)), [(Keyword("k", "a"), true)])];
            Generate(schema, state) == Success("a-")
            && GenerateFixed(schema, state) == Success("a")
  {
    var schema := Schema("--", "none", []);
    var state: State := [(Category("c", Exactly(1)), [(Keyword("k", "a"), true)])];
    var kws := state[0].1;
    assert SelectedIds(kws[1..]) == [];
    assert SelectedIds(kws) == ["a"];
    assert Tokens("none", state[1..]) == [];
    assert Tokens("none", state) == ["a"];
    assert Satisfied(state);
    GenerateName(schema, state);
    assert Terminated(["a"], "--") == "a--";
    assert GenerateFrom(schema, state, "") == Success("a--");
    assert DropLast("a--") == "a-";
    assert "a--"[..1] == "a";
  }

  /** With a one-character delimiter the corrected generator is `generate`
      as written, errors included. */
  lemma GenerateAgrees(schema: Schema, state: State)
    requires |schema.delim| == 1
    ensures Generate(schema, state) == GenerateFixed(schema, state)
  {
    var r := GenerateFrom(schema, state, "");
    if r.Success? {
      var name := r.value;
      if |name| > 0 {
        assert DropLast(name) == name[..|name| - 1] by {
          assert DropLast(name) + [name[|name| - 1]] == name;
        }
      }
    }
  }

  /** The `Display` rendering of the error; the rendering of the
      requirement is a parameter (the schema-language `Requirement` has no
      `Display` in the program). */
  function GenerateErrorMessage(e: GenerateError, showRequirement: Requirement -> string): string {
    "Category " + e.category.name + " has a tag requirement of " + showRequirement(e.expected)
    + ", but there were " + DecimalString(e.got) + " keywords found."
  }

  /** The message begins with the category's name and ends with the count
      of selected keywords. */
  lemma GenerateErrorMessageNames(e: GenerateError, showRequirement: Requirement -> string)
    ensures var m := GenerateErrorMessage(e, showRequirement);
            var prefix := "Category " + e.category.name;
            var suffix := DecimalString(e.got) + " keywords found.";
            |m| >= |prefix| + |suffix| && m[..|prefix|] == prefix && m[|m| - |suffix|..] == suffix
  {
    var m := GenerateErrorMessage(e, showRequirement);
    var prefix := "Category " + e.category.name;
    var suffix := DecimalString(e.got) + " keywords found.";
    var middle := " has a tag requirement of " + showRequirement(e.expected) + ", but there were ";
    assert m == prefix + middle + suffix;
  }
}
