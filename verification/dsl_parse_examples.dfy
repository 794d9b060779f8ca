/** The unit cases of `src/schema/parse.rs`, each generalised over the
    names, numbers and trailing text it uses and stated about the grammar
    as written. */
module DslParseExamples {
  import opened Wrappers
  import opened Strings
  import opened DslSyntax
  import opened DslParse
  import opened DslParseFacts
  import opened DslPrint

  // ---------------------------------------------------------------------
  // Parentheses

  lemma NatThen(n: U8, st: IdentStyle, t: string)
    requires Closes(t)
    ensures Expr(DecimalString(n) + t, st) == Done(NatU(n), t)
  {
    NatExact(n, t);
    ExprByNat(DecimalString(n) + t, st);
  }

  lemma WrapParens(w: string, x: ExprU, st: IdentStyle, t: string)
    requires Expr(w + (")" + t), st) == Done(x, ")" + t)
    ensures Expr("(" + w + ")" + t, st) == Done(x, t)
  {
    ParensExact(w, x, st, t);
    ExprByParens("(" + w + ")" + t, st);
  }

  lemma Nest(d: string, t: string)
    ensures "(" + ("(" + d + ")") + ")" + t == "((" + d + "))" + t
  {
    assert "(" + ("(" + d + ")") + ")" == "((" + d + "))";
  }

  /** `(0)` and `((0))` read as `0`: parentheses add nothing to the tree. */
  lemma ParensTransparent(n: U8, st: IdentStyle, t: string)
    requires Closes(t)
    ensures Expr("(" + DecimalString(n) + ")" + t, st) == Done(NatU(n), t)
    ensures Expr("((" + DecimalString(n) + "))" + t, st) == Done(NatU(n), t)
  {
    var d := DecimalString(n);
    NatThen(n, st, ")" + t);
    WrapParens(d, NatU(n), st, t);
    NatThen(n, st, ")" + (")" + t));
    WrapParens(d, NatU(n), st, ")" + t);
    WrapParens("(" + d + ")", NatU(n), st, t);
    Nest(d, t);
  }

  // ---------------------------------------------------------------------
  // Keywords and strings

  /** `"abc"/"a"` is a keyword; `"abc"` not followed by `/` is a string. */
  lemma KeywordOrString(name: string, id: string, st: IdentStyle, t: string)
    requires QuoteFree(name) && QuoteFree(id)
    ensures Expr("\"" + name + "\"" + "/" + "\"" + id + "\"" + t, st) == Done(KeywordU(name, id), t)
    ensures |t| == 0 || t[0] != '/' ==> Expr("\"" + name + "\"" + t, st) == Done(StringU(name), t)
  {
    KeywordExact(name, id, t);
    ExprByKeyword("\"" + name + "\"" + "/" + "\"" + id + "\"" + t, st);
    if |t| == 0 || t[0] != '/' {
      StrExact(name, t);
      StrNotKeyword(name, t);
      ExprByStr("\"" + name + "\"" + t, st);
    }
  }

  // ---------------------------------------------------------------------
  // White space

  predicate LineSpaceOnly(w: string) {
    forall i | 0 <= i < |w| :: IsLineSpace(w[i])
  }

  /** `line_space0` skips all the spaces, tabs and newlines in front and
      nothing else. */
  lemma LineSpace0Skips(w: string, t: string)
    requires LineSpaceOnly(w) && (|t| == 0 || !IsLineSpace(t[0]))
    ensures LineSpace0(w + t) == Done("", t)
  {
    var s := w + t;
    SpanAt(s, IsLineSpace, |w|);
    SkipIsSuffix(s, |w|);
    assert s[|w|..] == t;
  }

  /** Brackets with only white space between them are the empty list,
      and a second `]` after them is left over. */
  lemma BlankList(w: string, st: IdentStyle, t: string)
    requires LineSpaceOnly(w)
    ensures List("[" + w + "]" + t, st) == Done(ListU([]), t)
  {
    var s := w + ("]" + t);
    LineSpace0Skips(w, "]" + t);
    ListElemPApply(s, st, s);
    ExprClosed("]" + t, st);
    assert ListBody(s, st) == Done([], "]" + t);
    ListExact(w, [], st, t);
  }

  // ---------------------------------------------------------------------
  // Function applications

  /** The layouts that may separate a function name from its first
      argument in the cases: a space, a newline and an indent of two
      spaces or of a tab, and a space before that. */
  predicate Layout(sep: string) {
    sep == " " || sep == "\n  " || sep == "\n\t" || sep == " \n  "
  }

  lemma NewlineIndent(ind: string, u: string)
    requires ind == "  " || ind == "\t"
    requires |u| == 0 || (!IsSpace(u[0]) && !IsNewline(u[0]))
    ensures Newlines1("\n" + ind + u) == Done("\n", ind + u)
    ensures Indent(ind + u) == Done("", u)
  {
    var s := "\n" + ind + u;
    SpanAt(s, IsNewline, 1);
    SkipIsSuffix(s, 1);
    assert s[1..] == ind + u && s[..1] == "\n";
    if ind == "  " {
      assert ind + u == "  " + u;
      assert "  " <= ind + u && (ind + u)[2..] == u;
    } else {
      assert !("  " <= ind + u) && "\t" <= ind + u && (ind + u)[1..] == u;
    }
  }

  lemma LayoutTerminates(sep: string, u: string)
    requires Layout(sep)
    requires |u| == 0 || (!IsSpace(u[0]) && !IsNewline(u[0]))
    ensures VertTerminator(sep + u).Done? && VertTerminator(sep + u).rest == u
  {
    if sep == " " {
      VertAfterSpace(u);
    } else if sep == " \n  " {
      var s := sep + u;
      SpanAt(s, IsSpace, 1);
      SkipIsSuffix(s, 1);
      assert s[1..] == "\n" + "  " + u;
      NewlineIndent("  ", u);
    } else {
      var ind := sep[1..];
      assert sep == "\n" + ind;
      SpanAt(sep + u, IsSpace, 0);
      NewlineIndent(ind, u);
    }
  }

  /** A function name and its layout are read up to the first argument. */
  lemma NameThenLayout(name: string, sep: string, u: string, st: IdentStyle)
    requires IsIdentifier(name, st) && Layout(sep)
    requires |u| == 0 || (!IsSpace(u[0]) && !IsNewline(u[0]))
    ensures LexemeVertAllowed(IdentifierP(st), name + (sep + u)) == Done(name, u)
  {
    IdentifierExact(name, st, sep + u);
    LayoutTerminates(sep, u);
  }

  /** A single number is the whole argument list. */
  lemma OneNatArgument(s: string, n: U8, st: IdentStyle, t: string)
    requires Closes(t) && |DecimalString(n) + t| < |s|
    ensures SepBy0(LineSpace1, ExprP(s, st), DecimalString(n) + t, WellFormedIn(st)) == Done([NatU(n)], t)
  {
    var d := DecimalString(n);
    NatThen(n, st, t);
    ExprPApply(s, st, d + t);
    LineSpace1Shrinks();
    assert LineSpace1(t).Fail?;
    assert [NatU(n)] + [] == [NatU(n)];
    SepBy0From(LineSpace1, ExprP(s, st), WellFormedIn(st), d + t, NatU(n), t, [], t);
  }

  /** `foo 0`, `foo\n  0`, `foo\n\t0` and `foo \n  0` all read as `foo`
      applied to `0`. */
  lemma FuncLayouts(name: string, sep: string, n: U8, st: IdentStyle, t: string)
    requires IsIdentifier(name, st) && Layout(sep) && Closes(t)
    ensures Func(name + sep + DecimalString(n) + t, st) == Done(FnU(name, [NatU(n)]), t)
  {
    var d := DecimalString(n);
    var u := d + t;
    var s := name + sep + d + t;
    AppendAssoc(name + sep, d, t);
    AppendAssoc(name, sep, u);
    NameThenLayout(name, sep, u, st);
    OneNatArgument(s, n, st, t);
    FuncFrom(s, st, name, u, [NatU(n)], t);
  }

  /** `boop []]`: the application takes the empty list and leaves the stray
      `]`, which `parse` then ignores. */
  lemma StrayBracket(name: string)
    requires IsIdentifier(name, LettersAndHyphens)
    ensures Func(name + " []]", LettersAndHyphens) == Done(FnU(name, [ListU([])]), "]")
    ensures Parse(name + " []]") == Success(FnU(name, [ListU([])]))
  {
    var e := FnU(name, [ListU([])]);
    assert Render(ListU([])) == "[]";
    assert Render(e) + "]" == name + " []]";
    assert WellFormed(e, LettersAndHyphens);
    ExprRender(e, LettersAndHyphens, "]");
    ParseIgnoresTrailing(e, "]");
    FirstChars(name + " []]", LettersAndHyphens);
  }

  // ---------------------------------------------------------------------
  // `sep_by1(tag(","), alpha1)`

  /** nom's `alpha1`: a non-empty run of letters. */
  function Alpha1(s: string): PResult<string> {
    var n := Span(s, IsAlpha);
    if n == 0 then Fail else Done(s[..n], Skip(s, n))
  }

  function Comma(s: string): PResult<string> {
    Tag(",", s)
  }

  predicate AnyWord(w: string) {
    true
  }

  /** Text at which `alpha1` and `tag(",")` both fail. */
  predicate Stops(t: string) {
    |t| == 0 || (!IsAlpha(t[0]) && t[0] != ',')
  }

  /** A run of letters followed by a non-letter is read whole. */
  lemma Alpha1Exact(w: string, t: string)
    requires |w| > 0 && (forall i | 0 <= i < |w| :: IsAlpha(w[i]))
    requires |t| == 0 || !IsAlpha(t[0])
    ensures Alpha1(w + t) == Done(w, t)
  {
    var s := w + t;
    SpanAt(s, IsAlpha, |w|);
    SkipIsSuffix(s, |w|);
    assert s[..|w|] == w && s[|w|..] == t;
  }

  /** One round of the loop: a comma, then one letter. */
  lemma LetterStep(c: char, rest: string)
    requires IsAlpha(c) && (|rest| == 0 || !IsAlpha(rest[0]))
    ensures LedStep(Comma, Alpha1, [c], ",", [c], rest)
  {
    assert "," + [c] + rest == "," + ([c] + rest);
    assert "," <= "," + ([c] + rest);
    assert ("," + ([c] + rest))[1..] == [c] + rest;
    Alpha1Exact([c], rest);
  }

  lemma LettersLed(b: char, c: char, t: string)
    ensures Led([[b], [c]], ",") + t == "," + [b] + ("," + [c] + t)
  {
    assert Led([[c]], ",") == "," + [c];
    assert [[b], [c]][1..] == [[c]];
  }

  /** `sep_by1` on nothing fails, and on one letter reads it. */
  lemma SepBy1Short(a: char, t: string)
    requires IsAlpha(a) && Stops(t)
    ensures SepBy1(Comma, Alpha1, "", AnyWord) == Fail
    ensures SepBy1(Comma, Alpha1, [a] + t, AnyWord) == Done([[a]], t)
  {
    assert Shrinks(Comma) && Shrinks(Alpha1) && Yields(Alpha1, AnyWord);
    assert Comma(t).Fail?;
    Alpha1Exact([a], t);
    SepLoopLed(Comma, Alpha1, AnyWord, [[a]], [], [], ",", t);
    assert [[a]] + [] == [[a]];
    SepBy0From(Comma, Alpha1, AnyWord, [a] + t, [a], t, [], t);
  }

  /** The rounds for `,b,c` read `b` and `c`. */
  lemma LetterRounds(b: char, c: char, t: string)
    requires IsAlpha(b) && IsAlpha(c) && Stops(t)
    ensures LedSteps(Comma, Alpha1, [[b], [c]], [[b], [c]], ",", t)
  {
    LettersLed(b, c, t);
    assert Led([], ",") == "" && [[c]][1..] == [];
    assert Led([[c]][1..], ",") + t == t;
    LetterStep(c, t);
    assert LedSteps(Comma, Alpha1, [[c]], [[c]], ",", t);
    assert Led([[c]], ",") + t == "," + [c] + t;
    LetterStep(b, "," + [c] + t);
    assert [[b], [c]][1..] == [[c]];
  }

  /** On `a,b,c123`, `sep_by1` reads `a`, `b` and `c` and leaves `123`. */
  lemma SepBy1Letters(a: char, b: char, c: char, t: string)
    requires IsAlpha(a) && IsAlpha(b) && IsAlpha(c) && Stops(t)
    ensures SepBy1(Comma, Alpha1, [a] + Led([[b], [c]], ",") + t, AnyWord) == Done([[a], [b], [c]], t)
  {
    assert Shrinks(Comma) && Shrinks(Alpha1) && Yields(Alpha1, AnyWord);
    assert Comma(t).Fail?;
    var rest := Led([[b], [c]], ",") + t;
    LetterRounds(b, c, t);
    SepLoopLed(Comma, Alpha1, AnyWord, [[a]], [[b], [c]], [[b], [c]], ",", t);
    LettersLed(b, c, t);
    Alpha1Exact([a], rest);
    AppendAssoc([a], Led([[b], [c]], ","), t);
    assert [[a]] + [[b], [c]] == [[a], [b], [c]];
    SepBy0From(Comma, Alpha1, AnyWord, [a] + rest, [a], rest, [[b], [c]], t);
  }
}
