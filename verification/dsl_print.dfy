/** A printer for untyped schema trees, the inverse of the parser: every
    well-formed tree is printed as schema text that `expr` reads back as
    exactly that tree, leaving what follows untouched. */
module DslPrint {
  import opened Wrappers
  import opened Strings
  import opened DslSyntax
  import opened DslParse
  import opened DslParseFacts

  function Quote(x: string): string {
    "\"" + x + "\""
  }

  /** Schema text for `e`. A function application is its name, one space
      and its arguments separated by single spaces (the space after the
      name is what `lexeme_vert_allowed` demands, even with no arguments);
      a list is its items separated by commas. */
  function Render(e: ExprU): string
    decreases e, 0
  {
    match e
    case NatU(n) => DecimalString(n)
    case StringU(x) => Quote(x)
    case KeywordU(name, id) => Quote(name) + "/" + Quote(id)
    case ListU(xs) => "[" + ItemsText(xs) + "]"
    case FnU(name, args) => name + " " + ArgsText(args)
  }

  /** An argument position: a function application is parenthesised, since
      otherwise it would take the following arguments as its own. */
  function RenderArg(e: ExprU): string
    decreases e, 1
  {
    if e.FnU? then "(" + Render(e) + ")" else Render(e)
  }

  function ItemsText(xs: seq<ExprU>): string
    decreases xs, 1
  {
    if |xs| == 0 then "" else Join(RenderEach(xs), ",")
  }

  function ArgsText(xs: seq<ExprU>): string
    decreases xs, 1
  {
    if |xs| == 0 then "" else Join(RenderArgs(xs), " ")
  }

  function RenderEach(xs: seq<ExprU>): (r: seq<string>)
    ensures |r| == |xs|
    decreases xs, 0
  {
    if |xs| == 0 then [] else [Render(xs[0])] + RenderEach(xs[1..])
  }

  function RenderArgs(xs: seq<ExprU>): (r: seq<string>)
    ensures |r| == |xs|
    decreases xs, 0
  {
    if |xs| == 0 then [] else [RenderArg(xs[0])] + RenderArgs(xs[1..])
  }

  lemma RenderEachAt(xs: seq<ExprU>, i: nat)
    requires i < |xs|
    ensures RenderEach(xs)[i] == Render(xs[i])
    decreases i
  {
    if i > 0 {
      RenderEachAt(xs[1..], i - 1);
    }
  }

  lemma RenderArgsAt(xs: seq<ExprU>, i: nat)
    requires i < |xs|
    ensures RenderArgs(xs)[i] == RenderArg(xs[i])
    decreases i
  {
    if i > 0 {
      RenderArgsAt(xs[1..], i - 1);
    }
  }

  /** The characters an expression can start with. */
  predicate StartsExpr(c: char) {
    IsAlpha(c) || IsDigit(c) || c == '"' || c == '[' || c == '('
  }

  /** No expression starts with white space. */
  lemma StartsExprNotSpace(c: char)
    requires StartsExpr(c)
    ensures !IsLineSpace(c)
  {
  }

  /** A printed expression starts with a character that begins an
      expression; with a letter exactly when it is a function application,
      and never with a parenthesis unless in argument position. */
  lemma RenderHead(e: ExprU, st: IdentStyle)
    requires WellFormed(e, st)
    ensures |Render(e)| > 0 && StartsExpr(Render(e)[0]) && Render(e)[0] != '('
    ensures IsAlpha(Render(e)[0]) <==> e.FnU?
    ensures |RenderArg(e)| > 0 && StartsExpr(RenderArg(e)[0]) && !IsAlpha(RenderArg(e)[0])
  {
  }

  /** A non-empty argument list starts with its first argument. */
  lemma ArgsTextHead(xs: seq<ExprU>, st: IdentStyle)
    requires |xs| > 0 && WellFormed(xs[0], st)
    ensures |ArgsText(xs)| > 0 && StartsExpr(ArgsText(xs)[0]) && !IsAlpha(ArgsText(xs)[0])
  {
    RenderHead(xs[0], st);
    JoinLed(RenderArgs(xs), " ");
    RenderArgsAt(xs, 0);
    assert ArgsText(xs)[0] == RenderArg(xs[0])[0];
  }

  /** Every well-formed expression is read back from its rendering,
      whatever follows it, as long as what follows cannot continue it. */
  lemma {:induction false} ExprRender(e: ExprU, st: IdentStyle, t: string)
    requires WellFormed(e, st)
    requires if e.FnU? then Closes(t) else Separates(t)
    ensures Expr(Render(e) + t, st) == Done(e, t)
    decreases e, 4
  {
    match e
    case NatU(n) =>
      assert Render(e) == DecimalString(n);
      NatExact(n, t);
      ExprByNat(Render(e) + t, st);
    case StringU(x) =>
      assert Render(e) + t == "\"" + x + "\"" + t;
      StrExact(x, t);
      StrNotKeyword(x, t);
      ExprByStr(Render(e) + t, st);
    case KeywordU(name, id) =>
      assert Render(e) + t == "\"" + name + "\"" + "/" + "\"" + id + "\"" + t;
      KeywordExact(name, id, t);
      ExprByKeyword(Render(e) + t, st);
    case ListU(xs) =>
      ListRender(e, st, t);
      ExprByList(Render(e) + t, st);
    case FnU(name, args) =>
      FuncRender(e, st, t);
      ExprByFunc(Render(e) + t, st);
  }

  /** The same in argument position. */
  lemma {:induction false} ExprRenderArg(e: ExprU, st: IdentStyle, t: string)
    requires WellFormed(e, st) && Separates(t)
    ensures Expr(RenderArg(e) + t, st) == Done(e, t)
    decreases e, 5
  {
    if e.FnU? {
      ExprRender(e, st, ")" + t);
      ParensExact(Render(e), e, st, t);
      assert RenderArg(e) + t == "(" + Render(e) + ")" + t;
      ExprByParens(RenderArg(e) + t, st);
    } else {
      ExprRender(e, st, t);
    }
  }

  /** A list item followed by a comma, a closing bracket or the end. */
  lemma {:induction false} ItemElem(x: ExprU, st: IdentStyle, rest: string)
    requires WellFormed(x, st) && Closes(rest)
    ensures ListElem(Render(x) + rest, st) == Done(x, rest)
    decreases x, 5
  {
    RenderHead(x, st);
    ExprRender(x, st, rest);
    ListElemExact(Render(x), x, st, rest);
  }

  lemma {:induction false} ListRender(e: ExprU, st: IdentStyle, t: string)
    requires e.ListU? && WellFormed(e, st)
    ensures List(Render(e) + t, st) == Done(e, t)
    decreases e, 3
  {
    ListBodyRender(e, st, t);
    ListExact(ItemsText(e.items), e.items, st, t);
    assert Render(e) + t == "[" + ItemsText(e.items) + "]" + t;
  }

  lemma {:induction false} ListBodyRender(e: ExprU, st: IdentStyle, t: string)
    requires e.ListU? && WellFormed(e, st)
    ensures ListBody(ItemsText(e.items) + ("]" + t), st) == Done(e.items, "]" + t)
    decreases e, 2
  {
    var xs := e.items;
    if |xs| == 0 {
      assert ItemsText(xs) + ("]" + t) == "]" + t;
      ListBodyEmpty("]" + t, st);
    } else {
      var R := RenderEach(xs);
      var s1 := ItemsText(xs) + ("]" + t);
      JoinLed(R, ",");
      var rest1 := Led(R[1..], ",") + ("]" + t);
      RenderEachAt(xs, 0);
      assert s1 == R[0] + rest1;
      ItemElem(xs[0], st, rest1);
      ItemsSteps(e, st, t, s1, 1);
      ListBodyLed(s1, st, xs, R, "]" + t);
    }
  }

  /** Every later round of the list loop reads the next item. */
  lemma {:induction false} ItemsSteps(e: ExprU, st: IdentStyle, t: string, s1: string, k: nat)
    requires e.ListU? && WellFormed(e, st) && 1 <= k <= |e.items|
    requires |Led(RenderEach(e.items)[k..], ",") + ("]" + t)| <= |s1|
    ensures LedSteps(ListSep, ListElemP(s1, st), e.items[k..], RenderEach(e.items)[k..], ",", "]" + t)
    decreases e, 1, |e.items| - k
  {
    var xs := e.items;
    var R := RenderEach(xs);
    if k < |xs| {
      var rest := Led(R[k + 1..], ",") + ("]" + t);
      LedSuffix(R, ",", k);
      RenderEachAt(xs, k);
      RenderHead(xs[k], st);
      ItemElem(xs[k], st, rest);
      ListStep(s1, st, xs[k], R[k], rest);
      ItemsSteps(e, st, t, s1, k + 1);
      LedStepsFrom(ListSep, ListElemP(s1, st), xs, R, ",", "]" + t, k);
    }
  }

  lemma {:induction false} FuncRender(e: ExprU, st: IdentStyle, t: string)
    requires e.FnU? && WellFormed(e, st) && Closes(t)
    ensures Func(Render(e) + t, st) == Done(e, t)
    decreases e, 3
  {
    var s := Render(e) + t;
    var u := ArgsText(e.args) + t;
    assert s == e.fname + " " + u;
    if |e.args| > 0 {
      ArgsTextHead(e.args, st);
    }
    FuncNameExact(e.fname, st, u);
    ArgsRender(e, st, t, s);
    FuncFrom(s, st, e.fname, u, e.args, t);
  }

  lemma {:induction false} ArgsRender(e: ExprU, st: IdentStyle, t: string, s: string)
    requires e.FnU? && WellFormed(e, st) && Closes(t)
    requires |ArgsText(e.args) + t| < |s|
    ensures SepBy0(LineSpace1, ExprP(s, st), ArgsText(e.args) + t, WellFormedIn(st)) == Done(e.args, t)
    decreases e, 2
  {
    var args := e.args;
    if |args| == 0 {
      assert ArgsText(args) + t == t;
      ArgsEmpty(s, st, t);
    } else {
      var A := RenderArgs(args);
      JoinLed(A, " ");
      var rest1 := Led(A[1..], " ") + t;
      RenderArgsAt(args, 0);
      assert ArgsText(args) + t == A[0] + rest1;
      ExprRenderArg(args[0], st, rest1);
      ArgsSteps(e, st, t, s, 1);
      ArgsLed(s, st, args, A, t);
    }
  }

  /** Every later round of the argument loop reads the next argument. */
  lemma {:induction false} ArgsSteps(e: ExprU, st: IdentStyle, t: string, s: string, k: nat)
    requires e.FnU? && WellFormed(e, st) && Closes(t) && 1 <= k <= |e.args|
    requires |Led(RenderArgs(e.args)[k..], " ") + t| < |s|
    ensures LedSteps(LineSpace1, ExprP(s, st), e.args[k..], RenderArgs(e.args)[k..], " ", t)
    decreases e, 1, |e.args| - k
  {
    var args := e.args;
    var A := RenderArgs(args);
    if k < |args| {
      var rest := Led(A[k + 1..], " ") + t;
      LedSuffix(A, " ", k);
      RenderArgsAt(args, k);
      RenderHead(args[k], st);
      ExprRenderArg(args[k], st, rest);
      var p := RenderArg(args[k]);
      assert A[k] == p;
      StartsExprNotSpace(p[0]);
      ArgStep(s, st, args[k], p, rest);
      ArgsSteps(e, st, t, s, k + 1);
      LedStepsFrom(LineSpace1, ExprP(s, st), args, A, " ", t, k);
    }
  }

  /** Printing a well-formed application and parsing it gives it back. */
  lemma ParseRender(e: ExprU)
    requires e.FnU? && WellFormed(e, LettersAndHyphens)
    ensures Parse(Render(e)) == Success(e)
  {
    ExprRender(e, LettersAndHyphens, "");
    assert Render(e) + "" == Render(e);
  }

  /** The same for the corrected parser, whose identifiers may contain `_`. */
  lemma ParseStrictRender(e: ExprU)
    requires e.FnU? && WellFormed(e, WithUnderscores)
    ensures ParseStrict(Render(e)) == Success(e)
  {
    ExprRender(e, WithUnderscores, "");
    assert Render(e) + "" == Render(e);
  }

  /** As written, `parse` accepts a schema followed by stray closing
      characters and silently drops them. */
  lemma ParseIgnoresTrailing(e: ExprU, t: string)
    requires e.FnU? && WellFormed(e, LettersAndHyphens) && Closes(t)
    ensures Parse(Render(e) + t) == Success(e)
  {
    ExprRender(e, LettersAndHyphens, t);
  }

  /** The corrected parser reports the stray text instead. */
  lemma ParseStrictRejectsTrailing(e: ExprU, t: string)
    requires e.FnU? && WellFormed(e, WithUnderscores) && Closes(t) && t != ""
    ensures ParseStrict(Render(e) + t) == Failure(UnexpectedInput(t))
  {
    ExprRender(e, WithUnderscores, t);
  }
}
