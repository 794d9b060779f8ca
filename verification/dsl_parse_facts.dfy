/** How the schema-language grammar behaves on input of a known shape:
    which alternative of `expr` applies, and what each construct reads when
    its pieces are known to read exactly their own text. These are stated
    over plain strings, so the printer's round trip can be assembled from
    them one construct at a time. */
module DslParseFacts {
  import opened Strings
  import opened DslSyntax
  import opened DslParse

  // ---------------------------------------------------------------------
  // Which alternative of `expr` applies

  /** Each alternative of `expr` is recognised by its first character. */
  lemma FirstChars(s: string, st: IdentStyle)
    ensures Parens(s, st).Done? ==> s[0] == '('
    ensures List(s, st).Done? ==> s[0] == '['
    ensures Func(s, st).Done? ==> IsAlpha(s[0])
    ensures Nat(s).Done? ==> IsDigit(s[0])
    ensures Str(s).Done? ==> s[0] == '"'
    ensures KeywordLit(s).Done? ==> s[0] == '"'
  {
  }

  lemma ExprByParens(s: string, st: IdentStyle)
    requires Parens(s, st).Done?
    ensures Expr(s, st) == Parens(s, st)
  {
  }

  /** A list is tried only after a parenthesis, which cannot start with `[`. */
  lemma ExprByList(s: string, st: IdentStyle)
    requires List(s, st).Done?
    ensures Expr(s, st) == List(s, st)
  {
    FirstChars(s, st);
  }

  /** A function application starts with a letter, so neither earlier alternative applies. */
  lemma ExprByFunc(s: string, st: IdentStyle)
    requires Func(s, st).Done?
    ensures Expr(s, st) == Func(s, st)
  {
    FirstChars(s, st);
  }

  lemma ExprByNat(s: string, st: IdentStyle)
    requires Nat(s).Done?
    ensures Expr(s, st) == Done(NatU(Nat(s).value), Nat(s).rest)
  {
    FirstChars(s, st);
  }

  lemma ExprByKeyword(s: string, st: IdentStyle)
    requires KeywordLit(s).Done?
    ensures Expr(s, st) == KeywordLit(s)
  {
    FirstChars(s, st);
  }

  /** A plain string is the last alternative: only when the keyword form fails. */
  lemma ExprByStr(s: string, st: IdentStyle)
    requires Str(s).Done? && KeywordLit(s).Fail?
    ensures Expr(s, st) == Done(StringU(Str(s).value), Str(s).rest)
  {
    FirstChars(s, st);
  }

  // ---------------------------------------------------------------------
  // Literals

  lemma KeywordExact(name: string, id: string, t: string)
    requires QuoteFree(name) && QuoteFree(id)
    ensures KeywordLit("\"" + name + "\"" + "/" + "\"" + id + "\"" + t) == Done(KeywordU(name, id), t)
  {
    var after := "/" + "\"" + id + "\"" + t;
    assert "\"" + name + "\"" + "/" + "\"" + id + "\"" + t == "\"" + name + "\"" + after;
    StrExact(name, after);
    assert after[1..] == "\"" + id + "\"" + t;
    assert Tag("/", after) == Done("/", after[1..]);
    StrExact(id, t);
  }

  /** A quoted string not followed by `/` is not a keyword. */
  lemma StrNotKeyword(x: string, t: string)
    requires QuoteFree(x) && (|t| == 0 || t[0] != '/')
    ensures KeywordLit("\"" + x + "\"" + t).Fail?
  {
    StrExact(x, t);
    assert Tag("/", t).Fail?;
  }

  // ---------------------------------------------------------------------
  // Compound forms

  lemma ListElemExact(w: string, x: ExprU, st: IdentStyle, rest: string)
    requires |w| > 0 && !IsLineSpace(w[0]) && Expr(w + rest, st) == Done(x, rest)
    requires |rest| == 0 || !IsLineSpace(rest[0])
    ensures ListElem(w + rest, st) == Done(x, rest)
  {
    LineSpace0None(w + rest);
    LineSpace0None(rest);
  }

  lemma ParensFrom(s: string, x: ExprU, st: IdentStyle, t: string)
    requires |s| > 0 && s[0] == '(' && Expr(s[1..], st) == Done(x, ")" + t)
    ensures Parens(s, st) == Done(x, t)
  {
    ExprPApply(s, st, s[1..]);
    assert (")" + t)[1..] == t;
  }

  lemma ParensExact(w: string, x: ExprU, st: IdentStyle, t: string)
    requires Expr(w + (")" + t), st) == Done(x, ")" + t)
    ensures Parens("(" + w + ")" + t, st) == Done(x, t)
  {
    var s := "(" + w + ")" + t;
    assert s[1..] == w + (")" + t);
    ParensFrom(s, x, st, t);
  }

  lemma ListFrom(s: string, xs: seq<ExprU>, st: IdentStyle, t: string)
    requires |s| > 0 && s[0] == '[' && ListBody(s[1..], st) == Done(xs, "]" + t)
    ensures List(s, st) == Done(ListU(xs), t)
  {
    ListBodyPApply(s, st, s[1..]);
    assert ("]" + t)[1..] == t;
  }

  lemma ListExact(w: string, xs: seq<ExprU>, st: IdentStyle, t: string)
    requires ListBody(w + ("]" + t), st) == Done(xs, "]" + t)
    ensures List("[" + w + "]" + t, st) == Done(ListU(xs), t)
  {
    var s := "[" + w + "]" + t;
    AppendAssoc("[" + w, "]", t);
    AppendAssoc("[", w, "]" + t);
    RestAfter("[", w + ("]" + t));
    ListFrom(s, xs, st, t);
  }

  /** Nothing but the closing bracket: the empty list body. */
  lemma ListBodyEmpty(t: string, st: IdentStyle)
    requires |t| > 0 && t[0] == ']'
    ensures ListBody(t, st) == Done([], t)
  {
    ListElemPApply(t, st, t);
    ExprClosed(t, st);
    LineSpace0None(t);
  }

  /** The list separator, a comma with no surrounding white space, in front of an item. */
  lemma ListSepOne(x: string)
    requires |x| == 0 || !IsLineSpace(x[0])
    ensures ListSep("," + x) == Done(",", x)
  {
    LineSpace0None("," + x);
    assert ("," + x)[1..] == x;
    LineSpace0None(x);
  }

  /** A comma, then an item that reads `v` from `p`, is one round of the list loop. */
  lemma ListStep(s1: string, st: IdentStyle, v: ExprU, p: string, rest: string)
    requires |p| > 0 && !IsLineSpace(p[0]) && |p + rest| <= |s1|
    requires ListElem(p + rest, st) == Done(v, rest)
    ensures LedStep(ListSep, ListElemP(s1, st), v, ",", p, rest)
  {
    ListSepOne(p + rest);
    assert "," + p + rest == "," + (p + rest);
    ListElemPApply(s1, st, p + rest);
  }

  /** Items separated by single commas and followed by `]` are read one by one. */
  lemma ListBodyLed(s1: string, st: IdentStyle, xs: seq<ExprU>, ps: seq<string>, t: string)
    requires |xs| == |ps| > 0 && |t| > 0 && t[0] == ']'
    requires s1 == ps[0] + Led(ps[1..], ",") + t
    requires ListElem(s1, st) == Done(xs[0], Led(ps[1..], ",") + t)
    requires LedSteps(ListSep, ListElemP(s1, st), xs[1..], ps[1..], ",", t)
    ensures ListBody(s1, st) == Done(xs, t)
  {
    var elem := ListElemP(s1, st);
    ListSepShrinks();
    ListElemPApply(s1, st, s1);
    assert elem(s1) == Done(xs[0], Led(ps[1..], ",") + t);
    LineSpace0None(t);
    assert ListSep(t) == Fail;
    SepByLed(ListSep, elem, WellFormedIn(st), s1, xs, ps[1..], ",", t);
    assert SepBy1(ListSep, elem, s1, WellFormedIn(st)) == Done(xs, t);
  }

  /** One space, then an argument that reads `v` from `p`, is one round of the argument loop. */
  lemma ArgStep(s: string, st: IdentStyle, v: ExprU, p: string, rest: string)
    requires |p| > 0 && !IsLineSpace(p[0]) && |p + rest| < |s|
    requires Expr(p + rest, st) == Done(v, rest)
    ensures LedStep(LineSpace1, ExprP(s, st), v, " ", p, rest)
  {
    LineSpace1One(p + rest);
    assert " " + p + rest == " " + (p + rest);
    ExprPApply(s, st, p + rest);
  }

  /** No arguments: the argument list reads nothing when a closing character follows. */
  lemma ArgsEmpty(s: string, st: IdentStyle, t: string)
    requires Closes(t) && |t| < |s|
    ensures SepBy0(LineSpace1, ExprP(s, st), t, WellFormedIn(st)) == Done([], t)
  {
    LineSpace1Shrinks();
    ExprPApply(s, st, t);
    ExprClosed(t, st);
  }

  /** Arguments separated by single spaces and followed by a closing character are read one by one. */
  lemma ArgsLed(s: string, st: IdentStyle, args: seq<ExprU>, ps: seq<string>, t: string)
    requires |args| == |ps| > 0 && Closes(t)
    requires |ps[0] + Led(ps[1..], " ") + t| < |s|
    requires Expr(ps[0] + Led(ps[1..], " ") + t, st) == Done(args[0], Led(ps[1..], " ") + t)
    requires LedSteps(LineSpace1, ExprP(s, st), args[1..], ps[1..], " ", t)
    ensures SepBy0(LineSpace1, ExprP(s, st), ps[0] + Led(ps[1..], " ") + t, WellFormedIn(st)) == Done(args, t)
  {
    var u := ps[0] + Led(ps[1..], " ") + t;
    var rest := Led(ps[1..], " ") + t;
    var arg := ExprP(s, st);
    LineSpace1Shrinks();
    ExprPApply(s, st, u);
    assert arg(u) == Done(args[0], rest);
    assert LineSpace1(t) == Fail;
    SepByLed(LineSpace1, arg, WellFormedIn(st), u, args, ps[1..], " ", t);
  }

  /** An identifier followed by one space, then something that is not more
      white space, is the function name with its terminator. */
  lemma FuncNameExact(name: string, st: IdentStyle, u: string)
    requires IsIdentifier(name, st)
    requires |u| == 0 || (!IsSpace(u[0]) && !IsNewline(u[0]))
    ensures LexemeVertAllowed(IdentifierP(st), name + " " + u) == Done(name, u)
  {
    assert name + " " + u == name + (" " + u);
    IdentifierExact(name, st, " " + u);
    VertAfterSpace(u);
  }

  /** `func` is its name with terminator, then the argument loop. */
  lemma FuncFrom(s: string, st: IdentStyle, name: string, u: string, args: seq<ExprU>, t: string)
    requires LexemeVertAllowed(IdentifierP(st), s) == Done(name, u)
    requires SepBy0(LineSpace1, ExprP(s, st), u, WellFormedIn(st)) == Done(args, t)
    ensures Func(s, st) == Done(FnU(name, args), t)
  {
    LineSpace1Shrinks();
  }
}
