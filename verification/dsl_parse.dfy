/** The schema-language parser (`src/schema/parse.rs`): nom-style parser
    combinators over `string`, and the recursive-descent grammar built from
    them. A parser takes the remaining input and either fails or returns a
    value together with the input it did not consume. */
module DslParse {
  import opened Wrappers
  import opened Strings
  import opened DslSyntax

  datatype PResult<+T> = Done(value: T, rest: string) | Fail

  /** `r` is what is left of `s` after a prefix was consumed. */
  predicate SuffixOf(r: string, s: string) {
    |r| <= |s| && r == s[|s| - |r|..]
  }

  /** `p` never returns more input than it was given. */
  ghost predicate Shrinks<T>(p: string -> PResult<T>) {
    forall x: string :: p(x).Done? ==> |p(x).rest| <= |x|
  }

  /** Every value `p` returns satisfies `ok`. */
  ghost predicate Yields<T>(p: string -> PResult<T>, ok: T -> bool) {
    forall x: string :: p(x).Done? ==> ok(p(x).value)
  }

  // ---------------------------------------------------------------------
  // Character classes

  /** nom's `alpha1` accepts ASCII letters only. */
  predicate IsAlpha(c: char) {
    'a' <= c <= 'z' || 'A' <= c <= 'Z'
  }

  /** `space0` / `space1` */
  predicate IsSpace(c: char) {
    c == ' ' || c == '\t'
  }

  /** The characters `line_space0` / `line_space1` skip. */
  predicate IsLineSpace(c: char) {
    c == ' ' || c == '\t' || c == '\n'
  }

  predicate IsNewline(c: char) {
    c == '\n'
  }

  predicate NotQuote(c: char) {
    c != '"'
  }

  predicate QuoteFree(w: string) {
    '"' !in w
  }

  /** Which characters may follow the leading letter of an identifier.
      `LettersAndHyphens` is the grammar as written; `WithUnderscores`
      also admits `_`, which the typechecker's `at_least` and `at_most`
      need. */
  datatype IdentStyle = LettersAndHyphens | WithUnderscores

  predicate IsIdentTail(c: char, st: IdentStyle) {
    IsAlpha(c) || c == '-' || (st == WithUnderscores && c == '_')
  }

  function IdentTailIn(st: IdentStyle): char -> bool {
    c => IsIdentTail(c, st)
  }

  predicate IsIdentifier(w: string, st: IdentStyle) {
    |w| > 0 && IsAlpha(w[0]) && forall i | 1 <= i < |w| :: IsIdentTail(w[i], st)
  }

  /** The end of the longest run of characters satisfying `p` that starts at index `i`. */
  function SpanFrom(s: string, p: char -> bool, i: nat): (n: nat)
    requires i <= |s|
    ensures i <= n <= |s|
    decreases |s| - i
  {
    if i < |s| && p(s[i]) then SpanFrom(s, p, i + 1) else i
  }

  /** The length of the longest prefix of `s` whose characters all satisfy `p`. */
  function Span(s: string, p: char -> bool): (n: nat)
    ensures n <= |s|
  {
    SpanFrom(s, p, 0)
  }

  /** `SpanFrom` stops at the first character from `i` on that fails `p`. */
  lemma {:induction false} SpanFromMaximal(s: string, p: char -> bool, i: nat)
    requires i <= |s|
    ensures forall k | i <= k < SpanFrom(s, p, i) :: p(s[k])
    ensures SpanFrom(s, p, i) < |s| ==> !p(s[SpanFrom(s, p, i)])
    decreases |s| - i
  {
    if i < |s| && p(s[i]) {
      SpanFromMaximal(s, p, i + 1);
    }
  }

  /** `Span` measures a run of `p` characters that cannot be extended. */
  lemma SpanMaximal(s: string, p: char -> bool)
    ensures forall i | 0 <= i < Span(s, p) :: p(s[i])
    ensures Span(s, p) < |s| ==> !p(s[Span(s, p)])
  {
    SpanFromMaximal(s, p, 0);
  }

  /** Conversely, a run from `i` that ends at `n` with a failing character
      (or the end) is the one `SpanFrom` finds. */
  lemma {:induction false} SpanFromAt(s: string, p: char -> bool, i: nat, n: nat)
    requires i <= n <= |s| && (forall k | i <= k < n :: p(s[k])) && (n < |s| ==> !p(s[n]))
    ensures SpanFrom(s, p, i) == n
    decreases n - i
  {
    if i < n {
      SpanFromAt(s, p, i + 1, n);
    }
  }

  lemma SpanAt(s: string, p: char -> bool, n: nat)
    requires n <= |s| && (forall i | 0 <= i < n :: p(s[i])) && (n < |s| ==> !p(s[n]))
    ensures Span(s, p) == n
  {
    SpanFromAt(s, p, 0, n);
  }

  // ---------------------------------------------------------------------
  // Primitive parsers

  /** `s` without its first `n` characters, taken off one at a time. The
      parsers return what they leave through this function rather than a
      slice, which keeps the solver from composing slices of slices. */
  function Skip(s: string, n: nat): (r: string)
    requires n <= |s|
    ensures |r| == |s| - n
    decreases n
  {
    if n == 0 then s else Skip(s[1..], n - 1)
  }

  lemma {:induction false} SkipIsSuffix(s: string, n: nat)
    requires n <= |s|
    ensures Skip(s, n) == s[n..]
    decreases n
  {
    if n > 0 {
      SkipIsSuffix(s[1..], n - 1);
      assert s[1..][n - 1..] == s[n..];
    }
  }

  function Char(c: char, s: string): PResult<char> {
    if |s| > 0 && s[0] == c then Done(c, s[1..]) else Fail
  }

  function Tag(t: string, s: string): PResult<string> {
    if t <= s then Done(t, s[|t|..]) else Fail
  }

  function Eof(s: string): PResult<string> {
    if |s| == 0 then Done("", s) else Fail
  }

  /** `space0`: the longest run of spaces and tabs, possibly empty. */
  function Space0(s: string): PResult<string> {
    var n := Span(s, IsSpace);
    Done(s[..n], Skip(s, n))
  }

  /** `space1`: a non-empty run of spaces and tabs. */
  function Space1(s: string): PResult<string> {
    var n := Span(s, IsSpace);
    if n == 0 then Fail else Done(s[..n], Skip(s, n))
  }

  /** `many1(newline)` */
  function Newlines1(s: string): PResult<string> {
    var n := Span(s, IsNewline);
    if n == 0 then Fail else Done(s[..n], Skip(s, n))
  }

  /** `line_space0`: skips every leading space, tab and newline; never fails. */
  function LineSpace0(s: string): (r: PResult<string>)
    ensures r.Done? && |r.rest| <= |s|
  {
    Done("", Skip(s, Span(s, IsLineSpace)))
  }

  /** What `line_space0` leaves is a suffix of its input; everything it
      skipped is white space, and what it leaves does not start with any. */
  lemma LineSpace0Skips(s: string)
    ensures SuffixOf(LineSpace0(s).rest, s)
    ensures forall i | 0 <= i < |s| - |LineSpace0(s).rest| :: IsLineSpace(s[i])
    ensures |LineSpace0(s).rest| > 0 ==> !IsLineSpace(LineSpace0(s).rest[0])
  {
    SpanMaximal(s, IsLineSpace);
    SkipIsSuffix(s, Span(s, IsLineSpace));
  }

  /** `line_space1`: as `line_space0`, but at least one character must be skipped. */
  function LineSpace1(s: string): (r: PResult<string>)
    ensures r.Done? <==> |s| > 0 && IsLineSpace(s[0])
    ensures r.Done? ==> r == LineSpace0(s)
  {
    var n := Span(s, IsLineSpace);
    if n == 0 then Fail else Done("", Skip(s, n))
  }

  /** `indent`: two spaces or one tab. */
  function Indent(s: string): PResult<string> {
    if "  " <= s then Done("", s[2..])
    else if "\t" <= s then Done("", s[1..])
    else Fail
  }

  /** `indent` succeeds exactly on two spaces or a tab, and consumes just that. */
  lemma IndentMeans(s: string)
    ensures Indent(s).Done? <==> "  " <= s || "\t" <= s
    ensures Indent(s).Done? ==> s == "  " + Indent(s).rest || s == "\t" + Indent(s).rest
  {
    if "  " <= s {
      assert s == s[..2] + s[2..];
    } else if "\t" <= s {
      assert s == s[..1] + s[1..];
    }
  }

  /** `identifier`: one ASCII letter, then letters or `-` (or also `_` in
      the `WithUnderscores` style); the longest such prefix is taken. */
  function Identifier(s: string, st: IdentStyle): (r: PResult<string>)
    ensures r.Done? <==> |s| > 0 && IsAlpha(s[0])
    ensures r.Done? ==> |r.rest| < |s|
  {
    if |s| > 0 && IsAlpha(s[0]) then
      var n := SpanFrom(s, IdentTailIn(st), 1);
      Done(s[..n], Skip(s, n))
    else Fail
  }

  /** `identifier` reads the longest identifier at the front of its input. */
  lemma IdentifierReads(s: string, st: IdentStyle)
    requires Identifier(s, st).Done?
    ensures s == Identifier(s, st).value + Identifier(s, st).rest
    ensures IsIdentifier(Identifier(s, st).value, st)
    ensures |Identifier(s, st).rest| > 0 ==> !IsIdentTail(Identifier(s, st).rest[0], st)
  {
    var n := SpanFrom(s, IdentTailIn(st), 1);
    SpanFromMaximal(s, IdentTailIn(st), 1);
    SkipIsSuffix(s, n);
    assert s[..n] + s[n..] == s;
    assert forall i | 1 <= i < n :: s[..n][i] == s[i];
  }

  /** `identifier` as a parser value. */
  function IdentifierP(st: IdentStyle): (p: string -> PResult<string>)
    ensures forall x :: p(x) == Identifier(x, st)
  {
    x => Identifier(x, st)
  }

  /** `nat`: nom's `u8` reads every leading decimal digit and fails if
      there is none or if the value does not fit in a `u8`. */
  function Nat(s: string): (r: PResult<U8>)
    ensures r.Done? ==> |r.rest| < |s|
    ensures |s| == 0 || !IsDigit(s[0]) ==> r.Fail?
  {
    var n := Span(s, IsDigit);
    if n == 0 then Fail
    else
      SpanMaximal(s, IsDigit);
      assert forall i | 0 <= i < n :: s[..n][i] == s[i];
      var v := DecimalValue(s[..n]);
      if v < 256 then Done(v, Skip(s, n)) else Fail
  }

  /** `nat` succeeds exactly when the maximal run of digits at the front is
      non-empty and its value is below 256; it consumes that run. */
  lemma NatReads(s: string)
    ensures var k := Span(s, IsDigit);
            AllDigits(s[..k])
            && (Nat(s).Done? <==> k > 0 && DecimalValue(s[..k]) < 256)
            && (Nat(s).Done? ==> Nat(s) == Done(DecimalValue(s[..k]), s[k..]))
            && (k < |s| ==> !IsDigit(s[k]))
  {
    SpanMaximal(s, IsDigit);
    var k := Span(s, IsDigit);
    SkipIsSuffix(s, k);
    forall i | 0 <= i < k
      ensures IsDigit(s[..k][i])
    {
      assert s[..k][i] == s[i];
    }
  }

  /** `take_till(|x| x == '"')`: everything up to the next double quote. */
  function TakeTillQuote(s: string): (r: PResult<string>)
    ensures r.Done? && |r.rest| <= |s|
    ensures QuoteFree(r.value)
  {
    var n := Span(s, NotQuote);
    SpanMaximal(s, NotQuote);
    assert forall i | 0 <= i < n :: s[..n][i] == s[i];
    Done(s[..n], Skip(s, n))
  }

  // ---------------------------------------------------------------------
  // Combinators

  /** `between(l, r, inner)`: `l`, then `inner`, then `r`. */
  function Between<T>(l: char, r: char, inner: string -> PResult<T>, s: string): (res: PResult<T>)
    ensures res.Done? ==> (|s| > 0 && s[0] == l && inner(s[1..]).Done?
                        && res.value == inner(s[1..]).value
                        && inner(s[1..]).rest == [r] + res.rest)
  {
    if |s| > 0 && s[0] == l then
      match inner(s[1..])
      case Done(v, rest) =>
        if |rest| > 0 && rest[0] == r then
          assert rest == [r] + rest[1..];
          Done(v, rest[1..])
        else Fail
      case Fail => Fail
    else Fail
  }

  /** `sep_by1(sep, value)`: one value, then as many `sep value` pairs as
      match. A separator not followed by a value is left unconsumed. */
  function SepBy1<S, T>(sep: string -> PResult<S>, value: string -> PResult<T>, s: string, ghost ok: T -> bool): (r: PResult<seq<T>>)
    requires Shrinks(sep) && Shrinks(value) && Yields(value, ok)
    ensures r.Done? ==> (|r.value| > 0 && |r.rest| <= |s|
                      && forall i | 0 <= i < |r.value| :: ok(r.value[i]))
    ensures r.Done? ==> value(s).Done? && r.value[0] == value(s).value
  {
    match value(s)
    case Fail => Fail
    case Done(x, i) => SepLoop(sep, value, [x], i, ok)
  }

  /** The loop of `sep_by1` after the first value: `acc` holds the values so far. */
  function SepLoop<S, T>(sep: string -> PResult<S>, value: string -> PResult<T>, acc: seq<T>, i: string, ghost ok: T -> bool): (r: PResult<seq<T>>)
    requires Shrinks(sep) && Shrinks(value) && Yields(value, ok)
    ensures r.Done? ==> (|r.value| >= |acc| && r.value[..|acc|] == acc && |r.rest| <= |i|
                      && forall k | |acc| <= k < |r.value| :: ok(r.value[k]))
    ensures sep(i).Fail? || value(sep(i).rest).Fail? ==> r == Done(acc, i)
    ensures sep(i).Done? && value(sep(i).rest).Done? && |value(sep(i).rest).rest| == |i| ==> r == Fail
    decreases |i|
  {
    match sep(i)
    case Fail => Done(acc, i)
    case Done(_, i2) =>
      match value(i2)
      case Fail => Done(acc, i)
      case Done(x, i3) =>
        // the value must consume input, otherwise the loop would never end
        if |i3| == |i| then Fail
        else
          var r := SepLoop(sep, value, acc + [x], i3, ok);
          assert r.Done? ==> r.value[..|acc|] == (acc + [x])[..|acc|];
          r
  }

  /** `sep_by0(sep, value)`: `sep_by1`, or no values at all. */
  function SepBy0<S, T>(sep: string -> PResult<S>, value: string -> PResult<T>, s: string, ghost ok: T -> bool): (r: PResult<seq<T>>)
    requires Shrinks(sep) && Shrinks(value) && Yields(value, ok)
    ensures r.Done? && |r.rest| <= |s| && forall i | 0 <= i < |r.value| :: ok(r.value[i])
    ensures |r.value| == 0 <==> r.rest == s && SepBy1(sep, value, s, ok).Fail?
  {
    match SepBy1(sep, value, s, ok)
    case Done(xs, rest) => Done(xs, rest)
    case Fail => Done([], s)
  }

  /** What `lexeme_vert_allowed` accepts after its inner parser: spaces,
      one or more newlines and an indent; or spaces and tabs; or the end
      of the input. */
  function VertTerminator(s: string): (r: PResult<string>)
    ensures r.Done? ==> |r.rest| <= |s|
  {
    var indented :=
      match Newlines1(Space0(s).rest)
      case Done(_, afterNewlines) => Indent(afterNewlines)
      case Fail => Fail;
    if indented.Done? then indented
    else
      match Space1(s)
      case Done(spaces, rest) => Done(spaces, rest)
      case Fail => Eof(s)
  }

  /** `lexeme_vert_allowed(inner)`: `inner`, which must be followed by a
      `VertTerminator`, which is consumed too. */
  function LexemeVertAllowed<T>(inner: string -> PResult<T>, s: string): (r: PResult<T>)
    ensures r.Done? ==> inner(s).Done? && r.value == inner(s).value && |r.rest| <= |inner(s).rest|
  {
    match inner(s)
    case Fail => Fail
    case Done(v, rest) =>
      match VertTerminator(rest)
      case Fail => Fail
      case Done(_, rest2) => Done(v, rest2)
  }

  /** `delimited(line_space0, tag(","), line_space0)`: the list separator. */
  function ListSep(s: string): (r: PResult<string>)
    ensures r.Done? ==> |r.rest| < |s|
  {
    match Tag(",", LineSpace0(s).rest)
    case Fail => Fail
    case Done(comma, rest) => Done(comma, LineSpace0(rest).rest)
  }

  // ---------------------------------------------------------------------
  // The grammar

  /** The shape of every tree the grammar produces: function names are
      identifiers and string payloads contain no double quote. */
  predicate WellFormed(e: ExprU, st: IdentStyle) {
    match e
    case KeywordU(name, id) => QuoteFree(name) && QuoteFree(id)
    case StringU(x) => QuoteFree(x)
    case NatU(_) => true
    case FnU(name, args) => IsIdentifier(name, st) && forall i | 0 <= i < |args| :: WellFormed(args[i], st)
    case ListU(xs) => forall i | 0 <= i < |xs| :: WellFormed(xs[i], st)
  }

  ghost function WellFormedIn(st: IdentStyle): ExprU -> bool {
    e => WellFormed(e, st)
  }

  ghost function AllWellFormedIn(st: IdentStyle): seq<ExprU> -> bool {
    xs => forall i | 0 <= i < |xs| :: WellFormed(xs[i], st)
  }

  lemma WellFormedInMeans(st: IdentStyle, xs: seq<ExprU>)
    ensures (forall i | 0 <= i < |xs| :: WellFormedIn(st)(xs[i])) ==> (forall i | 0 <= i < |xs| :: WellFormed(xs[i], st))
  {
  }

  lemma AllWellFormedInMeans(st: IdentStyle, xs: seq<ExprU>)
    ensures AllWellFormedIn(st)(xs) ==> WellFormed(ListU(xs), st)
  {
  }

  lemma ListSepShrinks()
    ensures Shrinks(ListSep)
  {
  }

  lemma LineSpace1Shrinks()
    ensures Shrinks(LineSpace1)
  {
  }

  /** `string`: a double-quoted run of characters with no escapes. */
  function Str(s: string): (r: PResult<string>)
    ensures r.Done? ==> |r.rest| < |s| && QuoteFree(r.value)
  {
    Between('"', '"', TakeTillQuote, s)
  }

  /** `keyword`: a display string, `/`, and an id string, with nothing between. */
  function KeywordLit(s: string): (r: PResult<ExprU>)
    ensures r.Done? ==> (|r.rest| < |s| && r.value.KeywordU?
                      && QuoteFree(r.value.name) && QuoteFree(r.value.id))
  {
    match Str(s)
    case Fail => Fail
    case Done(name, r1) =>
      match Tag("/", r1)
      case Fail => Fail
      case Done(_, r2) =>
        match Str(r2)
        case Fail => Fail
        case Done(id, r3) => Done(KeywordU(name, id), r3)
  }

  /** `expr`: the alternatives are tried in this order, and the first that
      succeeds wins. */
  function Expr(s: string, st: IdentStyle): (r: PResult<ExprU>)
    ensures r.Done? ==> |r.rest| < |s| && WellFormed(r.value, st)
    decreases |s|, 3
  {
    var p := Parens(s, st);
    if p.Done? then p
    else
      var l := List(s, st);
      if l.Done? then l
      else
        var f := Func(s, st);
        if f.Done? then f
        else
          match Nat(s)
          case Done(n, rest) => Done(NatU(n), rest)
          case Fail =>
            var k := KeywordLit(s);
            if k.Done? then k
            else
              match Str(s)
              case Done(x, rest) => Done(StringU(x), rest)
              case Fail => Fail
  }

  /** `expr` as a parser value, for inputs shorter than `s`. */
  function ExprP(s: string, st: IdentStyle): (p: string -> PResult<ExprU>)
    ensures Shrinks(p) && Yields(p, WellFormedIn(st))
    decreases |s|, 1
  {
    x => if |x| < |s| then Expr(x, st) else Fail
  }

  /** `parens(expr)` */
  function Parens(s: string, st: IdentStyle): (r: PResult<ExprU>)
    ensures r.Done? ==> |r.rest| < |s| && WellFormed(r.value, st)
    decreases |s|, 2
  {
    Between('(', ')', ExprP(s, st), s)
  }

  /** `func`: an identifier, a terminator, then arguments separated by
      runs of spaces, tabs and newlines. */
  function Func(s: string, st: IdentStyle): (r: PResult<ExprU>)
    ensures r.Done? ==> |r.rest| < |s| && WellFormed(r.value, st)
    decreases |s|, 2
  {
    match LexemeVertAllowed(IdentifierP(st), s)
    case Fail => Fail
    case Done(name, u) =>
      IdentifierReads(s, st);
      LineSpace1Shrinks();
      match SepBy0(LineSpace1, ExprP(s, st), u, WellFormedIn(st))
      case Done(args, rest) => Done(FnU(name, args), rest)
      case Fail => Fail
  }

  /** `list`: `[`, elements separated by commas with optional white space
      and newlines around them (or only white space), `]`. */
  function List(s: string, st: IdentStyle): (r: PResult<ExprU>)
    ensures r.Done? ==> |r.rest| < |s| && WellFormed(r.value, st)
    decreases |s|, 2
  {
    match Between('[', ']', ListBodyP(s, st), s)
    case Done(xs, rest) =>
      AllWellFormedInMeans(st, xs);
      Done(ListU(xs), rest)
    case Fail => Fail
  }

  /** The list body as a parser value, for inputs shorter than `s`. */
  function ListBodyP(s: string, st: IdentStyle): (p: string -> PResult<seq<ExprU>>)
    ensures Shrinks(p) && Yields(p, AllWellFormedIn(st))
    decreases |s|, 1
  {
    x => if |x| < |s| then ListBody(x, st) else Fail
  }

  /** What lies between the brackets of a list. */
  function ListBody(s: string, st: IdentStyle): (r: PResult<seq<ExprU>>)
    ensures r.Done? && |r.rest| <= |s| && forall i | 0 <= i < |r.value| :: WellFormed(r.value[i], st)
    decreases |s|, 6
  {
    ListSepShrinks();
    match SepBy1(ListSep, ListElemP(s, st), s, WellFormedIn(st))
    case Done(xs, rest) =>
      WellFormedInMeans(st, xs);
      Done(xs, rest)
    case Fail => Done([], LineSpace0(s).rest)
  }

  /** A list element as a parser value, for inputs no longer than `s`. */
  function ListElemP(s: string, st: IdentStyle): (p: string -> PResult<ExprU>)
    ensures Shrinks(p) && Yields(p, WellFormedIn(st))
    decreases |s|, 5
  {
    x => if |x| <= |s| then ListElem(x, st) else Fail
  }

  /** `delimited(line_space0, expr, line_space0)` */
  function ListElem(s: string, st: IdentStyle): (r: PResult<ExprU>)
    ensures r.Done? ==> |r.rest| < |s| && WellFormed(r.value, st)
    decreases |s|, 4
  {
    match Expr(LineSpace0(s).rest, st)
    case Fail => Fail
    case Done(e, rest) => Done(e, LineSpace0(rest).rest)
  }

  lemma ExprPApply(s: string, st: IdentStyle, x: string)
    requires |x| < |s|
    ensures ExprP(s, st)(x) == Expr(x, st)
  {
  }

  lemma ListBodyPApply(s: string, st: IdentStyle, x: string)
    requires |x| < |s|
    ensures ListBodyP(s, st)(x) == ListBody(x, st)
  {
  }

  lemma ListElemPApply(s: string, st: IdentStyle, x: string)
    requires |x| <= |s|
    ensures ListElemP(s, st)(x) == ListElem(x, st)
  {
  }

  // ---------------------------------------------------------------------
  // Entry points

  /** `parse` as written: the text must begin with a function application;
      whatever follows it is ignored. A failure of the grammar reports
      `UnexpectedInput`. */
  function Parse(s: string): (r: Result<ExprU, SchemaParseError>)
    ensures r.Success? ==> r.value.FnU? && WellFormed(r.value, LettersAndHyphens)
    ensures r.Success? <==> Expr(s, LettersAndHyphens).Done? && Expr(s, LettersAndHyphens).value.FnU?
    ensures r.Failure? && r.error == MustStartWithSchemaConstructor <==>
              Expr(s, LettersAndHyphens).Done? && !Expr(s, LettersAndHyphens).value.FnU?
  {
    match Expr(s, LettersAndHyphens)
    case Done(e, _) => if e.FnU? then Success(e) else Failure(MustStartWithSchemaConstructor)
    case Fail => Failure(UnexpectedInput(s))
  }

  /** `parse` as evidently intended: identifiers may contain `_`, and the
      whole input must be consumed; leftover text is reported as
      `UnexpectedInput` carrying exactly that text. */
  function ParseStrict(s: string): (r: Result<ExprU, SchemaParseError>)
    ensures r.Success? ==> r.value.FnU? && WellFormed(r.value, WithUnderscores)
                           && Expr(s, WithUnderscores) == Done(r.value, "")
    ensures r.Success? <==> Expr(s, WithUnderscores).Done? && Expr(s, WithUnderscores).rest == ""
                            && Expr(s, WithUnderscores).value.FnU?
    ensures Expr(s, WithUnderscores).Done? && Expr(s, WithUnderscores).rest != "" ==>
              r == Failure(UnexpectedInput(Expr(s, WithUnderscores).rest))
  {
    match Expr(s, WithUnderscores)
    case Done(e, rest) =>
      if rest != "" then Failure(UnexpectedInput(rest))
      else if e.FnU? then Success(e)
      else Failure(MustStartWithSchemaConstructor)
    case Fail => Failure(UnexpectedInput(s))
  }

  // ---------------------------------------------------------------------
  // Exact behaviour of the primitives on inputs of a known shape

  lemma LineSpace0None(s: string)
    requires |s| == 0 || !IsLineSpace(s[0])
    ensures LineSpace0(s).rest == s
  {
    SpanAt(s, IsLineSpace, 0);
  }

  lemma LineSpace1One(x: string)
    requires |x| == 0 || !IsLineSpace(x[0])
    ensures LineSpace1(" " + x) == Done("", x)
  {
    SpanAt(" " + x, IsLineSpace, 1);
    assert (" " + x)[1..] == x;
  }

  /** One space after a lexeme, not followed by more white space, is its terminator. */
  lemma VertAfterSpace(x: string)
    requires |x| == 0 || (!IsSpace(x[0]) && !IsNewline(x[0]))
    ensures VertTerminator(" " + x) == Done(" ", x)
  {
    var s := " " + x;
    SpanAt(s, IsSpace, 1);
    assert s[1..] == x && s[..1] == " ";
    assert Space0(s).rest == x;
    SpanAt(x, IsNewline, 0);
  }

  /** An identifier followed by a character that cannot continue it is read whole. */
  lemma IdentifierExact(w: string, st: IdentStyle, t: string)
    requires IsIdentifier(w, st)
    requires |t| == 0 || !IsIdentTail(t[0], st)
    ensures Identifier(w + t, st) == Done(w, t)
  {
    var s := w + t;
    SpanFromAt(s, IdentTailIn(st), 1, |w|);
    SkipIsSuffix(s, |w|);
    assert s[..|w|] == w && s[|w|..] == t;
  }

  /** A rendered number not followed by a digit is read back. */
  lemma NatExact(n: U8, t: string)
    requires |t| == 0 || !IsDigit(t[0])
    ensures Nat(DecimalString(n) + t) == Done(n, t)
  {
    var d := DecimalString(n);
    var s := d + t;
    SpanAt(s, IsDigit, |d|);
    SkipIsSuffix(s, |d|);
    assert s[..|d|] == d && s[|d|..] == t;
    DecimalRoundTrip(n);
  }

  /** A quoted string with no quote inside is read back. */
  lemma StrExact(x: string, t: string)
    requires QuoteFree(x)
    ensures Str("\"" + x + "\"" + t) == Done(x, t)
  {
    var s := "\"" + x + "\"" + t;
    var inner := s[1..];
    assert inner == x + ("\"" + t);
    SpanAt(inner, NotQuote, |x|);
    SkipIsSuffix(inner, |x|);
    assert inner[..|x|] == x && inner[|x|..] == "\"" + t;
    assert TakeTillQuote(inner) == Done(x, "\"" + t);
    assert ("\"" + t)[1..] == t;
  }

  /** What may follow a complete expression without continuing it: the end
      of the input, or a character that closes a list item, a list or a
      parenthesis. */
  predicate Closes(t: string) {
    |t| == 0 || t[0] == ',' || t[0] == ']' || t[0] == ')'
  }

  /** What may follow an expression that cannot take arguments: also a space. */
  predicate Separates(t: string) {
    Closes(t) || t[0] == ' '
  }

  /** No expression starts at the end of the input or at a closing character. */
  lemma ExprClosed(t: string, st: IdentStyle)
    requires Closes(t)
    ensures Expr(t, st) == Fail
    ensures ListElem(t, st) == Fail
  {
    assert Parens(t, st) == Fail;
    assert List(t, st) == Fail;
    assert Identifier(t, st) == Fail;
    assert Func(t, st) == Fail;
    assert Nat(t) == Fail;
    assert Str(t) == Fail;
    assert KeywordLit(t) == Fail;
    LineSpace0None(t);
  }

  // ---------------------------------------------------------------------
  // The loop of `sep_by1` on input of a known shape

  /** One round of the loop: `sep` consumes exactly `d` in front of `p`, and
      `value` reads `v` from `p`, leaving `rest`. */
  ghost predicate LedStep<S, T>(sep: string -> PResult<S>, value: string -> PResult<T>, v: T, d: string, p: string, rest: string) {
    && sep(d + p + rest).Done? && sep(d + p + rest).rest == p + rest
    && value(p + rest) == Done(v, rest)
  }

  /** Every round of the loop over the pieces `ps` reads the matching value of `vs`. */
  ghost predicate LedSteps<S, T>(sep: string -> PResult<S>, value: string -> PResult<T>, vs: seq<T>, ps: seq<string>, d: string, t: string)
    decreases |ps|
  {
    && |vs| == |ps|
    && (|ps| > 0 ==> LedStep(sep, value, vs[0], d, ps[0], Led(ps[1..], d) + t) && LedSteps(sep, value, vs[1..], ps[1..], d, t))
  }

  /** The rounds from `k` are round `k`, then the rounds from `k + 1`. */
  lemma LedStepsFrom<S, T>(sep: string -> PResult<S>, value: string -> PResult<T>, vs: seq<T>, ps: seq<string>, d: string, t: string, k: nat)
    requires k < |vs| == |ps|
    requires LedStep(sep, value, vs[k], d, ps[k], Led(ps[k + 1..], d) + t)
    requires LedSteps(sep, value, vs[k + 1..], ps[k + 1..], d, t)
    ensures LedSteps(sep, value, vs[k..], ps[k..], d, t)
  {
    SuffixCons(vs, k);
    SuffixCons(ps, k);
  }

  /** One round of the loop, unfolded. */
  lemma SepLoopStep<S, T>(sep: string -> PResult<S>, value: string -> PResult<T>, ok: T -> bool,
                          acc: seq<T>, v: T, d: string, p: string, rest: string, i: string)
    requires |d| > 0 && i == d + p + rest
    requires Shrinks(sep) && Shrinks(value) && Yields(value, ok)
    requires LedStep(sep, value, v, d, p, rest)
    ensures SepLoop(sep, value, acc, i, ok) == SepLoop(sep, value, acc + [v], rest, ok)
  {
  }

  /** When the input is a sequence of pieces each led by a separator, and
      each separator/value round reads the next piece, the loop collects
      one value per piece and stops exactly where the pieces end (provided
      no further round can start there). */
  lemma {:induction false} SepLoopLed<S, T>(sep: string -> PResult<S>, value: string -> PResult<T>, ok: T -> bool,
                                            acc: seq<T>, vs: seq<T>, ps: seq<string>, d: string, t: string)
    requires |d| > 0
    requires Shrinks(sep) && Shrinks(value) && Yields(value, ok)
    requires LedSteps(sep, value, vs, ps, d, t)
    requires sep(t).Fail? || value(sep(t).rest).Fail?
    ensures SepLoop(sep, value, acc, Led(ps, d) + t, ok) == Done(acc + vs, t)
    decreases |ps|
  {
    if |ps| == 0 {
      assert Led(ps, d) + t == t;
      assert acc + vs == acc;
    } else {
      var rest := Led(ps[1..], d) + t;
      assert Led(ps, d) + t == d + ps[0] + rest;
      assert LedStep(sep, value, vs[0], d, ps[0], rest);
      SepLoopStep(sep, value, ok, acc, vs[0], d, ps[0], rest, Led(ps, d) + t);
      SepLoopLed(sep, value, ok, acc + [vs[0]], vs[1..], ps[1..], d, t);
      assert acc + [vs[0]] + vs[1..] == acc + vs;
    }
  }

  /** `sep_by0` reads a first value and then whatever its loop reads. */
  lemma SepBy0From<S, T>(sep: string -> PResult<S>, value: string -> PResult<T>, ok: T -> bool,
                         s: string, v: T, i: string, vs: seq<T>, t: string)
    requires Shrinks(sep) && Shrinks(value) && Yields(value, ok)
    requires value(s) == Done(v, i)
    requires SepLoop(sep, value, [v], i, ok) == Done([v] + vs, t)
    ensures SepBy1(sep, value, s, ok) == Done([v] + vs, t)
    ensures SepBy0(sep, value, s, ok) == Done([v] + vs, t)
  {
  }

  /** `sep_by1` and `sep_by0` on a first value followed by pieces each led
      by a separator read the first value and one value per piece. */
  lemma SepByLed<S, T>(sep: string -> PResult<S>, value: string -> PResult<T>, ok: T -> bool,
                       s: string, xs: seq<T>, ps: seq<string>, d: string, t: string)
    requires |d| > 0 && |xs| > 0
    requires Shrinks(sep) && Shrinks(value) && Yields(value, ok)
    requires value(s) == Done(xs[0], Led(ps, d) + t)
    requires LedSteps(sep, value, xs[1..], ps, d, t)
    requires sep(t).Fail? || value(sep(t).rest).Fail?
    ensures SepBy1(sep, value, s, ok) == Done(xs, t)
    ensures SepBy0(sep, value, s, ok) == Done(xs, t)
  {
    SepLoopLed(sep, value, ok, [xs[0]], xs[1..], ps, d, t);
    assert [xs[0]] + xs[1..] == xs;
    SepBy0From(sep, value, ok, s, xs[0], Led(ps, d) + t, xs[1..], t);
  }
}
