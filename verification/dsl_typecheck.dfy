/** The typechecker of the schema language (`src/schema/typecheck.rs`):
    folds an untyped tree into a typed one, and the root into a `Schema`.
    Its partner is erasure, which writes a typed tree back as the untyped
    tree it came from: a successful check loses nothing, and every
    well-typed tree is reached. */
module DslTypecheck {
  import opened Wrappers
  import opened DslSyntax

  /** The types of the language; `THole` is the element type of an empty list. */
  datatype Type = TString | TNat | TKeyword | TList(elem: Type) | TSchema | TCategory | TRequirement | THole

  /** The `Display` rendering of a type: lists print as `list` whatever their element. */
  function TypeName(t: Type): string {
    match t
    case TString => "string"
    case TNat => "nat"
    case TKeyword => "keyword"
    case TList(_) => "list"
    case TSchema => "schema"
    case TCategory => "category"
    case TRequirement => "requirement"
    case THole => "unknown"
  }

  /** Two types print alike exactly when they are the same kind of type. */
  lemma TypeNameKinds(a: Type, b: Type)
    ensures TypeName(a) == TypeName(b) <==> (a == b || (a.TList? && b.TList?))
  {
    if TypeName(a) == TypeName(b) && !(a.TList? && b.TList?) {
      // the names of the non-list types differ in length or in their first character
      assert |TypeName(a)| == |TypeName(b)| && TypeName(a)[0] == TypeName(b)[0];
    }
  }

  /** The typed tree. */
  datatype ExprT =
    | SchemaT(schema: Schema)
    | CategoryT(category: Category, keywords: seq<Keyword>)
    | KeywordT(keyword: Keyword)
    | RequirementT(requirement: Requirement)
    | NatT(n: U8)
    | StringT(s: string)
    | ListT(items: seq<ExprT>)

  /** The errors the typechecker reports. A heterogeneous list carries its
      distinct element types; the source collects them through a hash set,
      so their order is unspecified and the model keeps a set. */
  datatype TypeError =
    | ExpectedTopLevelSchema
    | HeterogeneousList(types: set<Type>)
    | TypeMismatch(expected: Type, got: Type)
    | UnknownFunction(name: string, argTypes: seq<Type>)

  /** The type of a typed tree; a list has the type of its first element. */
  function TypeOf(t: ExprT): Type {
    match t
    case SchemaT(_) => TSchema
    case RequirementT(_) => TRequirement
    case CategoryT(_, _) => TCategory
    case NatT(_) => TNat
    case StringT(_) => TString
    case KeywordT(_) => TKeyword
    case ListT(xs) => if |xs| == 0 then TList(THole) else TList(TypeOf(xs[0]))
  }

  function TypesIn(ts: seq<ExprT>): (r: seq<Type>)
    ensures |r| == |ts| && forall i | 0 <= i < |ts| :: r[i] == TypeOf(ts[i])
  {
    seq(|ts|, i requires 0 <= i < |ts| => TypeOf(ts[i]))
  }

  /** The distinct element types of a list. */
  function TypesOf(ts: seq<ExprT>): set<Type> {
    set i | 0 <= i < |ts| :: TypeOf(ts[i])
  }

  predicate Homogeneous(ts: seq<ExprT>) {
    forall i | 0 <= i < |ts| :: TypeOf(ts[i]) == TypeOf(ts[0])
  }

  /** The source's test "at most one distinct type" is homogeneity. */
  lemma HomogeneousCard(ts: seq<ExprT>)
    ensures |TypesOf(ts)| <= 1 <==> Homogeneous(ts)
  {
    if Homogeneous(ts) {
      if |ts| == 0 {
        assert TypesOf(ts) == {};
      } else {
        assert TypesOf(ts) == {TypeOf(ts[0])};
      }
    } else {
      var i :| 0 <= i < |ts| && TypeOf(ts[i]) != TypeOf(ts[0]);
      TwoMembers(TypesOf(ts), TypeOf(ts[0]), TypeOf(ts[i]));
    }
  }

  /** A set holding two distinct members has at least two elements. */
  lemma TwoMembers<T>(s: set<T>, a: T, b: T)
    requires a in s && b in s && a != b
    ensures |s| >= 2
  {
    var two := {a, b};
    assert |two| == 2;
    assert s == two + (s - two);
  }

  /** A homogeneous list whose type names an element type holds only
      elements of that type; for keywords and categories, only those nodes. */
  lemma AllOfType(ts: seq<ExprT>, t: Type)
    requires Homogeneous(ts) && TypeOf(ListT(ts)) == TList(t)
    ensures forall i | 0 <= i < |ts| :: TypeOf(ts[i]) == t
    ensures t == TKeyword ==> forall i | 0 <= i < |ts| :: ts[i].KeywordT?
    ensures t == TCategory ==> forall i | 0 <= i < |ts| :: ts[i].CategoryT?
  {
  }

  function KeywordsOf(ts: seq<ExprT>): (r: seq<Keyword>)
    requires forall i | 0 <= i < |ts| :: ts[i].KeywordT?
    ensures |r| == |ts| && forall i | 0 <= i < |ts| :: r[i] == ts[i].keyword
  {
    seq(|ts|, i requires 0 <= i < |ts| => ts[i].keyword)
  }

  function CategoriesOf(ts: seq<ExprT>): (r: seq<(Category, seq<Keyword>)>)
    requires forall i | 0 <= i < |ts| :: ts[i].CategoryT?
    ensures |r| == |ts| && forall i | 0 <= i < |ts| :: r[i] == (ts[i].category, ts[i].keywords)
  {
    seq(|ts|, i requires 0 <= i < |ts| => (ts[i].category, ts[i].keywords))
  }

  // ---------------------------------------------------------------------
  // Erasure: the untyped tree a typed tree is written as

  /** A requirement bound fits the `u8` literal it is written with. */
  predicate SmallBound(q: Requirement) {
    q.n < 256
  }

  predicate Erasable(t: ExprT) {
    match t
    case SchemaT(s) => forall i | 0 <= i < |s.categories| :: SmallBound(s.categories[i].0.requirement)
    case CategoryT(c, _) => SmallBound(c.requirement)
    case RequirementT(q) => SmallBound(q)
    case ListT(xs) => forall i | 0 <= i < |xs| :: Erasable(xs[i])
    case _ => true
  }

  function EraseRequirement(q: Requirement): ExprU
    requires SmallBound(q)
  {
    match q
    case Exactly(n) => FnU("exactly", [NatU(n)])
    case AtLeast(n) => FnU("at_least", [NatU(n)])
    case AtMost(n) => FnU("at_most", [NatU(n)])
  }

  function EraseKeywords(kws: seq<Keyword>): (r: seq<ExprU>)
    ensures |r| == |kws| && forall i | 0 <= i < |kws| :: r[i] == KeywordU(kws[i].name, kws[i].id)
  {
    seq(|kws|, i requires 0 <= i < |kws| => KeywordU(kws[i].name, kws[i].id))
  }

  function EraseCategory(c: Category, kws: seq<Keyword>): ExprU
    requires SmallBound(c.requirement)
  {
    FnU("category", [StringU(c.name), EraseRequirement(c.requirement), ListU(EraseKeywords(kws))])
  }

  function EraseCategories(cs: seq<(Category, seq<Keyword>)>): (r: seq<ExprU>)
    requires forall i | 0 <= i < |cs| :: SmallBound(cs[i].0.requirement)
    ensures |r| == |cs| && forall i | 0 <= i < |cs| :: r[i] == EraseCategory(cs[i].0, cs[i].1)
  {
    seq(|cs|, i requires 0 <= i < |cs| => EraseCategory(cs[i].0, cs[i].1))
  }

  function EraseSchema(s: Schema): ExprU
    requires forall i | 0 <= i < |s.categories| :: SmallBound(s.categories[i].0.requirement)
  {
    FnU("schema", [StringU(s.delim), StringU(s.empty), ListU(EraseCategories(s.categories))])
  }

  function Erase(t: ExprT): ExprU
    requires Erasable(t)
    decreases t, 1
  {
    match t
    case NatT(n) => NatU(n)
    case StringT(x) => StringU(x)
    case KeywordT(k) => KeywordU(k.name, k.id)
    case RequirementT(q) => EraseRequirement(q)
    case CategoryT(c, kws) => EraseCategory(c, kws)
    case SchemaT(s) => EraseSchema(s)
    case ListT(xs) => ListU(EraseAll(xs))
  }

  function EraseAll(ts: seq<ExprT>): (r: seq<ExprU>)
    requires forall i | 0 <= i < |ts| :: Erasable(ts[i])
    ensures |r| == |ts|
    decreases ts, 0
  {
    if |ts| == 0 then [] else [Erase(ts[0])] + EraseAll(ts[1..])
  }

  lemma EraseAllAt(ts: seq<ExprT>, i: nat)
    requires i < |ts| && forall j | 0 <= j < |ts| :: Erasable(ts[j])
    ensures EraseAll(ts)[i] == Erase(ts[i])
    decreases i
  {
    if i > 0 {
      EraseAllAt(ts[1..], i - 1);
    }
  }

  /** A list of keywords erases to the keyword literals. */
  lemma EraseKeywordList(ts: seq<ExprT>)
    requires forall i | 0 <= i < |ts| :: ts[i].KeywordT?
    ensures EraseAll(ts) == EraseKeywords(KeywordsOf(ts))
  {
    forall i | 0 <= i < |ts|
      ensures EraseAll(ts)[i] == EraseKeywords(KeywordsOf(ts))[i]
    {
      EraseAllAt(ts, i);
    }
  }

  lemma EraseCategoryAt(ts: seq<ExprT>, i: nat)
    requires i < |ts| && ts[i].CategoryT? && Erasable(ts[i])
    ensures Erase(ts[i]) == EraseCategory(ts[i].category, ts[i].keywords)
  {
  }

  /** A list of categories erases to the category applications. */
  lemma EraseCategoryList(ts: seq<ExprT>)
    requires forall i | 0 <= i < |ts| :: ts[i].CategoryT? && Erasable(ts[i])
    ensures EraseAll(ts) == EraseCategories(CategoriesOf(ts))
  {
    var cs := CategoriesOf(ts);
    var es := EraseCategories(cs);
    forall i | 0 <= i < |ts|
      ensures EraseAll(ts)[i] == es[i]
    {
      EraseAllAt(ts, i);
      EraseCategoryAt(ts, i);
    }
  }

  /** Erasing elementwise gives back the list the elements were erased to. */
  lemma EraseAllBack(ts: seq<ExprT>, xs: seq<ExprU>)
    requires |ts| == |xs| && forall i | 0 <= i < |ts| :: Erasable(ts[i]) && Erase(ts[i]) == xs[i]
    ensures EraseAll(ts) == xs
  {
    forall i | 0 <= i < |ts|
      ensures EraseAll(ts)[i] == xs[i]
    {
      EraseAllAt(ts, i);
    }
  }

  lemma Three<T>(xs: seq<T>, a: T, b: T, c: T)
    requires |xs| == 3 && xs[0] == a && xs[1] == b && xs[2] == c
    ensures xs == [a, b, c]
  {
  }

  // ---------------------------------------------------------------------
  // The checker

  /** `typecheck_`. A successful check loses nothing: erasing its result
      gives back the input tree. */
  function Check(e: ExprU): (r: Result<ExprT, TypeError>)
    ensures r.Success? ==> Erasable(r.value) && Erase(r.value) == e
    ensures r.Success? && e.ListU? ==> r.value.ListT? && Homogeneous(r.value.items)
    decreases e, 1
  {
    match e
    case NatU(x) => Success(NatT(x))
    case StringU(x) => Success(StringT(x))
    case KeywordU(name, id) => Success(KeywordT(Keyword(name, id)))
    case ListU(xs) =>
      var ts :- CheckAll(xs);
      HomogeneousCard(ts);
      EraseAllBack(ts, xs);
      if |TypesOf(ts)| <= 1 then Success(ListT(ts)) else Failure(HeterogeneousList(TypesOf(ts)))
    case FnU(name, args) => CheckCall(name, args)
  }

  /** The elements of a list, left to right; the first error aborts. */
  function CheckAll(xs: seq<ExprU>): (r: Result<seq<ExprT>, TypeError>)
    ensures r.Success? ==> |r.value| == |xs| && forall i | 0 <= i < |xs| :: Check(xs[i]) == Success(r.value[i])
    ensures r.Failure? ==> exists k | 0 <= k < |xs| ::
                             Check(xs[k]) == Failure(r.error) && forall i | 0 <= i < k :: Check(xs[i]).Success?
    decreases xs, 0
  {
    if |xs| == 0 then Success([])
    else
      var t :- Check(xs[0]);
      var ts :- CheckAll(xs[1..]);
      Success([t] + ts)
  }

  /** A list whose elements all check checks to their results. */
  lemma CheckAllOk(xs: seq<ExprU>)
    requires forall i | 0 <= i < |xs| :: Check(xs[i]).Success?
    ensures CheckAll(xs).Success?
    ensures forall i | 0 <= i < |xs| :: CheckAll(xs).value[i] == Check(xs[i]).value
  {
  }

  /** A function application: the requirement constructors on one nat
      literal, `category` and `schema` on their three arguments, and
      anything else an unknown function once its arguments check. The two
      `if let` mismatches of the source report the same type as the outer
      mismatch, so they are one branch here. */
  function CheckCall(name: string, args: seq<ExprU>): (r: Result<ExprT, TypeError>)
    ensures r.Success? ==> Erasable(r.value) && Erase(r.value) == FnU(name, args)
    decreases args, 2
  {
    if name == "exactly" && |args| == 1 && args[0].NatU? then
      assert args == [NatU(args[0].n)];
      Success(RequirementT(Exactly(args[0].n)))
    else if name == "at_least" && |args| == 1 && args[0].NatU? then
      assert args == [NatU(args[0].n)];
      Success(RequirementT(AtLeast(args[0].n)))
    else if name == "at_most" && |args| == 1 && args[0].NatU? then
      assert args == [NatU(args[0].n)];
      Success(RequirementT(AtMost(args[0].n)))
    else if name == "category" && |args| == 3 && args[0].StringU? && args[1].FnU? && args[2].ListU? then
      CheckCategory(args)
    else if name == "schema" && |args| == 3 && args[0].StringU? && args[1].StringU? && args[2].ListU? then
      CheckSchema(args)
    else
      var ts :- CheckAll(args);
      Failure(UnknownFunction(name, TypesIn(ts)))
  }

  /** `category` on a name, a function application and a list: the
      application must check as a requirement and the list as a list of
      keywords; otherwise the mismatch reports the list's type, even when
      it is the application that is not a requirement. */
  function CheckCategory(args: seq<ExprU>): (r: Result<ExprT, TypeError>)
    requires |args| == 3 && args[0].StringU? && args[1].FnU? && args[2].ListU?
    ensures r.Success? ==> Erasable(r.value) && Erase(r.value) == FnU("category", args)
    ensures Check(args[1]).Failure? ==> r == Failure(Check(args[1]).error)
    ensures Check(args[1]).Success? && Check(args[2]).Failure? ==> r == Failure(Check(args[2]).error)
    ensures Check(args[1]).Success? && Check(args[2]).Success? ==>
              (r.Success? <==> Check(args[1]).value.RequirementT? && TypeOf(Check(args[2]).value) == TList(TKeyword))
              && (r.Failure? ==> r == Failure(TypeMismatch(TList(TKeyword), TypeOf(Check(args[2]).value))))
    decreases args, 1
  {
    var req :- Check(args[1]);
    var kws :- Check(args[2]);
    var t := TypeOf(kws);
    if req.RequirementT? && kws.ListT? && t == TList(TKeyword) then
      AllOfType(kws.items, TKeyword);
      EraseKeywordList(kws.items);
      Three(args, StringU(args[0].s), EraseRequirement(req.requirement), ListU(EraseKeywords(KeywordsOf(kws.items))));
      Success(CategoryT(Category(args[0].s, req.requirement), KeywordsOf(kws.items)))
    else
      Failure(TypeMismatch(TList(TKeyword), t))
  }

  /** `schema` on two strings and a list: the list must check as a list of
      categories; otherwise the mismatch reports the list's type. */
  function CheckSchema(args: seq<ExprU>): (r: Result<ExprT, TypeError>)
    requires |args| == 3 && args[0].StringU? && args[1].StringU? && args[2].ListU?
    ensures r.Success? ==> Erasable(r.value) && Erase(r.value) == FnU("schema", args)
    ensures Check(args[2]).Failure? ==> r == Failure(Check(args[2]).error)
    ensures Check(args[2]).Success? ==>
              (r.Success? <==> TypeOf(Check(args[2]).value) == TList(TCategory))
              && (r.Failure? ==> r == Failure(TypeMismatch(TList(TCategory), TypeOf(Check(args[2]).value))))
    decreases args, 1
  {
    var cats :- Check(args[2]);
    var t := TypeOf(cats);
    if cats.ListT? && t == TList(TCategory) then
      AllOfType(cats.items, TCategory);
      var s := Schema(args[0].s, args[1].s, CategoriesOf(cats.items));
      EraseCategoryList(cats.items);
      Three(args, StringU(s.delim), StringU(s.empty), ListU(EraseCategories(s.categories)));
      Success(SchemaT(s))
    else
      Failure(TypeMismatch(TList(TCategory), t))
  }

  /** `typecheck`: the root must check as a schema. */
  function Typecheck(e: ExprU): (r: Result<Schema, TypeError>)
    ensures r.Success? ==> Check(e) == Success(SchemaT(r.value))
  {
    match Check(e)
    case Success(t) => if t.SchemaT? then Success(t.schema) else Failure(ExpectedTopLevelSchema)
    case Failure(err) => Failure(err)
  }

  // ---------------------------------------------------------------------
  // Every well-typed tree is reached

  /** The typed trees the checker can produce: lists are homogeneous,
      requirement bounds fit a `u8`, and keyword and category lists are
      not empty (an empty list has type `List(Hole)`, which neither
      `category` nor `schema` accepts). */
  predicate WellTyped(t: ExprT) {
    match t
    case RequirementT(q) => SmallBound(q)
    case CategoryT(c, kws) => SmallBound(c.requirement) && |kws| > 0
    case SchemaT(s) => WellTypedSchema(s)
    case ListT(xs) => Homogeneous(xs) && forall i | 0 <= i < |xs| :: WellTyped(xs[i])
    case _ => true
  }

  predicate WellTypedSchema(s: Schema) {
    |s.categories| > 0 &&
    forall i | 0 <= i < |s.categories| :: SmallBound(s.categories[i].0.requirement) && |s.categories[i].1| > 0
  }

  lemma {:induction false} WellTypedErasable(t: ExprT)
    requires WellTyped(t)
    ensures Erasable(t)
    decreases t
  {
    if t.ListT? {
      forall i | 0 <= i < |t.items|
        ensures Erasable(t.items[i])
      {
        WellTypedErasable(t.items[i]);
      }
    }
  }

  /** Everything the checker returns is well typed: requirement bounds come
      from `u8` literals, lists are homogeneous, and the keyword and category
      lists `category` and `schema` accept have a non-hole element type, so
      they are not empty. */
  lemma {:induction false} CheckWellTyped(e: ExprU)
    requires Check(e).Success?
    ensures WellTyped(Check(e).value)
    decreases e, 1
  {
    match e
    case ListU(xs) =>
      CheckAllWellTyped(xs);
    case FnU(name, args) =>
      if name == "category" && |args| == 3 && args[0].StringU? && args[1].FnU? && args[2].ListU? {
        CheckWellTyped(args[1]);
        ListTypeMeans(Check(args[2]).value.items);
      } else if name == "schema" && |args| == 3 && args[0].StringU? && args[1].StringU? && args[2].ListU? {
        var cats := Check(args[2]).value;
        CheckWellTyped(args[2]);
        ListTypeMeans(cats.items);
        AllOfType(cats.items, TCategory);
      }
    case _ =>
  }

  lemma {:induction false} CheckAllWellTyped(xs: seq<ExprU>)
    requires CheckAll(xs).Success?
    ensures forall i | 0 <= i < |xs| :: WellTyped(CheckAll(xs).value[i])
    decreases xs, 0
  {
    forall i | 0 <= i < |xs|
      ensures WellTyped(CheckAll(xs).value[i])
    {
      CheckWellTyped(xs[i]);
    }
  }

  /** No typed tree has the hole type; only a list's element type can be the hole. */
  lemma NoHole(t: ExprT)
    ensures TypeOf(t) != THole
  {
  }

  /** A list's type is the hole list exactly when it is empty, and otherwise
      the type of all its elements when it is homogeneous. */
  lemma ListTypeMeans(ts: seq<ExprT>)
    ensures TypeOf(ListT(ts)) == TList(THole) <==> |ts| == 0
    ensures |ts| > 0 && Homogeneous(ts) ==>
              forall i | 0 <= i < |ts| :: TList(TypeOf(ts[i])) == TypeOf(ListT(ts))
  {
    if |ts| > 0 {
      NoHole(ts[0]);
    }
  }

  lemma CheckRequirementErase(q: Requirement)
    requires SmallBound(q)
    ensures Check(EraseRequirement(q)) == Success(RequirementT(q))
  {
  }

  function KeywordNodes(kws: seq<Keyword>): (r: seq<ExprT>)
    ensures |r| == |kws| && forall i | 0 <= i < |kws| :: r[i] == KeywordT(kws[i])
  {
    seq(|kws|, i requires 0 <= i < |kws| => KeywordT(kws[i]))
  }

  lemma {:induction false} CheckAllKeywords(kws: seq<Keyword>)
    ensures CheckAll(EraseKeywords(kws)) == Success(KeywordNodes(kws))
    decreases |kws|
  {
    if |kws| > 0 {
      CheckAllKeywords(kws[1..]);
      assert EraseKeywords(kws)[1..] == EraseKeywords(kws[1..]);
      assert KeywordNodes(kws) == [KeywordT(kws[0])] + KeywordNodes(kws[1..]);
    }
  }

  lemma CheckKeywordsErase(kws: seq<Keyword>)
    requires |kws| > 0
    ensures Check(ListU(EraseKeywords(kws))) == Success(ListT(KeywordNodes(kws)))
  {
    CheckAllKeywords(kws);
    var ts := KeywordNodes(kws);
    assert Homogeneous(ts);
    HomogeneousCard(ts);
  }

  lemma CheckCategoryErase(c: Category, kws: seq<Keyword>)
    requires SmallBound(c.requirement) && |kws| > 0
    ensures Check(EraseCategory(c, kws)) == Success(CategoryT(c, kws))
  {
    var args := [StringU(c.name), EraseRequirement(c.requirement), ListU(EraseKeywords(kws))];
    CheckRequirementErase(c.requirement);
    CheckKeywordsErase(kws);
    assert KeywordsOf(KeywordNodes(kws)) == kws;
    assert CheckCategory(args) == Success(CategoryT(c, kws));
  }

  function CategoryNodes(cs: seq<(Category, seq<Keyword>)>): (r: seq<ExprT>)
    ensures |r| == |cs| && forall i | 0 <= i < |cs| :: r[i] == CategoryT(cs[i].0, cs[i].1)
  {
    seq(|cs|, i requires 0 <= i < |cs| => CategoryT(cs[i].0, cs[i].1))
  }

  lemma {:induction false} CheckAllCategories(cs: seq<(Category, seq<Keyword>)>)
    requires forall i | 0 <= i < |cs| :: SmallBound(cs[i].0.requirement) && |cs[i].1| > 0
    ensures CheckAll(EraseCategories(cs)) == Success(CategoryNodes(cs))
    decreases |cs|
  {
    if |cs| > 0 {
      var xs := EraseCategories(cs);
      CheckCategoryErase(cs[0].0, cs[0].1);
      CheckAllCategories(cs[1..]);
      assert xs[1..] == EraseCategories(cs[1..]);
      CheckAllCons(xs, CategoryT(cs[0].0, cs[0].1), CategoryNodes(cs[1..]));
      assert CategoryNodes(cs) == [CategoryT(cs[0].0, cs[0].1)] + CategoryNodes(cs[1..]);
    }
  }

  /** One step of `CheckAll`: the head's result before the tail's. */
  lemma CheckAllCons(xs: seq<ExprU>, t: ExprT, ts: seq<ExprT>)
    requires |xs| > 0 && Check(xs[0]) == Success(t) && CheckAll(xs[1..]) == Success(ts)
    ensures CheckAll(xs) == Success([t] + ts)
  {
  }

  lemma CheckSchemaErase(s: Schema)
    requires WellTypedSchema(s)
    ensures Check(EraseSchema(s)) == Success(SchemaT(s))
  {
    var cs := s.categories;
    var args := [StringU(s.delim), StringU(s.empty), ListU(EraseCategories(cs))];
    CheckAllCategories(cs);
    var ts := CategoryNodes(cs);
    assert Homogeneous(ts);
    HomogeneousCard(ts);
    assert Check(ListU(EraseCategories(cs))) == Success(ListT(ts));
    assert CategoriesOf(ts) == cs;
    CheckSchemaOk(s.delim, s.empty, EraseCategories(cs), ts);
  }

  /** `schema` on a list that checks to a non-empty list of categories. */
  lemma CheckSchemaOk(delim: string, empty: string, xs: seq<ExprU>, ts: seq<ExprT>)
    requires Check(ListU(xs)) == Success(ListT(ts))
    requires |ts| > 0 && forall i | 0 <= i < |ts| :: ts[i].CategoryT?
    ensures Check(FnU("schema", [StringU(delim), StringU(empty), ListU(xs)]))
            == Success(SchemaT(Schema(delim, empty, CategoriesOf(ts))))
  {
    var args := [StringU(delim), StringU(empty), ListU(xs)];
    assert TypeOf(ListT(ts)) == TList(TCategory);
    assert CheckSchema(args) == Success(SchemaT(Schema(delim, empty, CategoriesOf(ts))));
  }

  /** Every well-typed tree is what the checker makes of its erasure. */
  lemma {:induction false} CheckErase(t: ExprT)
    requires WellTyped(t)
    ensures Erasable(t) && Check(Erase(t)) == Success(t)
    decreases t, 1
  {
    WellTypedErasable(t);
    match t
    case RequirementT(q) => CheckRequirementErase(q);
    case CategoryT(c, kws) => CheckCategoryErase(c, kws);
    case SchemaT(s) => CheckSchemaErase(s);
    case ListT(xs) =>
      CheckAllErase(xs);
      HomogeneousCard(xs);
    case NatT(_) =>
    case StringT(_) =>
    case KeywordT(_) =>
  }

  lemma {:induction false} CheckAllErase(ts: seq<ExprT>)
    requires forall i | 0 <= i < |ts| :: WellTyped(ts[i])
    ensures (forall i | 0 <= i < |ts| :: Erasable(ts[i])) && CheckAll(EraseAll(ts)) == Success(ts)
    decreases ts, 0
  {
    if |ts| > 0 {
      CheckErase(ts[0]);
      CheckAllErase(ts[1..]);
      assert [ts[0]] + ts[1..] == ts;
    }
  }

  /** `typecheck` and schema erasure are inverse: a schema that checks is
      the erasure of its result, and every well-typed schema is reached. */
  lemma TypecheckSound(e: ExprU)
    requires Typecheck(e).Success?
    ensures WellTypedSchema(Typecheck(e).value)
    ensures Erasable(SchemaT(Typecheck(e).value)) && EraseSchema(Typecheck(e).value) == e
    ensures e.FnU? && e.fname == "schema"
  {
    CheckWellTyped(e);
  }

  lemma TypecheckComplete(s: Schema)
    requires WellTypedSchema(s)
    ensures Typecheck(EraseSchema(s)) == Success(s)
  {
    CheckSchemaErase(s);
  }

  // ---------------------------------------------------------------------
  // The individual rules

  /** The requirement constructors, each on one nat literal. */
  lemma RequirementRules(n: U8)
    ensures Check(FnU("exactly", [NatU(n)])) == Success(RequirementT(Exactly(n)))
    ensures Check(FnU("at_least", [NatU(n)])) == Success(RequirementT(AtLeast(n)))
    ensures Check(FnU("at_most", [NatU(n)])) == Success(RequirementT(AtMost(n)))
  {
  }

  /** A list whose elements all check fails exactly when its element types
      differ, and the error carries at least two distinct types. */
  lemma ListRule(xs: seq<ExprU>)
    requires CheckAll(xs).Success?
    ensures Check(ListU(xs)).Success? <==> Homogeneous(CheckAll(xs).value)
    ensures Check(ListU(xs)).Failure? ==>
              Check(ListU(xs)) == Failure(HeterogeneousList(TypesOf(CheckAll(xs).value)))
              && |TypesOf(CheckAll(xs).value)| >= 2
  {
    HomogeneousCard(CheckAll(xs).value);
  }

  /** The mixed list of a string and a keyword is rejected with both types. */
  lemma MixedListRejected()
    ensures Check(ListU([StringU("a"), KeywordU("boo", "b")])) == Failure(HeterogeneousList({TString, TKeyword}))
  {
    var xs := [StringU("a"), KeywordU("boo", "b")];
    var ts := [StringT("a"), KeywordT(Keyword("boo", "b"))];
    assert Check(xs[0]) == Success(ts[0]);
    assert Check(xs[1]) == Success(ts[1]);
    CheckAllOk(xs);
    var r := CheckAll(xs).value;
    assert |r| == 2 && r[0] == ts[0] && r[1] == ts[1];
    assert r == ts;
    assert TypesOf(ts) == {TString, TKeyword};
  }

  /** An empty keyword list has type `List(Hole)`, so `category` rejects it. */
  lemma EmptyKeywordsRejected(name: string, req: ExprU)
    requires req.FnU? && Check(req).Success?
    ensures Check(FnU("category", [StringU(name), req, ListU([])])) == Failure(TypeMismatch(TList(TKeyword), TList(THole)))
  {
    var args := [StringU(name), req, ListU([])];
    assert CheckCategory(args) == Failure(TypeMismatch(TList(TKeyword), TList(THole)));
  }

  /** `category` passes on the first error of its requirement, then of its
      list; with both checked it succeeds exactly when the first is a
      requirement and the second a keyword list, and otherwise reports the
      list's type against `List(Keyword)`. */
  lemma CategoryRule(name: string, req: ExprU, xs: seq<ExprU>)
    requires req.FnU?
    ensures var r := Check(FnU("category", [StringU(name), req, ListU(xs)]));
            && (Check(req).Failure? ==> r == Failure(Check(req).error))
            && (Check(req).Success? && Check(ListU(xs)).Failure? ==> r == Failure(Check(ListU(xs)).error))
            && (Check(req).Success? && Check(ListU(xs)).Success? ==>
                  (r.Success? <==> Check(req).value.RequirementT? && TypeOf(Check(ListU(xs)).value) == TList(TKeyword))
                  && (r.Failure? ==> r == Failure(TypeMismatch(TList(TKeyword), TypeOf(Check(ListU(xs)).value)))))
  {
    var args := [StringU(name), req, ListU(xs)];
    assert Check(FnU("category", args)) == CheckCategory(args);
  }

  /** A checked application that is not a requirement, in requirement
      position, is reported through the list's type: a well-formed keyword
      list then yields `expected List(Keyword), got List(Keyword)`. */
  lemma CategoryOddMismatch(name: string, kw: string, id: string)
    ensures var inner := FnU("category", [StringU(name), FnU("exactly", [NatU(1)]), ListU([KeywordU(kw, id)])]);
            Check(FnU("category", [StringU(name), inner, ListU([KeywordU(kw, id)])]))
            == Failure(TypeMismatch(TList(TKeyword), TList(TKeyword)))
  {
    var kws := [Keyword(kw, id)];
    var list := [KeywordU(kw, id)];
    assert EraseKeywords(kws) == list;
    CheckCategoryErase(Category(name, Exactly(1)), kws);
    CheckKeywordsErase(kws);
    assert TypeOf(ListT(KeywordNodes(kws))) == TList(TKeyword);
    CategoryRule(name, FnU("category", [StringU(name), FnU("exactly", [NatU(1)]), ListU(list)]), list);
  }

  /** An error inside the requirement passes through `category` unchanged,
      whatever the list: `exactly` on two nats is an unknown function. */
  lemma CategoryRequirementError(name: string, xs: seq<ExprU>)
    ensures Check(FnU("category", [StringU(name), FnU("exactly", [NatU(1), NatU(2)]), ListU(xs)]))
            == Failure(UnknownFunction("exactly", [TNat, TNat]))
  {
    var a := [NatU(1), NatU(2)];
    assert Check(a[0]) == Success(NatT(1)) && Check(a[1]) == Success(NatT(2));
    CheckAllOk(a);
    var ts := CheckAll(a).value;
    assert ts == [NatT(1), NatT(2)];
    assert TypesIn(ts) == [TNat, TNat];
    UnknownRule("exactly", a);
    CategoryRule(name, FnU("exactly", a), xs);
  }

  /** `schema` passes on its list's error; a checked list must be a
      category list, and otherwise its type is reported against
      `List(Category)`. */
  lemma SchemaRule(delim: string, empty: string, xs: seq<ExprU>)
    ensures var r := Check(FnU("schema", [StringU(delim), StringU(empty), ListU(xs)]));
            && (Check(ListU(xs)).Failure? ==> r == Failure(Check(ListU(xs)).error))
            && (Check(ListU(xs)).Success? ==>
                  (r.Success? <==> TypeOf(Check(ListU(xs)).value) == TList(TCategory))
                  && (r.Failure? ==> r == Failure(TypeMismatch(TList(TCategory), TypeOf(Check(ListU(xs)).value)))))
  {
    var args := [StringU(delim), StringU(empty), ListU(xs)];
    assert Check(FnU("schema", args)) == CheckSchema(args);
  }

  /** Likewise an empty category list for `schema`. */
  lemma EmptyCategoriesRejected(delim: string, empty: string)
    ensures Check(FnU("schema", [StringU(delim), StringU(empty), ListU([])])) == Failure(TypeMismatch(TList(TCategory), TList(THole)))
  {
    var args := [StringU(delim), StringU(empty), ListU([])];
    assert CheckSchema(args) == Failure(TypeMismatch(TList(TCategory), TList(THole)));
  }

  /** The application shapes the checker knows. */
  predicate Recognised(name: string, args: seq<ExprU>) {
    ((name == "exactly" || name == "at_least" || name == "at_most") && |args| == 1 && args[0].NatU?)
    || (name == "category" && |args| == 3 && args[0].StringU? && args[1].FnU? && args[2].ListU?)
    || (name == "schema" && |args| == 3 && args[0].StringU? && args[1].StringU? && args[2].ListU?)
  }

  /** Any other application checks its arguments left to right, reporting
      the first error, and otherwise fails as an unknown function carrying
      the argument types in order. */
  lemma UnknownRule(name: string, args: seq<ExprU>)
    requires !Recognised(name, args)
    ensures Check(FnU(name, args)).Failure?
    ensures CheckAll(args).Failure? ==> Check(FnU(name, args)) == Failure(CheckAll(args).error)
    ensures CheckAll(args).Success? ==>
              Check(FnU(name, args)) == Failure(UnknownFunction(name, TypesIn(CheckAll(args).value)))
  {
  }

  /** A root that checks as anything but a schema is rejected as such. */
  lemma RootRule(e: ExprU)
    ensures Check(e).Success? && !Check(e).value.SchemaT? ==> Typecheck(e) == Failure(ExpectedTopLevelSchema)
    ensures Check(e).Failure? ==> Typecheck(e) == Failure(Check(e).error)
  {
  }
}
