/** `FilterParser.ApplyFiltersV1` and `FilterParser.ApplyFiltersV2`: binding criteria to
    the element type, folding them into one predicate, and keeping the elements that
    satisfy it.

    The element type is a static schema (`FieldType`); binding a criterion to it either
    yields a `Check` or fails the way building the expression tree throws, before any
    element is looked at. A `Check` is then evaluated on each element with the null
    semantics of the store the query is sent to: a path that runs through a null
    reaches `Null`, which equals no literal. */
module FilterApply {
  import opened Wrappers
  import opened Text
  import opened Values
  import opened Filters

  /** The static type of a property, as `Expression.PropertyOrField` sees it. */
  datatype FieldType =
    | TString
    | TNumber
    | TDate
    | TBool
    | TObject(members: seq<(string, FieldType)>)
    | TCollection

  /** `Convert.ChangeType` into the numeric and boolean types, and `DateTime.Parse` with
      `DateTimeStyles.RoundtripKind` into ticks; `None` where the library throws. */
  datatype Coercions = Coercions(
    number: string -> Option<int>,
    date: string -> Option<int>,
    boolean: string -> Option<bool>)

  /** Why building the predicate throws. */
  datatype ApplyError =
    | PropertyNotFound(name: string)
    | ValueNotConvertible(text: string)
    | OperatorNotDefined(op: FilterOperator)
    | NoPredicate

  /** A criterion bound to the element type: the declared member names along the path,
      the operator, and the literal converted to the property's type. */
  datatype Check = Check(names: seq<string>, op: FilterOperator, constant: Value)

  /** The expression tree the apply functions build. */
  datatype Expr =
    | Leaf(check: Check)
    | OrElse(left: Expr, right: Expr)
    | AndAlso(left: Expr, right: Expr)

  // ---------------------------------------------------------------------------
  // Binding a criterion to the element type
  // ---------------------------------------------------------------------------

  /** `PropertyPath.Aggregate(parameter, Expression.PropertyOrField)`: the declared names
      along the path and the type reached. */
  function Resolve(ty: FieldType, path: seq<string>): (r: Result<(seq<string>, FieldType), ApplyError>)
    ensures r.Success? ==> |r.value.0| == |path|
    ensures r.Success? ==> forall i :: 0 <= i < |path| ==> EqualsIgnoreCase(r.value.0[i], path[i])
    decreases |path|
  {
    if |path| == 0 then Success(([], ty))
    else
      var member :- Member(ty, path[0]);
      var inner :- Resolve(member.1, path[1..]);
      assert forall i :: 1 <= i < |path| ==> path[i] == path[1..][i - 1];
      Success(([member.0] + inner.0, inner.1))
  }

  /** Whether a type declares a member of this name, ignoring case. */
  predicate HasMember(ty: FieldType, name: string) {
    ty.TObject? && exists j :: 0 <= j < |ty.members| && EqualsIgnoreCase(ty.members[j].0, name)
  }

  /** One `Expression.PropertyOrField` step: the first declared member of an object type
      whose name matches ignoring case; anything else throws. */
  function Member(ty: FieldType, name: string): (r: Result<(string, FieldType), ApplyError>)
    ensures r.Failure? <==> !HasMember(ty, name)
    ensures r.Failure? ==> r.error == PropertyNotFound(name)
    ensures r.Success? ==> r.value in ty.members && EqualsIgnoreCase(r.value.0, name)
  {
    if !ty.TObject? then Failure(PropertyNotFound(name))
    else
      match FindMember(ty.members, name, 0)
      case None => Failure(PropertyNotFound(name))
      case Some(j) => Success(ty.members[j])
  }

  /** One step of the `Aggregate`: extend what was resolved so far by one member. */
  function ResolveStep(sofar: Result<(seq<string>, FieldType), ApplyError>, name: string): Result<(seq<string>, FieldType), ApplyError> {
    var done :- sofar;
    var member :- Member(done.1, name);
    Success((done.0 + [member.0], member.1))
  }

  /** `Aggregate` read literally: a left fold of `ResolveStep` over the path. */
  function Aggregate(ty: FieldType, path: seq<string>): Result<(seq<string>, FieldType), ApplyError>
    decreases |path|
  {
    if |path| == 0 then Success(([], ty))
    else ResolveStep(Aggregate(ty, path[..|path| - 1]), path[|path| - 1])
  }

  /** Resolving one more segment is one more `ResolveStep`: the type reached is the
      declared type of the member the last segment names. */
  lemma {:induction false} ResolveExtend(ty: FieldType, path: seq<string>, name: string)
    ensures Resolve(ty, path + [name]) == ResolveStep(Resolve(ty, path), name)
    decreases |path|
  {
    var longer := path + [name];
    if |path| == 0 {
      assert longer == [name] && longer[1..] == [];
      var member := Member(ty, name);
      if member.Success? {
        assert [member.value.0] + [] == [] + [member.value.0];
      }
    } else {
      assert longer[0] == path[0] && longer[1..] == path[1..] + [name];
      var member := Member(ty, path[0]);
      if member.Success? {
        ResolveExtend(member.value.1, path[1..], name);
        var rest := Resolve(member.value.1, path[1..]);
        if rest.Success? {
          var step := Member(rest.value.1, name);
          if step.Success? {
            assert [member.value.0] + (rest.value.0 + [step.value.0]) == ([member.value.0] + rest.value.0) + [step.value.0];
          }
        }
      }
    }
  }

  /** The recursive `Resolve` is the `Aggregate` fold. */
  lemma {:induction false} ResolveIsAggregate(ty: FieldType, path: seq<string>)
    ensures Resolve(ty, path) == Aggregate(ty, path)
    decreases |path|
  {
    if |path| > 0 {
      var init := path[..|path| - 1];
      assert path == init + [path[|path| - 1]];
      ResolveIsAggregate(ty, init);
      ResolveExtend(ty, init, path[|path| - 1]);
    }
  }

  /** Segment `i` is where resolution breaks: the segments before it resolve, and the
      type they reach has no member of that name. */
  predicate BreaksAt(ty: FieldType, path: seq<string>, i: nat) {
    && i < |path|
    && Resolve(ty, path[..i]).Success?
    && !HasMember(Resolve(ty, path[..i]).value.1, path[i])
  }

  /** Resolution fails exactly when some segment names no member of the type reached
      before it, and then it throws for that segment. */
  lemma {:induction false} ResolveFails(ty: FieldType, path: seq<string>)
    ensures Resolve(ty, path).Failure? <==> exists i: nat :: BreaksAt(ty, path, i)
    ensures forall i: nat :: BreaksAt(ty, path, i) ==> Resolve(ty, path) == Failure(PropertyNotFound(path[i]))
    decreases |path|
  {
    if |path| > 0 {
      var n := |path| - 1;
      var init := path[..n];
      assert path == init + [path[n]];
      ResolveExtend(ty, init, path[n]);
      ResolveFails(ty, init);
      forall i: nat | i < n
        ensures BreaksAt(ty, path, i) <==> BreaksAt(ty, init, i)
      {
        assert path[..i] == init[..i];
      }
      if Resolve(ty, init).Failure? {
        var i: nat :| BreaksAt(ty, init, i);
        assert BreaksAt(ty, path, i);
        assert !BreaksAt(ty, path, n);
        forall j: nat | BreaksAt(ty, path, j)
          ensures Resolve(ty, path) == Failure(PropertyNotFound(path[j]))
        {
          assert BreaksAt(ty, init, j) && init[j] == path[j];
        }
      } else {
        assert path[..n] == init;
        if Member(Resolve(ty, init).value.1, path[n]).Failure? {
          assert BreaksAt(ty, path, n);
        }
      }
    }
  }

  /** The literal converted to the property's type: strings are taken as they are, the
      other scalar types go through the library parsers, and nothing converts to an
      object or a collection. */
  function Coerce(ty: FieldType, text: string, coercions: Coercions): (r: Option<Value>)
    ensures ty == TString ==> r == Some(Str(text))
    ensures ty.TObject? || ty.TCollection? ==> r.None?
    ensures r.Some? ==> r.value != Null && Conforms(r.value, ty)
  {
    match ty
    case TString => Some(Str(text))
    case TNumber =>
      (match coercions.number(text)
       case Some(n) => Some(Num(n))
       case None => None)
    case TDate =>
      (match coercions.date(text)
       case Some(t) => Some(Date(t))
       case None => None)
    case TBool =>
      (match coercions.boolean(text)
       case Some(b) => Some(Bool(b))
       case None => None)
    case TObject(_) => None
    case TCollection => None
  }

  /** Whether `Expression.Equal`, `GreaterThan`, ... or the call to `StartsWith`,
      `EndsWith`, `Contains` can be built for a property of this type. */
  predicate OperatorDefined(ty: FieldType, op: FilterOperator) {
    match op
    case Eq => ty.TString? || ty.TNumber? || ty.TDate? || ty.TBool?
    case Neq => ty.TString? || ty.TNumber? || ty.TDate? || ty.TBool?
    case Gt => ty.TNumber? || ty.TDate?
    case Gteq => ty.TNumber? || ty.TDate?
    case Lt => ty.TNumber? || ty.TDate?
    case Lteq => ty.TNumber? || ty.TDate?
    case Sw => ty.TString?
    case Ew => ty.TString?
    case Like => ty.TString?
  }

  /** One iteration of either apply loop up to the `switch`: the member access, the
      conversion, then the comparison, each of which may throw in that order. */
  function CompileCriterion(schema: FieldType, c: FilterCriteria, coercions: Coercions): (r: Result<Check, ApplyError>)
    ensures r.Success? ==> r.value.op == c.operator && |r.value.names| == |c.propertyPath|
    ensures r.Success? ==> r.value.constant != Null
  {
    var resolved :- Resolve(schema, c.propertyPath);
    var constant := Coerce(resolved.1, c.value, coercions);
    if constant.None? then Failure(ValueNotConvertible(c.value))
    else if !OperatorDefined(resolved.1, c.operator) then Failure(OperatorNotDefined(c.operator))
    else Success(Check(resolved.0, c.operator, constant.value))
  }

  /** The member access throws first, then the conversion, then the comparison; a bound
      criterion holds the declared names `Resolve` found and the converted literal. */
  lemma CompileCriterionOrder(schema: FieldType, c: FilterCriteria, coercions: Coercions)
    ensures var r := CompileCriterion(schema, c, coercions);
      var resolved := Resolve(schema, c.propertyPath);
      && (resolved.Failure? ==> r == Failure(resolved.error))
      && (resolved.Success? ==>
            var constant := Coerce(resolved.value.1, c.value, coercions);
            && (constant.None? ==> r == Failure(ValueNotConvertible(c.value)))
            && (constant.Some? && !OperatorDefined(resolved.value.1, c.operator) ==>
                  r == Failure(OperatorNotDefined(c.operator)))
            && (r.Success? ==> r.value == Check(resolved.value.0, c.operator, constant.value)))
  {
  }

  // ---------------------------------------------------------------------------
  // Evaluating a check on an element
  // ---------------------------------------------------------------------------

  /** A value fits a type: `Null` fits every type (a missing reference or a SQL null);
      an object lists exactly the declared members, in order, each fitting its type. */
  predicate Conforms(v: Value, ty: FieldType) {
    match v
    case Null => true
    case Str(_) => ty == TString
    case Num(_) => ty == TNumber
    case Date(_) => ty == TDate
    case Bool(_) => ty == TBool
    case Obj(members) =>
      && ty.TObject?
      && |members| == |ty.members|
      && forall i :: 0 <= i < |members| ==>
           members[i].0 == ty.members[i].0 && Conforms(members[i].1, ty.members[i].1)
    case List(_) => ty == TCollection
  }

  /** The value at the end of the member path; `Null` once the path runs through a null
      (or through something that is not an object). */
  function Navigate(v: Value, names: seq<string>): Value
    decreases |names|
  {
    if |names| == 0 then v
    else if !v.Obj? then Null
    else
      match FindExact(v.members, names[0], 0)
      case None => Null
      case Some(j) => Navigate(v.members[j].1, names[1..])
  }

  predicate Ordered(v: Value, k: Value) {
    (v.Num? && k.Num?) || (v.Date? && k.Date?)
  }

  function Key(v: Value): int
    requires v.Num? || v.Date?
  {
    if v.Num? then v.n else v.ticks
  }

  /** The comparison `op` between the value reached and the literal. Ordering holds only
      between two numbers or two dates; the string operators only between two strings. */
  predicate Satisfies(v: Value, op: FilterOperator, k: Value) {
    match op
    case Eq => v == k
    case Neq => v != k
    case Gt => Ordered(v, k) && Key(v) > Key(k)
    case Gteq => Ordered(v, k) && Key(v) >= Key(k)
    case Lt => Ordered(v, k) && Key(v) < Key(k)
    case Lteq => Ordered(v, k) && Key(v) <= Key(k)
    case Sw => v.Str? && k.Str? && IsPrefix(k.s, v.s)
    case Ew => v.Str? && k.Str? && IsSuffix(k.s, v.s)
    case Like => v.Str? && k.Str? && Contains(v.s, k.s)
  }

  predicate Holds(x: Value, check: Check) {
    Satisfies(Navigate(x, check.names), check.op, check.constant)
  }

  predicate Eval(e: Expr, x: Value) {
    match e
    case Leaf(check) => Holds(x, check)
    case OrElse(l, r) => Eval(l, x) || Eval(r, x)
    case AndAlso(l, r) => Eval(l, x) && Eval(r, x)
  }

  /** The elements of `s` whose flag in `mask` is set, in order. */
  function Keep<T>(s: seq<T>, mask: seq<bool>): (r: seq<T>)
    requires |mask| == |s|
    ensures |r| <= |s|
    decreases |s|
  {
    if |s| == 0 then []
    else
      var init := Keep(s[..|s| - 1], mask[..|s| - 1]);
      if mask[|s| - 1] then init + [s[|s| - 1]] else init
  }

  /** The positions whose flag is set: strictly increasing, and exactly the set ones. */
  function KeptIndices(mask: seq<bool>): (idx: seq<nat>)
    ensures forall i :: 0 <= i < |idx| ==> idx[i] < |mask|
    ensures forall i, j :: 0 <= i < j < |idx| ==> idx[i] < idx[j]
    ensures forall k :: 0 <= k < |mask| ==> (k in idx <==> mask[k])
    decreases |mask|
  {
    if |mask| == 0 then []
    else
      var n := |mask| - 1;
      var init := KeptIndices(mask[..n]);
      assert forall k :: 0 <= k < n ==> mask[..n][k] == mask[k];
      if mask[n] then init + [n] else init
  }

  /** `Keep` reads `s` at `KeptIndices`. */
  lemma {:induction false} KeepAtIndices<T>(s: seq<T>, mask: seq<bool>)
    requires |mask| == |s|
    ensures |Keep(s, mask)| == |KeptIndices(mask)|
    ensures forall i :: 0 <= i < |Keep(s, mask)| ==> Keep(s, mask)[i] == s[KeptIndices(mask)[i]]
    decreases |s|
  {
    if |s| > 0 {
      var n := |s| - 1;
      KeepAtIndices(s[..n], mask[..n]);
    }
  }

  /** An element is kept exactly when it sits at a position whose flag is set. */
  lemma {:induction false} KeepMembership<T>(s: seq<T>, mask: seq<bool>, x: T)
    requires |mask| == |s|
    ensures x in Keep(s, mask) <==> exists i :: 0 <= i < |s| && mask[i] && s[i] == x
    decreases |s|
  {
    if |s| > 0 {
      var n := |s| - 1;
      KeepMembership(s[..n], mask[..n], x);
      if i :| 0 <= i < |s| && mask[i] && s[i] == x {
        if i < n {
          assert mask[..n][i] && s[..n][i] == x;
        }
      }
    }
  }

  /** The predicate evaluated on every element. */
  function Mask(source: seq<Value>, e: Expr): (m: seq<bool>)
    ensures |m| == |source|
    ensures forall i :: 0 <= i < |source| ==> m[i] == Eval(e, source[i])
  {
    seq(|source|, i requires 0 <= i < |source| => Eval(e, source[i]))
  }

  /** `source.Where(lambda)`: the elements that satisfy the predicate. */
  function Select(source: seq<Value>, e: Expr): seq<Value> {
    Keep(source, Mask(source, e))
  }

  /** An element is kept exactly when it is in the source and satisfies the predicate. */
  lemma SelectMembership(source: seq<Value>, e: Expr, x: Value)
    ensures x in Select(source, e) <==> x in source && Eval(e, x)
  {
    KeepMembership(source, Mask(source, e), x);
    if x in source && Eval(e, x) {
      var i :| 0 <= i < |source| && source[i] == x;
      assert Mask(source, e)[i];
    }
  }

  /** The result of `Select` is the source read at strictly increasing positions, and those
      positions are exactly the ones whose element satisfies the predicate: nothing is
      reordered, duplicated or dropped. */
  lemma SelectIsOrderedSubsequence(source: seq<Value>, e: Expr)
    ensures var r, idx := Select(source, e), KeptIndices(Mask(source, e));
      && |r| == |idx|
      && (forall i :: 0 <= i < |r| ==> idx[i] < |source| && r[i] == source[idx[i]])
      && (forall i, j :: 0 <= i < j < |idx| ==> idx[i] < idx[j])
      && (forall k :: 0 <= k < |source| ==> (k in idx <==> Eval(e, source[k])))
  {
    KeepAtIndices(source, Mask(source, e));
  }

  // ---------------------------------------------------------------------------
  // Typing: a bound check compares values of one type
  // ---------------------------------------------------------------------------

  /** In an object that fits its type, looking a declared member up by its exact name
      finds the position the case-insensitive resolution found. */
  lemma ExactFindsResolved(members: seq<(string, Value)>, types: seq<(string, FieldType)>, name: string)
    requires |members| == |types|
    requires forall i :: 0 <= i < |members| ==> members[i].0 == types[i].0
    requires FindMember(types, name, 0).Some?
    ensures FindExact(members, types[FindMember(types, name, 0).value].0, 0) == FindMember(types, name, 0)
  {
    var j := FindMember(types, name, 0).value;
    forall i | 0 <= i < j
      ensures members[i].0 != types[j].0
    {
      assert !EqualsIgnoreCase(types[i].0, name);
    }
    FindExactAt(members, types[j].0, 0, j);
  }

  /** On an element that fits the schema, the member path of a resolved property reaches
      a value of the resolved type (or `Null`). */
  lemma {:induction false} NavigateConforms(x: Value, schema: FieldType, path: seq<string>)
    requires Conforms(x, schema)
    requires Resolve(schema, path).Success?
    ensures Conforms(Navigate(x, Resolve(schema, path).value.0), Resolve(schema, path).value.1)
    decreases |path|
  {
    if |path| > 0 && x.Obj? {
      var j := FindMember(schema.members, path[0], 0).value;
      var member := schema.members[j];
      var names := Resolve(schema, path).value.0;
      ExactFindsResolved(x.members, schema.members, path[0]);
      assert names[0] == member.0;
      assert names[1..] == Resolve(member.1, path[1..]).value.0;
      NavigateConforms(x.members[j].1, member.1, path[1..]);
    }
  }

  /** A bound check on an element that fits the schema compares the reached value with a
      literal of the same type, and the operator is one that type supports. */
  lemma CheckWellTyped(schema: FieldType, c: FilterCriteria, coercions: Coercions, x: Value)
    requires Conforms(x, schema)
    requires CompileCriterion(schema, c, coercions).Success?
    ensures var check := CompileCriterion(schema, c, coercions).value;
      exists ty :: Conforms(Navigate(x, check.names), ty) && Conforms(check.constant, ty) && OperatorDefined(ty, check.op)
  {
    var resolved := Resolve(schema, c.propertyPath).value;
    NavigateConforms(x, schema, c.propertyPath);
    var check := CompileCriterion(schema, c, coercions).value;
    assert Conforms(check.constant, resolved.1) && OperatorDefined(resolved.1, check.op);
  }

  // ---------------------------------------------------------------------------
  // V1: a flat list folded left to right
  // ---------------------------------------------------------------------------

  /** A bound V1 criterion and its OR flag. */
  datatype Term = Term(check: Check, isOr: bool)

  /** Binds every criterion in order; the first failure is the one thrown. */
  function CompileTerms(schema: FieldType, filters: seq<FilterCriteria>, coercions: Coercions): (r: Result<seq<Term>, ApplyError>)
    ensures r.Success? ==> |r.value| == |filters|
    decreases |filters|
  {
    if |filters| == 0 then Success([])
    else
      var init :- CompileTerms(schema, filters[..|filters| - 1], coercions);
      var check :- CompileCriterion(schema, filters[|filters| - 1], coercions);
      Success(init + [Term(check, filters[|filters| - 1].isOrCondition)])
  }

  /** Each bound term keeps its criterion's operator and OR flag, in order. */
  lemma {:induction false} CompileTermsKeepsFlags(schema: FieldType, filters: seq<FilterCriteria>, coercions: Coercions)
    requires CompileTerms(schema, filters, coercions).Success?
    ensures var terms := CompileTerms(schema, filters, coercions).value;
      forall i :: 0 <= i < |filters| ==>
        terms[i].isOr == filters[i].isOrCondition && terms[i].check.op == filters[i].operator
    decreases |filters|
  {
    if |filters| > 0 {
      var n := |filters| - 1;
      CompileTermsKeepsFlags(schema, filters[..n], coercions);
    }
  }

  /** One more criterion after a failure changes nothing. */
  lemma TermsFailureStep(schema: FieldType, filters: seq<FilterCriteria>, coercions: Coercions, n: nat)
    requires n < |filters|
    requires CompileTerms(schema, filters[..n], coercions).Failure?
    ensures CompileTerms(schema, filters[..n + 1], coercions) == CompileTerms(schema, filters[..n], coercions)
  {
    assert filters[..n + 1][..n] == filters[..n];
  }

  lemma {:induction false} TermsFailureIsFinal(schema: FieldType, filters: seq<FilterCriteria>, coercions: Coercions, n: nat)
    requires n <= |filters|
    requires CompileTerms(schema, filters[..n], coercions).Failure?
    ensures CompileTerms(schema, filters, coercions) == CompileTerms(schema, filters[..n], coercions)
    decreases |filters| - n
  {
    if n < |filters| {
      TermsFailureStep(schema, filters, coercions, n);
      TermsFailureIsFinal(schema, filters, coercions, n + 1);
    } else {
      assert filters[..n] == filters;
    }
  }

  /** The V1 fold: the first term starts the predicate, and each later term is joined to
      everything before it with OR when it carries the flag and AND otherwise. */
  function FoldV1(terms: seq<Term>): Expr
    requires |terms| > 0
    decreases |terms|
  {
    if |terms| == 1 then Leaf(terms[0].check)
    else
      var acc := FoldV1(terms[..|terms| - 1]);
      var last := terms[|terms| - 1];
      if last.isOr then OrElse(acc, Leaf(last.check)) else AndAlso(acc, Leaf(last.check))
  }

  /** Term `j` opens a disjunct that the element satisfies: `j` is the first term or an OR
      term, it holds, and every AND term after it holds too. */
  predicate DisjunctHolds(terms: seq<Term>, x: Value, j: nat)
    requires j < |terms|
  {
    && (j == 0 || terms[j].isOr)
    && Holds(x, terms[j].check)
    && forall k :: j < k < |terms| && !terms[k].isOr ==> Holds(x, terms[k].check)
  }

  /** Some term opens a disjunct the element satisfies. */
  predicate SomeDisjunctHolds(terms: seq<Term>, x: Value) {
    exists j :: 0 <= j < |terms| && DisjunctHolds(terms, x, j)
  }

  lemma DisjunctExtend(terms: seq<Term>, x: Value, j: nat)
    requires j < |terms| - 1
    ensures DisjunctHolds(terms, x, j) <==>
      DisjunctHolds(terms[..|terms| - 1], x, j) && (terms[|terms| - 1].isOr || Holds(x, terms[|terms| - 1].check))
  {
    var n := |terms| - 1;
    assert forall k :: j < k < n ==> terms[..n][k] == terms[k];
  }

  /** Appending a term: an OR term adds itself as a new disjunct, an AND term must hold
      on top of whatever disjunct held before. */
  lemma WitnessStep(terms: seq<Term>, x: Value)
    requires |terms| > 1
    ensures var init, last := terms[..|terms| - 1], terms[|terms| - 1];
      SomeDisjunctHolds(terms, x) <==>
        if last.isOr then SomeDisjunctHolds(init, x) || Holds(x, last.check)
        else SomeDisjunctHolds(init, x) && Holds(x, last.check)
  {
    var n := |terms| - 1;
    var init, last := terms[..n], terms[n];
    if SomeDisjunctHolds(terms, x) {
      var j :| 0 <= j < |terms| && DisjunctHolds(terms, x, j);
      if j < n {
        DisjunctExtend(terms, x, j);
        assert DisjunctHolds(init, x, j);
      }
    }
    if last.isOr && Holds(x, last.check) {
      assert DisjunctHolds(terms, x, n);
    } else if SomeDisjunctHolds(init, x) && (last.isOr || Holds(x, last.check)) {
      var j :| 0 <= j < n && DisjunctHolds(init, x, j);
      DisjunctExtend(terms, x, j);
    }
  }

  /** What the left fold means: an element is kept exactly when some term opens a
      disjunct it satisfies. The first term's OR flag plays no part. */
  lemma {:induction false} FoldV1Meaning(terms: seq<Term>, x: Value)
    requires |terms| > 0
    ensures Eval(FoldV1(terms), x) <==> SomeDisjunctHolds(terms, x)
    decreases |terms|
  {
    if |terms| == 1 {
      if Holds(x, terms[0].check) {
        assert DisjunctHolds(terms, x, 0);
      }
    } else {
      FoldV1Meaning(terms[..|terms| - 1], x);
      WitnessStep(terms, x);
    }
  }

  /** With no OR flag after the first term, the fold is the conjunction of all terms. */
  lemma AllAndMeansEvery(terms: seq<Term>, x: Value)
    requires |terms| > 0
    requires forall k :: 0 < k < |terms| ==> !terms[k].isOr
    ensures Eval(FoldV1(terms), x) <==> forall k :: 0 <= k < |terms| ==> Holds(x, terms[k].check)
  {
    FoldV1Meaning(terms, x);
    if forall k :: 0 <= k < |terms| ==> Holds(x, terms[k].check) {
      assert DisjunctHolds(terms, x, 0);
    }
  }

  /** With every term after the first flagged OR, the fold is the disjunction of all terms. */
  lemma AllOrMeansSome(terms: seq<Term>, x: Value)
    requires |terms| > 0
    requires forall k :: 0 < k < |terms| ==> terms[k].isOr
    ensures Eval(FoldV1(terms), x) <==> exists k :: 0 <= k < |terms| && Holds(x, terms[k].check)
  {
    FoldV1Meaning(terms, x);
    if k :| 0 <= k < |terms| && Holds(x, terms[k].check) {
      assert DisjunctHolds(terms, x, k);
    }
  }

  /** `[A, B(or), C]` reads as `(A || B) && C`. */
  lemma ThreeTermsExample(a: Check, b: Check, c: Check, flagA: bool, x: Value)
    ensures Eval(FoldV1([Term(a, flagA), Term(b, true), Term(c, false)]), x)
      <==> (Holds(x, a) || Holds(x, b)) && Holds(x, c)
  {
    var terms := [Term(a, flagA), Term(b, true), Term(c, false)];
    assert terms[..2] == [Term(a, flagA), Term(b, true)];
    assert terms[..2][..1] == [Term(a, flagA)];
    assert FoldV1(terms[..2]) == OrElse(Leaf(a), Leaf(b));
    assert FoldV1(terms) == AndAlso(OrElse(Leaf(a), Leaf(b)), Leaf(c));
    assert Eval(OrElse(Leaf(a), Leaf(b)), x) == (Eval(Leaf(a), x) || Eval(Leaf(b), x));
  }

  /** `ApplyFiltersV1` as a function. */
  function ApplyV1(source: seq<Value>, filters: seq<FilterCriteria>, schema: FieldType, coercions: Coercions): Result<seq<Value>, ApplyError> {
    if |filters| == 0 then Success(source)
    else
      var terms :- CompileTerms(schema, filters, coercions);
      Success(Select(source, FoldV1(terms)))
  }

  lemma TermsStep(schema: FieldType, filters: seq<FilterCriteria>, coercions: Coercions, i: nat, terms: seq<Term>)
    requires i < |filters| && CompileTerms(schema, filters[..i], coercions) == Success(terms)
    ensures var check := CompileCriterion(schema, filters[i], coercions);
      && (check.Success? ==>
            CompileTerms(schema, filters[..i + 1], coercions) == Success(terms + [Term(check.value, filters[i].isOrCondition)]))
      && (check.Failure? ==> CompileTerms(schema, filters, coercions) == Failure(check.error))
  {
    assert filters[..i + 1][..i] == filters[..i];
    if CompileCriterion(schema, filters[i], coercions).Failure? {
      TermsFailureIsFinal(schema, filters, coercions, i + 1);
    }
  }

  lemma FoldV1Snoc(terms: seq<Term>, t: Term)
    requires |terms| > 0
    ensures FoldV1(terms + [t]) ==
      if t.isOr then OrElse(FoldV1(terms), Leaf(t.check)) else AndAlso(FoldV1(terms), Leaf(t.check))
  {
    assert (terms + [t])[..|terms|] == terms;
  }

  method ApplyFiltersV1(source: seq<Value>, filters: seq<FilterCriteria>, schema: FieldType, coercions: Coercions)
    returns (result: Result<seq<Value>, ApplyError>)
    ensures |filters| == 0 ==> result == Success(source)
    ensures result == ApplyV1(source, filters, schema, coercions)
  {
    if |filters| == 0 {
      return Success(source);
    }
    var combined: Option<Expr> := None;
    ghost var terms: seq<Term> := [];
    for i := 0 to |filters|
      invariant CompileTerms(schema, filters[..i], coercions) == Success(terms)
      invariant |terms| == i
      invariant combined == if i == 0 then None else Some(FoldV1(terms))
    {
      TermsStep(schema, filters, coercions, i, terms);
      var filter := filters[i];
      var check := CompileCriterion(schema, filter, coercions);
      if check.Failure? {
        V1Fails(source, filters, schema, coercions, check.error);
        return Failure(check.error);
      }
      var comparison := Leaf(check.value);
      ghost var term := Term(check.value, filter.isOrCondition);
      if i > 0 {
        FoldV1Snoc(terms, term);
      }
      if combined.None? {
        combined := Some(comparison);
      } else if filter.isOrCondition {
        combined := Some(OrElse(combined.value, comparison));
      } else {
        combined := Some(AndAlso(combined.value, comparison));
      }
      terms := terms + [term];
    }
    assert filters[..|filters|] == filters;
    V1Succeeds(source, filters, schema, coercions, terms);
    result := Success(Select(source, combined.value));
  }

  lemma V1Fails(source: seq<Value>, filters: seq<FilterCriteria>, schema: FieldType, coercions: Coercions, e: ApplyError)
    requires |filters| > 0 && CompileTerms(schema, filters, coercions) == Failure(e)
    ensures ApplyV1(source, filters, schema, coercions) == Failure(e)
  {
  }

  lemma V1Succeeds(source: seq<Value>, filters: seq<FilterCriteria>, schema: FieldType, coercions: Coercions, terms: seq<Term>)
    requires |filters| > 0 && CompileTerms(schema, filters, coercions) == Success(terms)
    ensures |terms| > 0 && ApplyV1(source, filters, schema, coercions) == Success(Select(source, FoldV1(terms)))
  {
  }

  /** A successful V1 apply keeps, in source order, exactly the elements for which some
      term opens a satisfied disjunct. */
  lemma ApplyV1Keeps(source: seq<Value>, filters: seq<FilterCriteria>, schema: FieldType, coercions: Coercions, x: Value)
    requires |filters| > 0
    requires ApplyV1(source, filters, schema, coercions).Success?
    ensures var terms := CompileTerms(schema, filters, coercions).value;
      x in ApplyV1(source, filters, schema, coercions).value <==> x in source && SomeDisjunctHolds(terms, x)
  {
    var terms := CompileTerms(schema, filters, coercions).value;
    FoldV1Meaning(terms, x);
    assert ApplyV1(source, filters, schema, coercions).value == Select(source, FoldV1(terms));
    SelectMembership(source, FoldV1(terms), x);
  }

  // ---------------------------------------------------------------------------
  // V2: OR within a group, AND across groups
  // ---------------------------------------------------------------------------

  /** Binds the criteria of one group in order. */
  function CompileChecks(schema: FieldType, group: seq<FilterCriteria>, coercions: Coercions): (r: Result<seq<Check>, ApplyError>)
    ensures r.Success? ==> |r.value| == |group|
    decreases |group|
  {
    if |group| == 0 then Success([])
    else
      var init :- CompileChecks(schema, group[..|group| - 1], coercions);
      var check :- CompileCriterion(schema, group[|group| - 1], coercions);
      Success(init + [check])
  }

  /** Binds every group in order. */
  function CompileGroups(schema: FieldType, groups: seq<seq<FilterCriteria>>, coercions: Coercions): (r: Result<seq<seq<Check>>, ApplyError>)
    ensures r.Success? ==> |r.value| == |groups|
    ensures r.Success? ==> forall i :: 0 <= i < |groups| ==> |r.value[i]| == |groups[i]|
    decreases |groups|
  {
    if |groups| == 0 then Success([])
    else
      var init :- CompileGroups(schema, groups[..|groups| - 1], coercions);
      var checks :- CompileChecks(schema, groups[|groups| - 1], coercions);
      Success(init + [checks])
  }

  /** One more criterion after a failure changes nothing. */
  lemma ChecksFailureStep(schema: FieldType, group: seq<FilterCriteria>, coercions: Coercions, n: nat)
    requires n < |group|
    requires CompileChecks(schema, group[..n], coercions).Failure?
    ensures CompileChecks(schema, group[..n + 1], coercions) == CompileChecks(schema, group[..n], coercions)
  {
    assert group[..n + 1][..n] == group[..n];
  }

  lemma {:induction false} ChecksFailureIsFinal(schema: FieldType, group: seq<FilterCriteria>, coercions: Coercions, n: nat)
    requires n <= |group|
    requires CompileChecks(schema, group[..n], coercions).Failure?
    ensures CompileChecks(schema, group, coercions) == CompileChecks(schema, group[..n], coercions)
    decreases |group| - n
  {
    if n < |group| {
      ChecksFailureStep(schema, group, coercions, n);
      ChecksFailureIsFinal(schema, group, coercions, n + 1);
    } else {
      assert group[..n] == group;
    }
  }

  lemma {:induction false} GroupsFailureIsFinal(schema: FieldType, groups: seq<seq<FilterCriteria>>, coercions: Coercions, n: nat)
    requires n <= |groups|
    requires CompileGroups(schema, groups[..n], coercions).Failure?
    ensures CompileGroups(schema, groups, coercions) == CompileGroups(schema, groups[..n], coercions)
    decreases |groups| - n
  {
    if n < |groups| {
      assert groups[..n + 1][..n] == groups[..n];
      GroupsFailureIsFinal(schema, groups, coercions, n + 1);
    } else {
      assert groups[..n] == groups;
    }
  }

  /** The checks of a group joined with OR, left to right. */
  function FoldOr(checks: seq<Check>): Expr
    requires |checks| > 0
    decreases |checks|
  {
    if |checks| == 1 then Leaf(checks[0])
    else OrElse(FoldOr(checks[..|checks| - 1]), Leaf(checks[|checks| - 1]))
  }

  /** The groups joined with AND, left to right, skipping empty groups; `None` when no
      group has a check (the tree stays null). */
  function FoldAnd(groups: seq<seq<Check>>): Option<Expr>
    decreases |groups|
  {
    if |groups| == 0 then None
    else
      var acc := FoldAnd(groups[..|groups| - 1]);
      var last := groups[|groups| - 1];
      if |last| == 0 then acc
      else if acc.None? then Some(FoldOr(last))
      else Some(AndAlso(acc.value, FoldOr(last)))
  }

  /** A group's disjunction holds exactly when one of its checks holds. */
  lemma {:induction false} FoldOrMeaning(checks: seq<Check>, x: Value)
    requires |checks| > 0
    ensures Eval(FoldOr(checks), x) <==> exists i :: 0 <= i < |checks| && Holds(x, checks[i])
    decreases |checks|
  {
    if |checks| > 1 {
      var n := |checks| - 1;
      FoldOrMeaning(checks[..n], x);
      if i :| 0 <= i < |checks| && Holds(x, checks[i]) {
        if i < n {
          assert checks[..n][i] == checks[i];
        }
      }
    }
  }

  /** Every non-empty group has a check the element satisfies. */
  predicate EveryGroupMet(groups: seq<seq<Check>>, x: Value) {
    forall i :: 0 <= i < |groups| && |groups[i]| > 0 ==>
      exists j :: 0 <= j < |groups[i]| && Holds(x, groups[i][j])
  }

  /** What the V2 fold means: there is a predicate exactly when some group is non-empty,
      and it holds exactly when every non-empty group has a satisfied check. */
  lemma {:induction false} FoldAndMeaning(groups: seq<seq<Check>>, x: Value)
    ensures FoldAnd(groups).None? <==> forall i :: 0 <= i < |groups| ==> |groups[i]| == 0
    ensures FoldAnd(groups).Some? ==> (Eval(FoldAnd(groups).value, x) <==> EveryGroupMet(groups, x))
    decreases |groups|
  {
    if |groups| > 0 {
      var n := |groups| - 1;
      var init := groups[..n];
      var last := groups[n];
      FoldAndMeaning(init, x);
      GroupsSnoc(groups, x);
      if |last| > 0 {
        FoldOrMeaning(last, x);
      }
    }
  }

  lemma GroupsSnoc(groups: seq<seq<Check>>, x: Value)
    requires |groups| > 0
    ensures var init, last := groups[..|groups| - 1], groups[|groups| - 1];
      && ((forall i :: 0 <= i < |groups| ==> |groups[i]| == 0) <==>
            (forall i :: 0 <= i < |init| ==> |init[i]| == 0) && |last| == 0)
      && (EveryGroupMet(groups, x) <==>
            EveryGroupMet(init, x) && (|last| > 0 ==> exists j :: 0 <= j < |last| && Holds(x, last[j])))
  {
    var n := |groups| - 1;
    assert forall i :: 0 <= i < n ==> groups[..n][i] == groups[i];
  }

  /** `ApplyFiltersV2` as a function. */
  function ApplyV2(source: seq<Value>, groups: seq<seq<FilterCriteria>>, schema: FieldType, coercions: Coercions): Result<seq<Value>, ApplyError> {
    if |groups| == 0 then Success(source)
    else
      var compiled :- CompileGroups(schema, groups, coercions);
      match FoldAnd(compiled)
      case None => Failure(NoPredicate)
      case Some(e) => Success(Select(source, e))
  }

  lemma ChecksStep(schema: FieldType, group: seq<FilterCriteria>, coercions: Coercions, j: nat, checks: seq<Check>)
    requires j < |group| && CompileChecks(schema, group[..j], coercions) == Success(checks)
    ensures var check := CompileCriterion(schema, group[j], coercions);
      && (check.Success? ==> CompileChecks(schema, group[..j + 1], coercions) == Success(checks + [check.value]))
      && (check.Failure? ==> CompileChecks(schema, group, coercions) == Failure(check.error))
  {
    assert group[..j + 1][..j] == group[..j];
    if CompileCriterion(schema, group[j], coercions).Failure? {
      ChecksFailureIsFinal(schema, group, coercions, j + 1);
    }
  }

  lemma GroupsStep(schema: FieldType, groups: seq<seq<FilterCriteria>>, coercions: Coercions, i: nat, compiled: seq<seq<Check>>)
    requires i < |groups| && CompileGroups(schema, groups[..i], coercions) == Success(compiled)
    ensures var checks := CompileChecks(schema, groups[i], coercions);
      && (checks.Success? ==> CompileGroups(schema, groups[..i + 1], coercions) == Success(compiled + [checks.value]))
      && (checks.Failure? ==> CompileGroups(schema, groups, coercions) == Failure(checks.error))
  {
    assert groups[..i + 1][..i] == groups[..i];
    if CompileChecks(schema, groups[i], coercions).Failure? {
      GroupsFailureIsFinal(schema, groups, coercions, i + 1);
    }
  }

  lemma FoldOrSnoc(checks: seq<Check>, c: Check)
    requires |checks| > 0
    ensures FoldOr(checks + [c]) == OrElse(FoldOr(checks), Leaf(c))
  {
    assert (checks + [c])[..|checks|] == checks;
  }

  lemma FoldAndSnoc(groups: seq<seq<Check>>, g: seq<Check>)
    ensures FoldAnd(groups + [g]) ==
      if |g| == 0 then FoldAnd(groups)
      else if FoldAnd(groups).None? then Some(FoldOr(g))
      else Some(AndAlso(FoldAnd(groups).value, FoldOr(g)))
  {
    assert (groups + [g])[..|groups|] == groups;
  }

  /** The inner loop of `ApplyFiltersV2`: one group's criteria joined with OR, or no
      expression for an empty group. */
  method CombineOrGroup(orGroup: seq<FilterCriteria>, schema: FieldType, coercions: Coercions)
    returns (result: Result<Option<Expr>, ApplyError>)
    ensures CompileChecks(schema, orGroup, coercions).Failure? ==>
      result == Failure(CompileChecks(schema, orGroup, coercions).error)
    ensures CompileChecks(schema, orGroup, coercions).Success? ==>
      result == Success(if |orGroup| == 0 then None else Some(FoldOr(CompileChecks(schema, orGroup, coercions).value)))
  {
    var combinedOr: Option<Expr> := None;
    ghost var checks: seq<Check> := [];
    for j := 0 to |orGroup|
      invariant CompileChecks(schema, orGroup[..j], coercions) == Success(checks)
      invariant |checks| == j
      invariant combinedOr == if j == 0 then None else Some(FoldOr(checks))
    {
      ChecksStep(schema, orGroup, coercions, j, checks);
      var check := CompileCriterion(schema, orGroup[j], coercions);
      if check.Failure? {
        return Failure(check.error);
      }
      var comparison := Leaf(check.value);
      if combinedOr.None? {
        combinedOr := Some(comparison);
      } else {
        FoldOrSnoc(checks, check.value);
        combinedOr := Some(OrElse(combinedOr.value, comparison));
      }
      checks := checks + [check.value];
    }
    assert orGroup[..|orGroup|] == orGroup;
    result := Success(combinedOr);
  }

  method ApplyFiltersV2(source: seq<Value>, groups: seq<seq<FilterCriteria>>, schema: FieldType, coercions: Coercions)
    returns (result: Result<seq<Value>, ApplyError>)
    ensures |groups| == 0 ==> result == Success(source)
    ensures result == ApplyV2(source, groups, schema, coercions)
  {
    if |groups| == 0 {
      return Success(source);
    }
    var combinedAnd: Option<Expr> := None;
    ghost var compiled: seq<seq<Check>> := [];
    for i := 0 to |groups|
      invariant CompileGroups(schema, groups[..i], coercions) == Success(compiled)
      invariant combinedAnd == FoldAnd(compiled)
    {
      GroupsStep(schema, groups, coercions, i, compiled);
      var combinedOr := CombineOrGroup(groups[i], schema, coercions);
      if combinedOr.Failure? {
        return Failure(combinedOr.error);
      }
      ghost var checks := CompileChecks(schema, groups[i], coercions).value;
      if combinedOr.value.Some? {
        var orExpr := combinedOr.value.value;
        combinedAnd := if combinedAnd.None? then Some(orExpr) else Some(AndAlso(combinedAnd.value, orExpr));
      }
      FoldAndSnoc(compiled, checks);
      compiled := compiled + [checks];
    }
    assert groups[..|groups|] == groups;
    if combinedAnd.None? {
      return Failure(NoPredicate);
    }
    result := Success(Select(source, combinedAnd.value));
  }

  /** A successful V2 apply keeps, in source order, exactly the elements that meet every
      non-empty group; it fails with no predicate exactly when the groups hold no
      criterion at all. */
  lemma ApplyV2Keeps(source: seq<Value>, groups: seq<seq<FilterCriteria>>, schema: FieldType, coercions: Coercions, x: Value)
    requires |groups| > 0
    requires CompileGroups(schema, groups, coercions).Success?
    ensures var compiled := CompileGroups(schema, groups, coercions).value;
      && (ApplyV2(source, groups, schema, coercions) == Failure(NoPredicate)
          <==> forall i :: 0 <= i < |groups| ==> |groups[i]| == 0)
      && (ApplyV2(source, groups, schema, coercions).Success? ==>
            (x in ApplyV2(source, groups, schema, coercions).value <==> x in source && EveryGroupMet(compiled, x)))
  {
    var compiled := CompileGroups(schema, groups, coercions).value;
    FoldAndMeaning(compiled, x);
    if FoldAnd(compiled).Some? {
      SelectMembership(source, FoldAnd(compiled).value, x);
    }
  }
}
