/** A worked example of the V2 alternative grammar: the alternative `age>=18`. */
module FilterExamples {
  import opened Wrappers
  import opened Text
  import opened Filters
  import opened FilterParser

  /** `t` is the text `age>=18`, given character by character. */
  predicate AgeAtLeast18(t: string) {
    && |t| == 7
    && t[0] == 'a' && t[1] == 'g' && t[2] == 'e'
    && t[3] == '>' && t[4] == '='
    && t[5] == '1' && t[6] == '8'
  }

  /** `age>=18` holds both `>` and `>=`; the longer symbol wins, so it reads as
      `age >= 18`: path `[age]`, operator `Gteq`, value `18`. */
  lemma AtLeastExample(orPart: string, normalizeDate: string -> Option<string>)
    requires AgeAtLeast18(orPart)
    ensures ParseAlternative(orPart, normalizeDate) == Some(FilterCriteria([orPart[..3]], Gteq, orPart[5..], false))
  {
    var lhs, rhs := orPart[..3], orPart[5..];
    TrimKeepsKeptEnds(orPart, IsWhiteSpace);
    ExamplePath(lhs);
    ExampleValue(rhs);
    ExampleChoice(orPart);
    ExampleSplit(orPart);
    GteqSymbol();
    var path := AlternativePath(lhs);
    assert !EqualsIgnoreCase(path[0], CreatedAt) by {
      assert |LowerAll(path[0])| != |LowerAll(CreatedAt)|;
    }
    var c := AlternativeCriterion(lhs, rhs, Gteq, normalizeDate);
    assert c == FilterCriteria([lhs], Gteq, rhs, false);
  }

  /** A three-letter name without dots or outer blanks is a one-segment path. */
  lemma ExamplePath(lhs: string)
    requires |lhs| == 3 && lhs[0] == 'a' && lhs[1] == 'g' && lhs[2] == 'e'
    ensures AlternativePath(lhs) == [lhs]
  {
    TrimKeepsKeptEnds(lhs, IsWhiteSpace);
    assert '.' !in lhs;
    SplitCharWithout(lhs, '.');
  }

  /** A bare number is its own value. */
  lemma ExampleValue(rhs: string)
    requires |rhs| == 2 && rhs[0] == '1' && rhs[1] == '8'
    ensures AlternativeValue(rhs) == rhs
  {
    assert !IsWhiteSpace(rhs[0]) && !IsWhiteSpace(rhs[1]);
    TrimKeepsKeptEnds(rhs, IsWhiteSpace);
    assert Trim(rhs) == rhs;
    assert !IsQuote(rhs[0]) && !IsQuote(rhs[1]);
    TrimKeepsKeptEnds(rhs, IsQuote);
    assert TrimQuotes(rhs) == rhs;
  }

  /** The symbols tried before `>=` do not occur in `age>=18`; `>=` does, at 3. */
  lemma ExampleOccurrences(t: string)
    requires AgeAtLeast18(t)
    ensures forall j :: 0 <= j <= |t| ==>
      && !OccursAt(t, Symbol(7), j) && !OccursAt(t, Symbol(6), j) && !OccursAt(t, Symbol(8), j)
      && !OccursAt(t, Symbol(0), j) && !OccursAt(t, Symbol(1), j) && (j != 3 ==> !OccursAt(t, Symbol(3), j))
    ensures OccursAt(t, Symbol(3), 3)
  {
    forall j | 0 <= j <= |t|
      ensures !OccursAt(t, Symbol(7), j) && !OccursAt(t, Symbol(6), j) && !OccursAt(t, Symbol(8), j)
      ensures !OccursAt(t, Symbol(0), j) && !OccursAt(t, Symbol(1), j) && (j != 3 ==> !OccursAt(t, Symbol(3), j))
    {
      assert j >= |t| || t[j] in "age>=18";
      NoOccurrenceWithoutHead(t, Symbol(7), j);
      NoOccurrenceWithoutHead(t, Symbol(6), j);
      NoOccurrenceWithoutHead(t, Symbol(8), j);
      NoOccurrenceWithoutHead(t, Symbol(1), j);
      if j != 4 {
        NoOccurrenceWithoutHead(t, Symbol(0), j);
      } else {
        assert t[4..6][1] == '1';
      }
      if j != 3 {
        NoOccurrenceWithoutHead(t, Symbol(3), j);
      }
    }
    assert t[3..5] == Symbol(3);
  }

  /** Of the symbols longest-first, `>=` is the first `age>=18` contains. */
  lemma ExampleChoice(t: string)
    requires AgeAtLeast18(t)
    ensures ChooseOperator(t) == Some(3)
  {
    ExampleOccurrences(t);
    OccurrenceContains(t, Symbol(3), 3);
    var order := SymbolsByLength;
    assert !Contains(t, Symbol(order[0])) && !Contains(t, Symbol(order[1])) && !Contains(t, Symbol(order[2]));
    assert !Contains(t, Symbol(order[3])) && !Contains(t, Symbol(order[4])) && Contains(t, Symbol(order[5]));
    assert FirstContained(t, order[5..]) == Some(0);
    assert FirstContained(t, order[4..]) == Some(1);
    assert FirstContained(t, order[3..]) == Some(2);
    assert FirstContained(t, order[2..]) == Some(3);
    assert FirstContained(t, order[1..]) == Some(4);
  }

  /** Splitting `age>=18` at `>=` leaves `age` and `18`. */
  lemma ExampleSplit(t: string)
    requires AgeAtLeast18(t)
    ensures SplitInTwo(t, Symbol(3)) == [t[..3], t[5..]]
  {
    ExampleOccurrences(t);
    var sep := Symbol(3);
    assert IndexFrom(t, sep, 0) == Some(3);
    assert SkipSeparators(t, sep, 0) == 0;
    assert SkipSeparators(t, sep, 5) == 5;
  }

  lemma GteqSymbol()
    ensures Symbol(3) == ">=" && OperatorMappings[3].1 == Gteq
  {
  }

  /** A position that does not start with the first character of `sub` is no occurrence. */
  lemma NoOccurrenceWithoutHead(s: string, sub: string, j: nat)
    requires |sub| > 0
    ensures (j >= |s| || s[j] != sub[0]) ==> !OccursAt(s, sub, j)
  {
    if j + |sub| <= |s| {
      assert s[j..j + |sub|][0] == s[j];
    }
  }
}
