/** `FilterParser.ParseFiltersV1` and `FilterParser.ParseFiltersV2`: the two grammars that
    turn request text into filter criteria.

    V1 reads query-string pairs; each key is `[or]`-marker + dotted path + optional
    `.Op` suffix and becomes one criterion of a flat list.
    V2 reads one compact string: `&&` separates groups, `||` separates alternatives,
    and each alternative is `path <symbol> value`.

    `normalizeDate` stands for `DateTime.TryParse` (invariant culture, assume and adjust
    to universal) followed by `ToString("o")`: `None` when the text is not a date,
    otherwise the round-trip form. */
module FilterParser {
  import opened Wrappers
  import opened Text
  import opened Filters

  /** `OperatorMappings`, the compact-grammar symbols in declaration order. */
  const OperatorMappings: seq<(string, FilterOperator)> := [
    ("==", Eq), ("!=", Neq), (">", Gt), (">=", Gteq), ("<", Lt), ("<=", Lteq),
    ("Contains", Like), ("StartsWith", Sw), ("EndsWith", Ew)]

  /** Query keys that belong to paging, sorting, search and field selection. */
  const ReservedKeys: seq<string> :=
    ["PageNumber", "PageSize", "SortField", "isascending", "SearchTerm", "Fields"]

  /** The operator names a V1 key may end with. */
  const ValidOperators: seq<string> :=
    ["Eq", "Gt", "Lteq", "Lt", "Gteq", "Neq", "Sw", "Like", "Ew"]

  const OrMarker: string := "[or]"
  const CreatedAt: string := "createdAt"

  /** The `createdAt` rule shared by both grammars: when the path ends in `createdAt`
      (any casing) and the value reads as a date, the value becomes its round-trip form. */
  function NormalizeCreatedAt(path: seq<string>, value: string, normalizeDate: string -> Option<string>): (r: string)
    requires |path| > 0
    ensures r != value ==>
      EqualsIgnoreCase(path[|path| - 1], CreatedAt) && normalizeDate(value) == Some(r)
    ensures EqualsIgnoreCase(path[|path| - 1], CreatedAt) && normalizeDate(value).Some? ==>
      r == normalizeDate(value).value
  {
    if EqualsIgnoreCase(path[|path| - 1], CreatedAt) && normalizeDate(value).Some?
    then normalizeDate(value).value
    else value
  }

  // ===========================================================================
  // V1: query-string pairs
  // ===========================================================================

  datatype ParseError = EmptyPropertyPath(key: string)

  /** The key with every `[or]` marker removed. */
  function StrippedKey(key: string): string {
    Replace(key, OrMarker, "")
  }

  /** The dot-separated segments of the stripped key. */
  function Segments(key: string): (parts: seq<string>)
    ensures |parts| >= 1
  {
    SplitChar(StrippedKey(key), '.')
  }

  function LastSegment(key: string): string {
    Segments(key)[|Segments(key)| - 1]
  }

  predicate IsReservedKey(key: string) {
    InIgnoreCase(Segments(key)[0], ReservedKeys)
  }

  /** Whether the key ends in an operator name such as `.gt`. */
  predicate HasOperatorSuffix(key: string) {
    InIgnoreCase(LastSegment(key), ValidOperators)
  }

  /** `Enum.TryParse<FilterOperator>(name, ignoreCase: true)` over the member names. */
  function ParseOperatorName(name: string): (r: Option<FilterOperator>)
    ensures r.Some? ==> EqualsIgnoreCase(OperatorName(r.value), name)
  {
    if EqualsIgnoreCase(name, "Eq") then Some(Eq)
    else if EqualsIgnoreCase(name, "Neq") then Some(Neq)
    else if EqualsIgnoreCase(name, "Gt") then Some(Gt)
    else if EqualsIgnoreCase(name, "Gteq") then Some(Gteq)
    else if EqualsIgnoreCase(name, "Lt") then Some(Lt)
    else if EqualsIgnoreCase(name, "Lteq") then Some(Lteq)
    else if EqualsIgnoreCase(name, "Sw") then Some(Sw)
    else if EqualsIgnoreCase(name, "Ew") then Some(Ew)
    else if EqualsIgnoreCase(name, "Like") then Some(Like)
    else None
  }

  /** Every name the key grammar accepts as an operator is an enumeration member. */
  lemma ValidOperatorsParse(name: string)
    requires InIgnoreCase(name, ValidOperators)
    ensures ParseOperatorName(name).Some?
  {
    var i :| 0 <= i < |ValidOperators| && EqualsIgnoreCase(ValidOperators[i], name);
  }

  /** What one key/value pair contributes. */
  datatype KeyParse = Skipped | Parsed(criteria: FilterCriteria) | PathMissing

  /** The property path of a key: its segments, less the last one when that one
      names an operator. */
  function PathOf(key: string): seq<string> {
    var parts := Segments(key);
    if HasOperatorSuffix(key) then parts[..|parts| - 1] else parts
  }

  /** The operator text of a key: its operator suffix, `Eq` without one. */
  function OperatorTextOf(key: string): string {
    if HasOperatorSuffix(key) then LastSegment(key) else "Eq"
  }

  /** One iteration of the `foreach` in `ParseFiltersV1`. `PathMissing` is the key made
      only of an operator name, where `propertyPath.Last()` throws. */
  function ParseKey(key: string, value: string, normalizeDate: string -> Option<string>): KeyParse {
    if IsReservedKey(key) then Skipped
    else if |PathOf(key)| == 0 then PathMissing
    else
      var path := PathOf(key);
      match ParseOperatorName(OperatorTextOf(key))
      case Some(op) => Parsed(FilterCriteria(path, op, NormalizeCreatedAt(path, value, normalizeDate), Contains(key, OrMarker)))
      case None => Skipped
  }

  /** The `foreach` of `ParseFiltersV1` over the pairs, in order; the first key with no
      property path aborts the whole parse. */
  function ParsePairs(pairs: seq<(string, string)>, normalizeDate: string -> Option<string>): Result<seq<FilterCriteria>, ParseError>
    decreases |pairs|
  {
    if |pairs| == 0 then Success([])
    else
      var earlier :- ParsePairs(pairs[..|pairs| - 1], normalizeDate);
      var (key, value) := pairs[|pairs| - 1];
      match ParseKey(key, value, normalizeDate)
      case Skipped => Success(earlier)
      case Parsed(c) => Success(earlier + [c])
      case PathMissing => Failure(EmptyPropertyPath(key))
  }

  /** `ParseFiltersV1` as a function: a null query gives no criteria. */
  function ParseV1(query: Option<seq<(string, string)>>, normalizeDate: string -> Option<string>): Result<seq<FilterCriteria>, ParseError> {
    if query.None? then Success([]) else ParsePairs(query.value, normalizeDate)
  }

  method ParseFiltersV1(query: Option<seq<(string, string)>>, normalizeDate: string -> Option<string>)
    returns (filters: Result<seq<FilterCriteria>, ParseError>)
    ensures query.None? ==> filters == Success([])
    ensures filters == ParseV1(query, normalizeDate)
  {
    if query.None? {
      return Success([]);
    }
    var pairs := query.value;
    var acc: seq<FilterCriteria> := [];
    for i := 0 to |pairs|
      invariant ParsePairs(pairs[..i], normalizeDate) == Success(acc)
    {
      assert pairs[..i + 1][..i] == pairs[..i];
      var (key, value) := pairs[i];
      var outcome := ParseKey(key, value, normalizeDate);
      if outcome.PathMissing? {
        PairsFailureIsFinal(pairs, i + 1, normalizeDate);
        return Failure(EmptyPropertyPath(key));
      }
      if outcome.Parsed? {
        acc := acc + [outcome.criteria];
      }
    }
    assert pairs[..|pairs|] == pairs;
    filters := Success(acc);
  }

  lemma {:induction false} PairsFailureIsFinal(pairs: seq<(string, string)>, n: nat, normalizeDate: string -> Option<string>)
    requires n <= |pairs|
    requires ParsePairs(pairs[..n], normalizeDate).Failure?
    ensures ParsePairs(pairs, normalizeDate) == ParsePairs(pairs[..n], normalizeDate)
    decreases |pairs| - n
  {
    if n < |pairs| {
      assert pairs[..n + 1][..n] == pairs[..n];
      PairsFailureIsFinal(pairs, n + 1, normalizeDate);
    } else {
      assert pairs[..n] == pairs;
    }
  }

  /** A key is dropped exactly when its first segment is a reserved parameter name. */
  lemma SkippedIffReserved(key: string, value: string, normalizeDate: string -> Option<string>)
    ensures ParseKey(key, value, normalizeDate).Skipped? <==> IsReservedKey(key)
  {
    if HasOperatorSuffix(key) {
      ValidOperatorsParse(LastSegment(key));
    }
  }

  /** The whole parse fails on a non-reserved key that is nothing but an operator name. */
  lemma PathMissingIffBareOperator(key: string, value: string, normalizeDate: string -> Option<string>)
    ensures ParseKey(key, value, normalizeDate).PathMissing?
      <==> !IsReservedKey(key) && |Segments(key)| == 1 && HasOperatorSuffix(key)
  {
  }

  /** A parsed criterion gives the key back: its path, followed by the operator segment
      when the key had one, joins with `.` into the key without its `[or]` markers; the
      OR flag records whether the key held a marker; the operator is the suffix's
      (Eq without one); only a `createdAt` value that reads as a date is rewritten. */
  lemma ParsedKeyRoundTrip(key: string, value: string, normalizeDate: string -> Option<string>)
    requires ParseKey(key, value, normalizeDate).Parsed?
    ensures var c := ParseKey(key, value, normalizeDate).criteria;
      && c.isOrCondition == Contains(key, OrMarker)
      && Join(c.propertyPath + (if HasOperatorSuffix(key) then [LastSegment(key)] else []), ".") == StrippedKey(key)
      && (HasOperatorSuffix(key) ==> EqualsIgnoreCase(OperatorName(c.operator), LastSegment(key)))
      && (!HasOperatorSuffix(key) ==> c.operator == Eq)
      && |c.propertyPath| >= 1
      && (c.value != value ==>
            EqualsIgnoreCase(c.propertyPath[|c.propertyPath| - 1], CreatedAt) && normalizeDate(value) == Some(c.value))
  {
    ParsedCriteria(key, value, normalizeDate);
    PathJoinsBack(key);
  }

  /** A parsed key's criteria: its path, the operator its text names, the normalised
      value and whether it held a marker. */
  lemma ParsedCriteria(key: string, value: string, normalizeDate: string -> Option<string>)
    requires ParseKey(key, value, normalizeDate).Parsed?
    ensures |PathOf(key)| > 0 && ParseOperatorName(OperatorTextOf(key)).Some?
    ensures ParseKey(key, value, normalizeDate).criteria
      == FilterCriteria(PathOf(key), ParseOperatorName(OperatorTextOf(key)).value,
                        NormalizeCreatedAt(PathOf(key), value, normalizeDate), Contains(key, OrMarker))
  {
  }

  /** The property path, with the operator suffix put back, joins into the stripped key. */
  lemma PathJoinsBack(key: string)
    ensures Join(PathOf(key) + (if HasOperatorSuffix(key) then [LastSegment(key)] else []), ".") == StrippedKey(key)
  {
    var parts := Segments(key);
    var whole := PathOf(key) + (if HasOperatorSuffix(key) then [LastSegment(key)] else []);
    if HasOperatorSuffix(key) {
      assert whole == parts[..|parts| - 1] + [parts[|parts| - 1]];
    }
    assert whole == parts;
    JoinSplitChar(StrippedKey(key), '.');
    assert Join(parts, ".") == StrippedKey(key);
  }

  /** Whether some non-reserved key among the pairs has no property path. */
  predicate HasBareOperatorKey(pairs: seq<(string, string)>, normalizeDate: string -> Option<string>) {
    exists i :: 0 <= i < |pairs| && ParseKey(pairs[i].0, pairs[i].1, normalizeDate).PathMissing?
  }

  /** The V1 parse fails exactly when some non-reserved key has no property path. */
  lemma {:induction false} ParsePairsFailsIff(pairs: seq<(string, string)>, normalizeDate: string -> Option<string>)
    ensures ParsePairs(pairs, normalizeDate).Failure? <==> HasBareOperatorKey(pairs, normalizeDate)
    decreases |pairs|
  {
    if |pairs| > 0 {
      var n := |pairs| - 1;
      var init := pairs[..n];
      ParsePairsFailsIff(init, normalizeDate);
      var last := ParseKey(pairs[n].0, pairs[n].1, normalizeDate);
      if HasBareOperatorKey(init, normalizeDate) {
        var i :| 0 <= i < |init| && ParseKey(init[i].0, init[i].1, normalizeDate).PathMissing?;
        assert init[i] == pairs[i];
      } else if last.PathMissing? {
      } else {
        assert ParsePairs(pairs, normalizeDate).Success?;
        forall i | 0 <= i < |pairs|
          ensures !ParseKey(pairs[i].0, pairs[i].1, normalizeDate).PathMissing?
        {
          if i < n {
            assert init[i] == pairs[i];
            assert !ParseKey(init[i].0, init[i].1, normalizeDate).PathMissing?;
          } else {
            assert i == n;
          }
        }
      }
    }
  }

  /** The pairs whose key is not reserved, in query order. */
  function Unreserved(pairs: seq<(string, string)>): (r: seq<(string, string)>)
    ensures forall p :: p in r ==> p in pairs && !IsReservedKey(p.0)
    decreases |pairs|
  {
    if |pairs| == 0 then []
    else
      var last := pairs[|pairs| - 1];
      Unreserved(pairs[..|pairs| - 1]) + (if IsReservedKey(last.0) then [] else [last])
  }

  /** On success the criteria are those of the non-reserved pairs, one each, in query
      order: criterion `j` is what the `j`-th non-reserved pair parses to. */
  lemma {:induction false} ParsePairsCriteria(pairs: seq<(string, string)>, normalizeDate: string -> Option<string>)
    requires ParsePairs(pairs, normalizeDate).Success?
    ensures var cs := ParsePairs(pairs, normalizeDate).value;
      var kept := Unreserved(pairs);
      && |cs| == |kept|
      && forall j :: 0 <= j < |cs| ==> ParseKey(kept[j].0, kept[j].1, normalizeDate) == Parsed(cs[j])
    decreases |pairs|
  {
    if |pairs| > 0 {
      var init := pairs[..|pairs| - 1];
      ParsePairsCriteria(init, normalizeDate);
      var (key, value) := pairs[|pairs| - 1];
      SkippedIffReserved(key, value, normalizeDate);
      var earlier := ParsePairs(init, normalizeDate).value;
      var keptInit := Unreserved(init);
      match ParseKey(key, value, normalizeDate)
      case Skipped =>
        assert Unreserved(pairs) == keptInit + [];
      case Parsed(c) =>
        assert ParsePairs(pairs, normalizeDate).value == earlier + [c];
        assert Unreserved(pairs) == keptInit + [(key, value)];
      case PathMissing =>
    }
  }

  // ===========================================================================
  // V2: the compact string grammar
  // ===========================================================================

  function Symbol(k: nat): string
    requires k < |OperatorMappings|
  {
    OperatorMappings[k].0
  }

  /** The indices of `OperatorMappings` in the order `OrderByDescending(k => k.Length)`
      enumerates them: longest first, and, being a stable sort, equal lengths in
      declaration order. */
  const SymbolsByLength: seq<nat> := [7, 6, 8, 0, 1, 3, 5, 2, 4]

  /** `order` lists every symbol once, longest first, ties in declaration order. */
  predicate StableByLength(order: seq<nat>) {
    && (forall i :: 0 <= i < |order| ==> order[i] < |OperatorMappings|)
    && (forall k :: 0 <= k < |OperatorMappings| ==> k in order)
    && (forall i, j :: 0 <= i < j < |order| ==>
          order[i] < |OperatorMappings| && order[j] < |OperatorMappings| &&
          (|Symbol(order[i])| > |Symbol(order[j])| ||
           (|Symbol(order[i])| == |Symbol(order[j])| && order[i] < order[j])))
  }

  lemma SymbolsByLengthIsStable()
    ensures StableByLength(SymbolsByLength)
  {
    var order := SymbolsByLength;
    EverySymbolListed();
    NeighboursInOrder();
    forall i, j | 0 <= i < j < |order|
      ensures ComesBefore(order[i], order[j])
    {
      ChainedOrder(order, i, j);
    }
  }

  lemma EverySymbolListed()
    ensures forall i :: 0 <= i < |SymbolsByLength| ==> SymbolsByLength[i] < |OperatorMappings|
    ensures forall k :: 0 <= k < |OperatorMappings| ==> k in SymbolsByLength
  {
    var order := SymbolsByLength;
    forall k | 0 <= k < |OperatorMappings|
      ensures k in order
    {
      assert order[[3, 4, 7, 5, 8, 6, 1, 0, 2][k]] == k;
    }
  }

  lemma NeighboursInOrder()
    ensures forall i :: 0 <= i < |SymbolsByLength| - 1 ==> ComesBefore(SymbolsByLength[i], SymbolsByLength[i + 1])
  {
    var lengths := [2, 2, 1, 2, 1, 2, 8, 10, 8];
    assert forall k :: 0 <= k < |OperatorMappings| ==> |Symbol(k)| == lengths[k];
  }

  /** Symbol `a` is enumerated before symbol `b`: it is longer, or as long and declared
      earlier. */
  predicate ComesBefore(a: nat, b: nat)
    requires a < |OperatorMappings| && b < |OperatorMappings|
  {
    |Symbol(a)| > |Symbol(b)| || (|Symbol(a)| == |Symbol(b)| && a < b)
  }

  /** An order whose neighbours each come before the next is ordered throughout. */
  lemma {:induction false} ChainedOrder(order: seq<nat>, i: nat, j: nat)
    requires forall k :: 0 <= k < |order| ==> order[k] < |OperatorMappings|
    requires forall k :: 0 <= k < |order| - 1 ==> ComesBefore(order[k], order[k + 1])
    requires i < j < |order|
    ensures ComesBefore(order[i], order[j])
    decreases j - i
  {
    if i + 1 < j {
      ChainedOrder(order, i + 1, j);
    }
  }

  /** `FirstOrDefault(o => t.Contains(o))` over `order`: the position of the first symbol
      that occurs in `t`. */
  function FirstContained(t: string, order: seq<nat>): (r: Option<nat>)
    requires forall i :: 0 <= i < |order| ==> order[i] < |OperatorMappings|
    ensures r.Some? ==> r.value < |order| && Contains(t, Symbol(order[r.value]))
    ensures r.Some? ==> forall i :: 0 <= i < r.value ==> !Contains(t, Symbol(order[i]))
    ensures r.None? ==> forall i :: 0 <= i < |order| ==> !Contains(t, Symbol(order[i]))
  {
    if |order| == 0 then None
    else if Contains(t, Symbol(order[0])) then Some(0)
    else
      match FirstContained(t, order[1..])
      case None => None
      case Some(p) => Some(p + 1)
  }

  /** The symbol `ParseFiltersV2` picks for a trimmed alternative, as an index into
      `OperatorMappings`. */
  function ChooseOperator(t: string): (r: Option<nat>)
    ensures r.Some? ==> r.value < |OperatorMappings| && Contains(t, Symbol(r.value))
  {
    match FirstContained(t, SymbolsByLength)
    case None => None
    case Some(p) => Some(SymbolsByLength[p])
  }

  /** The chosen symbol is the longest one that occurs in the text (ties broken by
      declaration order), so `price>=100` is read with `>=` and never with `>`; no
      symbol is chosen exactly when none occurs. */
  lemma LongestSymbolChosen(t: string)
    ensures ChooseOperator(t).None? <==> forall k :: 0 <= k < |OperatorMappings| ==> !Contains(t, Symbol(k))
    ensures ChooseOperator(t).Some? ==>
      var k := ChooseOperator(t).value;
      && k < |OperatorMappings|
      && Contains(t, Symbol(k))
      && forall j :: 0 <= j < |OperatorMappings| && Contains(t, Symbol(j)) ==>
           |Symbol(j)| < |Symbol(k)| || (|Symbol(j)| == |Symbol(k)| && k <= j)
  {
    SymbolsByLengthIsStable();
    if FirstContained(t, SymbolsByLength).None? {
      NothingContained(t, SymbolsByLength);
    } else {
      FirstContainedIsLongest(t, SymbolsByLength);
    }
  }

  /** Over an order that lists every symbol, finding none means no symbol occurs. */
  lemma NothingContained(t: string, order: seq<nat>)
    requires StableByLength(order)
    requires FirstContained(t, order).None?
    ensures forall k :: 0 <= k < |OperatorMappings| ==> !Contains(t, Symbol(k))
  {
    forall k | 0 <= k < |OperatorMappings|
      ensures !Contains(t, Symbol(k))
    {
      assert k in order;
      var q :| 0 <= q < |order| && order[q] == k;
    }
  }

  /** Over an order that is stable by length, the first symbol found is the longest. */
  lemma FirstContainedIsLongest(t: string, order: seq<nat>)
    requires StableByLength(order)
    requires FirstContained(t, order).Some?
    ensures var k := order[FirstContained(t, order).value];
      && k < |OperatorMappings|
      && Contains(t, Symbol(k))
      && forall j :: 0 <= j < |OperatorMappings| && Contains(t, Symbol(j)) ==>
           |Symbol(j)| < |Symbol(k)| || (|Symbol(j)| == |Symbol(k)| && k <= j)
  {
    var p := FirstContained(t, order).value;
    var k := order[p];
    forall j | 0 <= j < |OperatorMappings| && Contains(t, Symbol(j))
      ensures |Symbol(j)| < |Symbol(k)| || (|Symbol(j)| == |Symbol(k)| && k <= j)
    {
      assert j in order;
      var q :| 0 <= q < |order| && order[q] == j;
      assert p <= q;
    }
  }

  /** Positions `a` to `b` of `s` hold copies of `sep`, back to back. */
  predicate Runs(s: string, sep: string, a: nat, b: nat)
    requires |sep| > 0 && a <= b <= |s|
    decreases b - a
  {
    a == b || (a + |sep| <= b && OccursAt(s, sep, a) && Runs(s, sep, a + |sep|, b))
  }

  /** The position after every copy of `sep` that follows position `k` back to back. */
  function SkipSeparators(s: string, sep: string, k: nat): (r: nat)
    requires |sep| > 0 && k <= |s|
    ensures k <= r <= |s| && !OccursAt(s, sep, r) && Runs(s, sep, k, r)
    decreases |s| - k
  {
    if OccursAt(s, sep, k) then SkipSeparators(s, sep, k + |sep|) else k
  }

  /** `s[a..b]` is where the first piece of a split falls: after the longest run of
      separators at the start, and up to (not into) the first occurrence after it. */
  predicate FirstPiece(s: string, sep: string, a: nat, b: nat)
    requires |sep| > 0
  {
    && a <= b <= |s| && Runs(s, sep, 0, a) && !OccursAt(s, sep, a)
    && forall j :: a <= j < b ==> !OccursAt(s, sep, j)
  }

  /** `s.Split(new[] { sep }, 2, StringSplitOptions.RemoveEmptyEntries)`: leading
      separators are skipped, the first piece runs to the next separator, the separators
      right after it are skipped, and the rest of the string is the second piece; empty
      pieces are not returned. So `s` is a run of separators, the first piece (free of
      the separator), a run of at least one separator, and the second piece; a missing
      piece leaves only separators in its place. The leading run is as long as it can
      be and the first piece ends at the first occurrence after it, so overlapping
      copies (`==` in `a===b`) split where .NET splits them. */
  function SplitInTwo(s: string, sep: string): (r: seq<string>)
    requires |sep| > 0
    ensures |r| <= 2
    ensures forall i :: 0 <= i < |r| ==> r[i] != ""
    ensures |r| >= 1 ==> !Contains(r[0], sep)
    ensures |r| == 2 ==> !IsPrefix(sep, r[1]) && IsSuffix(r[1], s)
    ensures |r| == 0 ==> Runs(s, sep, 0, |s|)
    ensures |r| == 1 ==> exists a: nat, b: nat ::
      FirstPiece(s, sep, a, b) && r[0] == s[a..b] && Runs(s, sep, b, |s|)
    ensures |r| == 2 ==> exists a: nat, b: nat, c: nat ::
      && FirstPiece(s, sep, a, b) && b + |sep| <= c <= |s|
      && r[0] == s[a..b] && Runs(s, sep, b, c) && r[1] == s[c..]
  {
    var start := SkipSeparators(s, sep, 0);
    var found := IndexFrom(s, sep, start);
    if found.None? then
      NoOccurrenceBetween(s, sep, start, |s|);
      assert s[start..|s|] == s[start..];
      assert Runs(s, sep, |s|, |s|);
      assert FirstPiece(s, sep, start, |s|);
      if start == |s| then [] else [s[start..]]
    else
      var i := found.value;
      var restStart := SkipSeparators(s, sep, i + |sep|);
      NoOccurrenceBetween(s, sep, start, i);
      StartsAt(s, sep, restStart);
      DropIsSuffix(s, restStart);
      assert Runs(s, sep, i, restStart);
      assert FirstPiece(s, sep, start, i);
      if restStart == |s| then [s[start..i]] else [s[start..i], s[restStart..]]
  }

  /** A slice of `s` contains `sep` only if `s` has an occurrence inside that slice. */
  lemma NoOccurrenceBetween(s: string, sep: string, a: nat, b: nat)
    requires |sep| > 0 && a <= b <= |s|
    requires forall j :: a <= j < b ==> !OccursAt(s, sep, j)
    ensures !Contains(s[a..b], sep)
  {
    SliceOccurrence(s, sep, a, b);
  }

  /** The leftmost occurrence in a slice is an occurrence in the whole string. */
  lemma SliceOccurrence(s: string, sep: string, a: nat, b: nat)
    requires |sep| > 0 && a <= b <= |s|
    ensures Contains(s[a..b], sep) ==>
      a + IndexOf(s[a..b], sep).value < b && OccursAt(s, sep, a + IndexOf(s[a..b], sep).value)
  {
    var slice := s[a..b];
    var inner := IndexOf(slice, sep);
    if inner.Some? {
      var j := inner.value;
      assert j + |sep| <= |slice| && slice[j..j + |sep|] == sep;
      forall t | 0 <= t < |sep|
        ensures s[a + j + t] == sep[t]
      {
        assert slice[j + t] == slice[j..j + |sep|][t];
      }
      assert s[a + j..a + j + |sep|] == sep;
    }
  }

  lemma StartsAt(s: string, sep: string, k: nat)
    requires k <= |s|
    ensures IsPrefix(sep, s[k..]) <==> OccursAt(s, sep, k)
  {
    if |sep| <= |s| - k {
      assert s[k..][..|sep|] == s[k..k + |sep|];
    }
  }

  /** One alternative of a group: the criterion it denotes, or `None` when it holds no
      symbol or one side of the symbol is empty. */
  function ParseAlternative(orPart: string, normalizeDate: string -> Option<string>): (r: Option<FilterCriteria>)
    ensures r.Some? ==> WellShaped(r.value)
  {
    var trimmed := Trim(orPart);
    var choice := ChooseOperator(trimmed);
    if choice.None? then None
    else
      var k := choice.value;
      var split := SplitInTwo(trimmed, Symbol(k));
      if |split| != 2 then None
      else Some(AlternativeCriterion(split[0], split[1], OperatorMappings[k].1, normalizeDate))
  }

  /** The shape of every criterion the compact grammar builds: not an OR term; a
      non-empty path none of whose segments holds a dot, whose dotted form has no
      surrounding whitespace; and, unless the `createdAt` rule rewrote it, a value with
      no surrounding double quote. */
  predicate WellShaped(c: FilterCriteria) {
    && !c.isOrCondition
    && PathShaped(c.propertyPath)
    && (!EqualsIgnoreCase(c.propertyPath[|c.propertyPath| - 1], CreatedAt) ==> Unquoted(c.value))
  }

  predicate PathShaped(path: seq<string>) {
    var dotted := Join(path, ".");
    && |path| >= 1
    && (forall i :: 0 <= i < |path| ==> '.' !in path[i])
    && (dotted == [] || (!IsWhiteSpace(dotted[0]) && !IsWhiteSpace(dotted[|dotted| - 1])))
  }

  predicate Unquoted(v: string) {
    v == [] || (!IsQuote(v[0]) && !IsQuote(v[|v| - 1]))
  }

  /** The criterion of an alternative split into its property text and value text. */
  function AlternativeCriterion(lhs: string, rhs: string, op: FilterOperator, normalizeDate: string -> Option<string>): (c: FilterCriteria)
    ensures WellShaped(c)
    ensures c.operator == op && Join(c.propertyPath, ".") == Trim(lhs)
  {
    var path := AlternativePath(lhs);
    var val := AlternativeValue(rhs);
    FilterCriteria(path, op, NormalizeCreatedAt(path, val, normalizeDate), false)
  }

  /** The trimmed property text cut at every dot. */
  function AlternativePath(lhs: string): (path: seq<string>)
    ensures PathShaped(path)
    ensures Join(path, ".") == Trim(lhs)
  {
    var prop := Trim(lhs);
    SplitCharPieces(prop, '.');
    JoinSplitChar(prop, '.');
    TrimBothEnds(lhs, IsWhiteSpace);
    SplitChar(prop, '.')
  }

  /** The value text, trimmed of whitespace and then of double quotes. */
  function AlternativeValue(rhs: string): (v: string)
    ensures Unquoted(v)
    ensures Stripped(Trim(rhs), v, IsQuote)
  {
    TrimBothEnds(Trim(rhs), IsQuote);
    TrimStripped(Trim(rhs), IsQuote);
    TrimQuotes(Trim(rhs))
  }

  /** What one alternative means. It parses exactly when its trimmed text holds a symbol
      and splitting at the chosen symbol leaves text on both sides. Then the operator is
      the chosen symbol's, and that symbol is the longest one in the text (so
      `price>=100` is read with `>=`, never `>`). The path joins back into the trimmed
      left side. The value is the right side trimmed of whitespace and quotes, rewritten
      only by the `createdAt` rule. The criterion is never an OR term. */
  lemma ParseAlternativeMeaning(orPart: string, normalizeDate: string -> Option<string>)
    ensures var t := Trim(orPart);
      var r := ParseAlternative(orPart, normalizeDate);
      && (r.Some? <==> ChooseOperator(t).Some? && |SplitInTwo(t, Symbol(ChooseOperator(t).value))| == 2)
      && (r.Some? ==>
            var k := ChooseOperator(t).value;
            var split := SplitInTwo(t, Symbol(k));
            && r.value.operator == OperatorMappings[k].1
            && Contains(t, Symbol(k))
            && (forall j :: 0 <= j < |OperatorMappings| && Contains(t, Symbol(j)) ==> |Symbol(j)| <= |Symbol(k)|)
            && Join(r.value.propertyPath, ".") == Trim(split[0])
            && r.value.value == NormalizeCreatedAt(r.value.propertyPath, AlternativeValue(split[1]), normalizeDate)
            && !r.value.isOrCondition)
  {
    LongestSymbolChosen(Trim(orPart));
  }

  /** An alternative without any symbol parses to nothing. */
  lemma ParseAlternativeNeedsSymbol(orPart: string, normalizeDate: string -> Option<string>)
    requires forall k :: 0 <= k < |OperatorMappings| ==> !Contains(Trim(orPart), Symbol(k))
    ensures ParseAlternative(orPart, normalizeDate).None?
  {
    LongestSymbolChosen(Trim(orPart));
  }

  /** The inner `foreach` of `ParseFiltersV2`: the criteria of one `&&` group. */
  function ParseGroup(orParts: seq<string>, normalizeDate: string -> Option<string>): (g: seq<FilterCriteria>)
    decreases |orParts|
  {
    if |orParts| == 0 then []
    else
      var earlier := ParseGroup(orParts[..|orParts| - 1], normalizeDate);
      match ParseAlternative(orParts[|orParts| - 1], normalizeDate)
      case None => earlier
      case Some(c) => earlier + [c]
  }

  /** The outer `foreach` of `ParseFiltersV2`: a group is kept only when it parsed to
      at least one criterion. */
  function ParseGroups(andParts: seq<string>, normalizeDate: string -> Option<string>): seq<seq<FilterCriteria>>
    decreases |andParts|
  {
    if |andParts| == 0 then []
    else
      var earlier := ParseGroups(andParts[..|andParts| - 1], normalizeDate);
      var group := GroupOf(andParts[|andParts| - 1], normalizeDate);
      if |group| > 0 then earlier + [group] else earlier
  }

  /** One `&&` part: its non-empty `||` pieces, each parsed as an alternative. */
  function GroupOf(andPart: string, normalizeDate: string -> Option<string>): seq<FilterCriteria> {
    ParseGroup(NonEmpty(SplitOn(andPart, "||")), normalizeDate)
  }

  /** `ParseFiltersV2` as a function. */
  function ParseV2(filters: Option<string>, normalizeDate: string -> Option<string>): seq<seq<FilterCriteria>> {
    if IsNullOrEmpty(filters) then []
    else ParseGroups(NonEmpty(SplitOn(filters.value, "&&")), normalizeDate)
  }

  method ParseFiltersV2(filters: Option<string>, normalizeDate: string -> Option<string>)
    returns (result: seq<seq<FilterCriteria>>)
    ensures IsNullOrEmpty(filters) ==> result == []
    ensures result == ParseV2(filters, normalizeDate)
  {
    result := [];
    if IsNullOrEmpty(filters) {
      return;
    }
    var andParts := NonEmpty(SplitOn(filters.value, "&&"));
    for i := 0 to |andParts|
      invariant result == ParseGroups(andParts[..i], normalizeDate)
    {
      assert andParts[..i + 1][..i] == andParts[..i];
      var orParts := NonEmpty(SplitOn(andParts[i], "||"));
      var orGroup: seq<FilterCriteria> := [];
      for j := 0 to |orParts|
        invariant orGroup == ParseGroup(orParts[..j], normalizeDate)
      {
        assert orParts[..j + 1][..j] == orParts[..j];
        var c := ParseAlternative(orParts[j], normalizeDate);
        if c.Some? {
          orGroup := orGroup + [c.value];
        }
      }
      assert orParts[..|orParts|] == orParts;
      if |orGroup| > 0 {
        result := result + [orGroup];
      }
    }
    assert andParts[..|andParts|] == andParts;
  }

  /** Every group `ParseFiltersV2` returns is non-empty, and no criterion it builds is
      marked as an OR condition (alternatives are OR-ed by their grouping instead). */
  lemma ParseGroupsShape(andParts: seq<string>, normalizeDate: string -> Option<string>)
    ensures forall g :: g in ParseGroups(andParts, normalizeDate) ==>
      |g| > 0 && forall c :: c in g ==> WellShaped(c)
  {
    ParseGroupsMembers(andParts, normalizeDate);
    forall g | g in ParseGroups(andParts, normalizeDate)
      ensures forall c :: c in g ==> WellShaped(c)
    {
      var i :| 0 <= i < |andParts| && GroupOf(andParts[i], normalizeDate) == g;
      ParseGroupShape(NonEmpty(SplitOn(andParts[i], "||")), normalizeDate);
    }
  }

  lemma {:induction false} ParseGroupShape(orParts: seq<string>, normalizeDate: string -> Option<string>)
    ensures forall c :: c in ParseGroup(orParts, normalizeDate) ==> WellShaped(c)
    decreases |orParts|
  {
    if |orParts| > 0 {
      ParseGroupShape(orParts[..|orParts| - 1], normalizeDate);
    }
  }

  lemma ParseV2Shape(filters: Option<string>, normalizeDate: string -> Option<string>)
    ensures forall g :: g in ParseV2(filters, normalizeDate) ==>
      |g| > 0 && forall c :: c in g ==> WellShaped(c)
  {
    if !IsNullOrEmpty(filters) {
      ParseGroupsShape(NonEmpty(SplitOn(filters.value, "&&")), normalizeDate);
    }
  }

  /** Parsing a prefix of the alternatives gives a prefix of the group. */
  lemma {:induction false} ParseGroupPrefix(orParts: seq<string>, i: nat, normalizeDate: string -> Option<string>)
    requires i <= |orParts|
    ensures ParseGroup(orParts[..i], normalizeDate) <= ParseGroup(orParts, normalizeDate)
    decreases |orParts| - i
  {
    if i < |orParts| {
      var init := orParts[..|orParts| - 1];
      assert init[..i] == orParts[..i];
      ParseGroupPrefix(init, i, normalizeDate);
    } else {
      assert orParts[..i] == orParts;
    }
  }

  /** Each alternative that parses lands in the group right after the criteria of the
      alternatives before it, so the group keeps the alternatives' order. */
  lemma ParseGroupPlacement(orParts: seq<string>, i: nat, normalizeDate: string -> Option<string>)
    requires i < |orParts|
    ensures var g := ParseGroup(orParts, normalizeDate);
      var k := |ParseGroup(orParts[..i], normalizeDate)|;
      match ParseAlternative(orParts[i], normalizeDate)
      case None => ParseGroup(orParts[..i + 1], normalizeDate) == ParseGroup(orParts[..i], normalizeDate)
      case Some(c) => k < |g| && g[k] == c
  {
    var upTo := orParts[..i + 1];
    assert upTo[..i] == orParts[..i];
    ParseGroupPrefix(orParts, i + 1, normalizeDate);
  }

  /** A criterion is in the group exactly when some alternative parses to it. */
  lemma ParseGroupMembers(orParts: seq<string>, normalizeDate: string -> Option<string>)
    ensures forall c :: c in ParseGroup(orParts, normalizeDate) <==>
      exists i :: 0 <= i < |orParts| && ParseAlternative(orParts[i], normalizeDate) == Some(c)
  {
    var parse := o => ParseAlternative(o, normalizeDate);
    ParseGroupCollects(orParts, normalizeDate);
    CollectMembers(orParts, parse);
  }

  lemma {:induction false} ParseGroupCollects(orParts: seq<string>, normalizeDate: string -> Option<string>)
    ensures ParseGroup(orParts, normalizeDate) == Collect(orParts, o => ParseAlternative(o, normalizeDate))
    decreases |orParts|
  {
    if |orParts| > 0 {
      ParseGroupCollects(orParts[..|orParts| - 1], normalizeDate);
    }
  }

  /** Grouping a prefix of the `&&` parts gives a prefix of the groups. */
  lemma {:induction false} ParseGroupsPrefix(andParts: seq<string>, i: nat, normalizeDate: string -> Option<string>)
    requires i <= |andParts|
    ensures ParseGroups(andParts[..i], normalizeDate) <= ParseGroups(andParts, normalizeDate)
    decreases |andParts| - i
  {
    if i < |andParts| {
      var init := andParts[..|andParts| - 1];
      assert init[..i] == andParts[..i];
      ParseGroupsPrefix(init, i, normalizeDate);
    } else {
      assert andParts[..i] == andParts;
    }
  }

  /** A part whose group is empty is dropped; any other lands right after the groups
      of the parts before it. */
  lemma ParseGroupsPlacement(andParts: seq<string>, i: nat, normalizeDate: string -> Option<string>)
    requires i < |andParts|
    ensures var gs := ParseGroups(andParts, normalizeDate);
      var k := |ParseGroups(andParts[..i], normalizeDate)|;
      var group := GroupOf(andParts[i], normalizeDate);
      && (|group| == 0 ==> ParseGroups(andParts[..i + 1], normalizeDate) == ParseGroups(andParts[..i], normalizeDate))
      && (|group| > 0 ==> k < |gs| && gs[k] == group)
  {
    var upTo := andParts[..i + 1];
    assert upTo[..i] == andParts[..i];
    ParseGroupsPrefix(andParts, i + 1, normalizeDate);
  }

  /** The groups are exactly the non-empty groups of the `&&` parts. */
  lemma ParseGroupsMembers(andParts: seq<string>, normalizeDate: string -> Option<string>)
    ensures forall g :: g in ParseGroups(andParts, normalizeDate) <==>
      |g| > 0 && exists i :: 0 <= i < |andParts| && GroupOf(andParts[i], normalizeDate) == g
  {
    var group := GroupOfEach(normalizeDate);
    ParseGroupsCollects(andParts, normalizeDate);
    CollectNonEmptyMembers(andParts, group);
    forall g
      ensures g in ParseGroups(andParts, normalizeDate) <==>
        |g| > 0 && exists i :: 0 <= i < |andParts| && GroupOf(andParts[i], normalizeDate) == g
    {
      if g in ParseGroups(andParts, normalizeDate) {
        var i :| 0 <= i < |andParts| && group(andParts[i]) == g;
        assert GroupOf(andParts[i], normalizeDate) == g;
      }
      if |g| > 0 && exists i :: 0 <= i < |andParts| && GroupOf(andParts[i], normalizeDate) == g {
        var i :| 0 <= i < |andParts| && GroupOf(andParts[i], normalizeDate) == g;
        assert group(andParts[i]) == g;
      }
    }
  }

  /** The choice the outer loop makes about one `&&` part: keep its group if non-empty. */
  function KeepGroup(normalizeDate: string -> Option<string>): string -> Option<seq<FilterCriteria>> {
    NonEmptyOnly(GroupOfEach(normalizeDate))
  }

  function GroupOfEach(normalizeDate: string -> Option<string>): string -> seq<FilterCriteria> {
    a => GroupOf(a, normalizeDate)
  }

  function NonEmptyOnly<T, U>(h: T -> seq<U>): T -> Option<seq<U>> {
    a => if |h(a)| > 0 then Some(h(a)) else None
  }

  lemma CollectNonEmptyMembers<T, U>(xs: seq<T>, h: T -> seq<U>)
    ensures forall g :: g in Collect(xs, NonEmptyOnly(h)) <==>
      |g| > 0 && exists i :: 0 <= i < |xs| && h(xs[i]) == g
  {
    var keep := NonEmptyOnly(h);
    CollectMembers(xs, keep);
    forall g
      ensures g in Collect(xs, keep) <==> |g| > 0 && exists i :: 0 <= i < |xs| && h(xs[i]) == g
    {
      if |g| > 0 && exists i :: 0 <= i < |xs| && h(xs[i]) == g {
        var i :| 0 <= i < |xs| && h(xs[i]) == g;
        assert keep(xs[i]) == Some(g);
      }
    }
  }

  lemma {:induction false} ParseGroupsCollects(andParts: seq<string>, normalizeDate: string -> Option<string>)
    ensures ParseGroups(andParts, normalizeDate) == Collect(andParts, KeepGroup(normalizeDate))
    decreases |andParts|
  {
    if |andParts| > 0 {
      ParseGroupsCollects(andParts[..|andParts| - 1], normalizeDate);
    }
  }

  /** The elements `f` maps to `Some`, in order: the shape of both `ParseFiltersV2` loops. */
  function Collect<T, U>(xs: seq<T>, f: T -> Option<U>): seq<U>
    decreases |xs|
  {
    if |xs| == 0 then []
    else
      var earlier := Collect(xs[..|xs| - 1], f);
      match f(xs[|xs| - 1])
      case None => earlier
      case Some(y) => earlier + [y]
  }

  lemma {:induction false} CollectMembers<T, U>(xs: seq<T>, f: T -> Option<U>)
    ensures forall y :: y in Collect(xs, f) <==> exists i :: 0 <= i < |xs| && f(xs[i]) == Some(y)
    decreases |xs|
  {
    if |xs| > 0 {
      var init := xs[..|xs| - 1];
      CollectMembers(init, f);
      forall y
        ensures y in Collect(xs, f) <==> exists i :: 0 <= i < |xs| && f(xs[i]) == Some(y)
      {
        if y in Collect(init, f) {
          var i :| 0 <= i < |init| && f(init[i]) == Some(y);
          assert xs[i] == init[i];
        }
        if exists i :: 0 <= i < |xs| && f(xs[i]) == Some(y) {
          var i :| 0 <= i < |xs| && f(xs[i]) == Some(y);
          if i < |init| {
            assert init[i] == xs[i];
          }
        }
      }
    }
  }

  /** What `ParseFiltersV2` returns: nothing for a missing or empty string; otherwise
      one group per non-empty `&&` piece that has at least one parsing `||` piece (see
      `GroupOfMembers` for what such a group holds). */
  lemma ParseV2Meaning(filters: Option<string>, normalizeDate: string -> Option<string>)
    ensures IsNullOrEmpty(filters) ==> ParseV2(filters, normalizeDate) == []
    ensures !IsNullOrEmpty(filters) ==>
      var andParts := NonEmpty(SplitOn(filters.value, "&&"));
      forall g :: g in ParseV2(filters, normalizeDate) <==>
        |g| > 0 && exists i :: 0 <= i < |andParts| && GroupOf(andParts[i], normalizeDate) == g
  {
    if !IsNullOrEmpty(filters) {
      ParseGroupsMembers(NonEmpty(SplitOn(filters.value, "&&")), normalizeDate);
    }
  }

  /** A criterion belongs to the group of an `&&` piece exactly when one of that piece's
      non-empty `||` pieces parses to it. */
  lemma GroupOfMembers(andPart: string, normalizeDate: string -> Option<string>)
    ensures var orParts := NonEmpty(SplitOn(andPart, "||"));
      forall c :: c in GroupOf(andPart, normalizeDate) <==>
        exists i :: 0 <= i < |orParts| && ParseAlternative(orParts[i], normalizeDate) == Some(c)
  {
    ParseGroupMembers(NonEmpty(SplitOn(andPart, "||")), normalizeDate);
  }
}
