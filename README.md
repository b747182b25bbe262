# LibraryManagement request pipeline, modelled in Dafny

This project models four parts of the LibraryManagement web API that decide what a
request gets back:

- **Filter parsing and application** (`FilterParser`).
  - V1 reads query-string pairs such as `author.name.sw=Jo` or `[or]price.gt=10`. Each
    key becomes one criterion of a flat list.
  - V2 reads one compact string such as `price>=10 || title Contains "Dune" && year<2000`.
    `&&` separates groups and `||` separates the alternatives within a group.
  - The two apply functions bind the criteria to the element type, fold them into one
    predicate and keep the elements that satisfy it.
- **Data shaping** (`ObjectShaper`). Projects an entity onto a comma-separated list of
  dotted field paths. Nested objects and collections are shaped again with the rest of
  their paths. With no field list, every public property is copied.
- **Rate limiting** (`RateLimitMiddleware`). A fixed one-minute window per API key, kept
  in a distributed cache. A request over the limit gets a 429 with `Retry-After` and is
  not passed on.
- **Idempotency keys** (`IdempotentAttribute`). On a POST, a key that was already used is
  refused without running the action. A fresh key is remembered only when the action
  returned a 2xx object result.

Files:

| file | contents |
|---|---|
| `wrappers.dfy` | `Option` and `Result`. |
| `ticks.dfy` | `DateTime` tick constants shared by the two middlewares. |
| `text.dfy` | The .NET string operations the core relies on: trimming, splitting, joining, `IndexOf`, `Contains`, `Replace`, and ordinal case-insensitive comparison. |
| `values.dfy` | The runtime value of an entity, as reflection sees it, and the case-insensitive member lookup. |
| `filters.dfy` | `FilterOperator` and `FilterCriteria`. |
| `filter_parser.dfy` | `ParseFiltersV1` and `ParseFiltersV2`. |
| `filter_examples.dfy` | A worked V2 alternative, `age>=18`, parsed to its criterion. |
| `filter_apply.dfy` | `ApplyFiltersV1` and `ApplyFiltersV2`. |
| `object_shaper.dfy` | `GetShapedObject` and `ToExpando`. |
| `rate_limit.dfy` | `RateLimitMiddleware.InvokeAsync` and `RateLimitInfo`. |
| `idempotency.dfy` | `IdempotentAttribute.OnActionExecutionAsync`. |

How each part is modelled:

- **Loops are methods.** Every loop of the source is a Dafny `method` with a `for` loop.
  It is proved equal to a recursive specification function: `ParseV1`, `ParseV2`,
  `ApplyV1`, `ApplyV2` or `Shaped`. The properties are lemmas about those functions.
- **The two middlewares are classes.**
  - `RateLimitMiddleware` holds the cache as a map that `InvokeAsync` reassigns.
  - `RateLimitInfo` is updated in place, as in the source.
  - `IdempotentAttribute` writes a `DistributedCache` object.
  - One request is also written as a pure step function (`Step`, `Decide`). The methods
    are proved equal to it, and the multi-request properties are lemmas about it.
- **The clock, the cache and the action are inputs.** `DateTime.UtcNow`, the cache's
  contents and the action an attribute wraps become parameters. Times are `DateTime`
  ticks (100 ns).
- **Library parsers are function parameters.** `DateTime.TryParse` is `normalizeDate`.
  `Convert.ChangeType` and `DateTime.Parse` are the `Coercions` record. They are left
  unspecified.
- **Exceptions are failures.** An `ArgumentNullException`, a missing property or an
  unconvertible literal becomes the `Failure` case of a `Result`.

## Model

| member | source | states |
|---|---|---|
| Values.FindMember | LibraryManagement.Utility/DataShaper.cs:31 | The member found is the first whose name equals the requested name ignoring case; `None` exactly when no member matches. |
| FilterParser.NormalizeCreatedAt | LibraryManagement.Utility/FilterParser.cs:66-72 | Exactly when the last path segment is `createdAt` (any casing) and the value parses as a date, the value becomes the parser's round-trip form; otherwise it is kept as it is. |
| FilterParser.ParseOperatorName | LibraryManagement.Utility/FilterParser.cs:74 | A recognised operator's enumeration name equals the text ignoring case. |
| FilterParser.ValidOperatorsParse | LibraryManagement.Utility/FilterParser.cs:35-38 | Every operator suffix the key grammar accepts names an enumeration member, so the enum parse never drops such a key. |
| FilterParser.ParseFiltersV1 | LibraryManagement.Utility/FilterParser.cs:25-87 | A null query gives no criteria. The loop over the pairs computes `ParseV1`, which aborts at the first key that has no property path. |
| FilterParser.PairsFailureIsFinal | LibraryManagement.Utility/FilterParser.cs:40-84 | Once a pair has aborted the parse, the pairs after it change nothing. |
| FilterParser.SkippedIffReserved | LibraryManagement.Utility/FilterParser.cs:30-52 | A pair contributes nothing exactly when the first segment of its key is a reserved parameter name, ignoring case. |
| FilterParser.PathMissingIffBareOperator | LibraryManagement.Utility/FilterParser.cs:54-66 | The parse throws on a key exactly when the key is not reserved and is a single segment that is an operator name. |
| FilterParser.ParsedKeyRoundTrip | LibraryManagement.Utility/FilterParser.cs:42-82 | Path plus operator segment join with `.` back into the key without `[or]`. The OR flag is whether the key held `[or]`. The operator is the suffix's (`Eq` without one). Only a `createdAt` value that reads as a date is rewritten. |
| FilterParser.ParsePairsFailsIff | LibraryManagement.Utility/FilterParser.cs:40-86 | The V1 parse fails exactly when some non-reserved key has no property path. |
| FilterParser.ParsePairsCriteria | LibraryManagement.Utility/FilterParser.cs:40-86 | On success, criterion `j` is what the `j`-th non-reserved pair parses to: one criterion per non-reserved pair, in query order. |
| FilterParser.SymbolsByLengthIsStable | LibraryManagement.Utility/FilterParser.cs:162 | The symbol order used is the stable longest-first order of `OperatorMappings`. |
| FilterParser.FirstContained | LibraryManagement.Utility/FilterParser.cs:162-163 | The symbol picked occurs in the text and no symbol earlier in the order does; `None` exactly when none occurs. |
| FilterParser.LongestSymbolChosen | LibraryManagement.Utility/FilterParser.cs:162-164 | The chosen symbol is the longest one that occurs (ties by declaration order), so `>=` wins over `>`; none is chosen exactly when no symbol occurs. |
| FilterParser.SplitInTwo | LibraryManagement.Utility/FilterParser.cs:166 | At most two non-empty pieces. The text is a run of separators, the first piece (free of the separator), a run of at least one separator and the second piece; a missing piece leaves only separators in its place. The leading run is as long as it can be and the first piece ends at the first occurrence after it, so a self-overlapping separator such as `==` splits where .NET splits it. |
| FilterParser.AlternativePath | LibraryManagement.Utility/FilterParser.cs:169-171 | The path joined with `.` is the trimmed property text; it is non-empty and no segment holds a dot. |
| FilterParser.AlternativeValue | LibraryManagement.Utility/FilterParser.cs:170 | The value is the trimmed right side with every leading and trailing double quote removed, and nothing else. |
| FilterParser.AlternativeCriterion | LibraryManagement.Utility/FilterParser.cs:169-185 | The criterion carries the given operator, its path joins back into the trimmed left side, and it is not an OR term. |
| FilterParser.ParseAlternativeMeaning | LibraryManagement.Utility/FilterParser.cs:158-185 | An alternative parses exactly when its trimmed text holds a symbol and splitting at the chosen one leaves text on both sides. Then the operator is that symbol's, the longest symbol in the text; the path joins back into the trimmed left side; the value is the right side without surrounding whitespace and quotes, changed only by the `createdAt` rule. |
| FilterParser.ParseAlternativeNeedsSymbol | LibraryManagement.Utility/FilterParser.cs:162-164 | An alternative with no operator symbol is skipped. |
| FilterExamples.AtLeastExample | LibraryManagement.Utility/FilterParser.cs:158-185 | `age>=18` parses to the criterion `age`, `Gteq`, `18`: `>=` wins over `>` and `=`. |
| FilterParser.ParseFiltersV2 | LibraryManagement.Utility/FilterParser.cs:144-193 | A null or empty string gives no groups. Both nested loops compute `ParseV2`. |
| FilterParser.ParseGroupShape | LibraryManagement.Utility/FilterParser.cs:155-186 | Every criterion of a group is well shaped (its members are given by `ParseGroupMembers`). |
| FilterParser.ParseGroupsShape | LibraryManagement.Utility/FilterParser.cs:151-190 | Every group kept is non-empty and holds only well-shaped criteria (which groups are kept is `ParseGroupsMembers`). |
| FilterParser.ParseV2Shape | LibraryManagement.Utility/FilterParser.cs:144-193 | Every group of the V2 parse is non-empty and holds only well-shaped criteria (what it holds is `ParseV2Meaning`). |
| FilterParser.ParseGroupPlacement | LibraryManagement.Utility/FilterParser.cs:155-186 | An alternative that does not parse leaves the group as it was; one that parses lands right after the criteria of the alternatives before it, so the group keeps their order. |
| FilterParser.ParseGroupMembers | LibraryManagement.Utility/FilterParser.cs:155-186 | A criterion is in a group exactly when one of its alternatives parses to it. |
| FilterParser.GroupOfMembers | LibraryManagement.Utility/FilterParser.cs:153-186 | A criterion belongs to the group of an `&&` piece exactly when one of its non-empty `||` pieces parses to it. |
| FilterParser.ParseGroupsPlacement | LibraryManagement.Utility/FilterParser.cs:151-190 | A part whose group is empty is dropped; any other lands right after the groups of the parts before it. |
| FilterParser.ParseGroupsMembers | LibraryManagement.Utility/FilterParser.cs:151-190 | The groups kept are exactly the non-empty groups of the `&&` parts. |
| FilterParser.ParseV2Meaning | LibraryManagement.Utility/FilterParser.cs:144-193 | A null or empty string gives no groups; otherwise a group is returned exactly when it is the non-empty group of some non-empty `&&` piece. |
| FilterApply.Resolve | LibraryManagement.Utility/FilterParser.cs:99 | A resolved path has one declared name per segment, each equal to the segment ignoring case. |
| FilterApply.Member | LibraryManagement.Utility/FilterParser.cs:99 | One member access succeeds exactly when the type is an object with a member of that name ignoring case, giving the first such declared member and its type; otherwise it throws for that name. |
| FilterApply.ResolveExtend | LibraryManagement.Utility/FilterParser.cs:99 | Resolving one more segment is one more member access on the type reached so far: the type reached is the declared type of the member the last segment names. |
| FilterApply.ResolveIsAggregate | LibraryManagement.Utility/FilterParser.cs:99 | The recursive resolution equals the left fold of member accesses over the path, as `Aggregate` performs it. |
| FilterApply.ResolveFails | LibraryManagement.Utility/FilterParser.cs:99 | Resolution fails exactly when some segment names no member of the type reached before it, and it then throws for that segment. |
| FilterApply.Coerce | LibraryManagement.Utility/FilterParser.cs:101-110 | A string property takes the literal as it is; nothing converts to an object or a collection; a converted literal is non-null and fits the property's type. |
| FilterApply.CompileCriterion | LibraryManagement.Utility/FilterParser.cs:99-126 | A bound criterion keeps its operator and path length, and its literal is non-null. |
| FilterApply.CompileCriterionOrder | LibraryManagement.Utility/FilterParser.cs:99-126 | The member access fails first, then the conversion (`ValueNotConvertible`), then the comparison (`OperatorNotDefined`); a bound criterion holds the declared names `Resolve` found, the operator and the converted literal. |
| FilterApply.KeptIndices | LibraryManagement.Utility/FilterParser.cs:141 | The kept positions are strictly increasing and are exactly the positions whose flag is set. |
| FilterApply.KeepAtIndices | LibraryManagement.Utility/FilterParser.cs:141 | The kept elements are the source read at the kept positions. |
| FilterApply.KeepMembership | LibraryManagement.Utility/FilterParser.cs:141 | An element is kept exactly when it sits at a position whose flag is set. |
| FilterApply.SelectMembership | LibraryManagement.Utility/FilterParser.cs:141 | `Where` keeps an element exactly when it is in the source and satisfies the predicate. |
| FilterApply.SelectIsOrderedSubsequence | LibraryManagement.Utility/FilterParser.cs:141 | `Where` neither reorders, duplicates nor drops a satisfying element. |
| FilterApply.ExactFindsResolved | LibraryManagement.Utility/FilterParser.cs:99 | In an object that fits its type, the exact lookup of a resolved member finds the position the case-insensitive resolution found. |
| FilterApply.NavigateConforms | LibraryManagement.Utility/FilterParser.cs:99-103 | On an element that fits the schema, a resolved path reaches a value of the resolved type, or null. |
| FilterApply.CheckWellTyped | LibraryManagement.Utility/FilterParser.cs:99-126 | A bound check compares values of one type, with an operator that type supports. |
| FilterApply.CompileTerms | LibraryManagement.Utility/FilterParser.cs:97-126 | On success there is one bound term per criterion. |
| FilterApply.CompileTermsKeepsFlags | LibraryManagement.Utility/FilterParser.cs:97-137 | Each term keeps its criterion's operator and OR flag, in order. |
| FilterApply.TermsFailureIsFinal | LibraryManagement.Utility/FilterParser.cs:97-126 | The first criterion that fails to bind decides the failure. |
| FilterApply.DisjunctExtend | LibraryManagement.Utility/FilterParser.cs:134-136 | Appending a term extends a disjunct exactly when the term is OR or holds. |
| FilterApply.WitnessStep | LibraryManagement.Utility/FilterParser.cs:134-136 | An OR term adds a disjunct of its own; an AND term must hold on top of an earlier disjunct. |
| FilterApply.FoldV1Meaning | LibraryManagement.Utility/FilterParser.cs:128-137 | The left fold keeps an element exactly when some term opens a disjunct it satisfies; the first term's OR flag plays no part. |
| FilterApply.AllAndMeansEvery | LibraryManagement.Utility/FilterParser.cs:128-137 | Without OR flags the fold is the conjunction of all criteria. |
| FilterApply.AllOrMeansSome | LibraryManagement.Utility/FilterParser.cs:128-137 | With every later term flagged OR, the fold is the disjunction of all criteria. |
| FilterApply.ThreeTermsExample | LibraryManagement.Utility/FilterParser.cs:128-137 | `[A, B(or), C]` means `(A or B) and C`. |
| FilterApply.TermsStep | LibraryManagement.Utility/FilterParser.cs:97-126 | Binding one more criterion extends the bound terms, or fails the whole apply. |
| FilterApply.FoldV1Snoc | LibraryManagement.Utility/FilterParser.cs:128-137 | A later term joins everything before it with OR or AND, as its flag says. |
| FilterApply.ApplyFiltersV1 | LibraryManagement.Utility/FilterParser.cs:89-142 | No criteria returns the source unchanged. Otherwise the loop computes `ApplyV1`. |
| FilterApply.ApplyV1Keeps | LibraryManagement.Utility/FilterParser.cs:89-142 | A successful V1 apply keeps exactly the source elements for which some term opens a satisfied disjunct. |
| FilterApply.CompileChecks | LibraryManagement.Utility/FilterParser.cs:207-236 | One check per criterion of a group. |
| FilterApply.CompileGroups | LibraryManagement.Utility/FilterParser.cs:203-236 | One list of checks per group, each as long as its group. |
| FilterApply.ChecksFailureIsFinal | LibraryManagement.Utility/FilterParser.cs:207-236 | The first criterion of a group that fails to bind decides the failure. |
| FilterApply.GroupsFailureIsFinal | LibraryManagement.Utility/FilterParser.cs:203-236 | The first group that fails to bind decides the failure. |
| FilterApply.FoldOrMeaning | LibraryManagement.Utility/FilterParser.cs:238 | A group's disjunction holds exactly when one of its checks holds. |
| FilterApply.FoldAndMeaning | LibraryManagement.Utility/FilterParser.cs:241-247 | There is a predicate exactly when some group is non-empty. It holds exactly when every non-empty group has a satisfied check. |
| FilterApply.GroupsSnoc | LibraryManagement.Utility/FilterParser.cs:241-244 | Adding a group keeps the earlier groups' verdict and adds its own, or changes nothing when it is empty. |
| FilterApply.ChecksStep | LibraryManagement.Utility/FilterParser.cs:207-236 | Binding one more criterion of a group extends its checks, or fails. |
| FilterApply.GroupsStep | LibraryManagement.Utility/FilterParser.cs:203-236 | Binding one more group extends the bound groups, or fails. |
| FilterApply.FoldOrSnoc | LibraryManagement.Utility/FilterParser.cs:238 | A later check joins the group's disjunction with OR. |
| FilterApply.FoldAndSnoc | LibraryManagement.Utility/FilterParser.cs:241-244 | A non-empty group joins the conjunction with AND; an empty one is skipped. |
| FilterApply.CombineOrGroup | LibraryManagement.Utility/FilterParser.cs:205-239 | The inner loop fails with the first binding error. Otherwise it gives no expression for an empty group and the OR of its checks for any other. |
| FilterApply.ApplyFiltersV2 | LibraryManagement.Utility/FilterParser.cs:195-249 | No groups returns the source unchanged. Otherwise the nested loops compute `ApplyV2`. |
| FilterApply.ApplyV2Keeps | LibraryManagement.Utility/FilterParser.cs:195-249 | A successful V2 apply keeps exactly the source elements that meet every non-empty group. It fails for lack of a predicate exactly when no group holds a criterion. |
| ObjectShaper.FindExactSameKeys | LibraryManagement.Utility/DataShaper.cs:47 | Two dictionaries with the same keys in the same order find a key at the same position. |
| ObjectShaper.FindExactAppend | LibraryManagement.Utility/DataShaper.cs:47 | Appending an entry leaves the earlier entries where they were found. |
| ObjectShaper.Put | LibraryManagement.Utility/DataShaper.cs:47-78 | `expando[k] = v` adds `k` to the keys and maps it to `v`. Every other key keeps its value. A new key is appended at the end. |
| ObjectShaper.PutAll | LibraryManagement.Utility/DataShaper.cs:75-79 | Storing the first `n` members gives exactly their names as keys. |
| ObjectShaper.Expanded | LibraryManagement.Utility/DataShaper.cs:71-82 | `ToExpando` gives an object with the same keys as the entity's members. |
| ObjectShaper.PutAllCopies | LibraryManagement.Utility/DataShaper.cs:75-79 | With distinct member names, storing them one by one rebuilds the member list. |
| ObjectShaper.ExpandedIsCopy | LibraryManagement.Utility/DataShaper.cs:71-82 | On an object, `ToExpando` is a shallow copy: same names, same order, same values. |
| ObjectShaper.ToExpando | LibraryManagement.Utility/DataShaper.cs:71-82 | The loop over the properties computes `Expanded`. |
| ObjectShaper.TopName | LibraryManagement.Utility/DataShaper.cs:26 | The group key is the prefix of a path before its first dot, or the whole path when it has no dot. |
| ObjectShaper.NestedPath | LibraryManagement.Utility/DataShaper.cs:51 | After a dot, the path is `top + "." + rest`. Without one, the whole path is passed down. |
| ObjectShaper.TrimKeepsOut | LibraryManagement.Utility/DataShaper.cs:23 | Trimming adds no character. |
| ObjectShaper.SplitFieldsClean | LibraryManagement.Utility/DataShaper.cs:22-23 | Every requested piece is non-empty, comma-free and trimmed. |
| ObjectShaper.DistinctIgnoreCasePairwise | LibraryManagement.Utility/DataShaper.cs:24 | No two kept paths are equal ignoring case. |
| ObjectShaper.DistinctIgnoreCaseKeepsGiven | LibraryManagement.Utility/DataShaper.cs:24 | Every kept path was requested. |
| ObjectShaper.DistinctIgnoreCaseCovers | LibraryManagement.Utility/DataShaper.cs:24 | Every requested path is kept under some spelling. |
| ObjectShaper.FieldPathsRepeat | LibraryManagement.Utility/DataShaper.cs:22-24 | Appending paths that are already requested, in any casing, leaves the distinct path list unchanged. |
| ObjectShaper.FieldPathsClean | LibraryManagement.Utility/DataShaper.cs:22-24 | The distinct paths are clean pieces and pairwise different ignoring case. |
| ObjectShaper.FindGroup | LibraryManagement.Utility/DataShaper.cs:26 | The group found has a key equal to the one sought ignoring case; `None` when no group's key matches. |
| ObjectShaper.AddPath | LibraryManagement.Utility/DataShaper.cs:26 | Adding a path never removes a group. |
| ObjectShaper.AddPathWellGrouped | LibraryManagement.Utility/DataShaper.cs:26 | Adding a path keeps every group well formed. |
| ObjectShaper.AddPathKeysDistinct | LibraryManagement.Utility/DataShaper.cs:26 | Adding a path keeps the group keys different ignoring case. |
| ObjectShaper.AddPathWithin | LibraryManagement.Utility/DataShaper.cs:26 | Adding a path adds no path that was not given. |
| ObjectShaper.AddPathCovers | LibraryManagement.Utility/DataShaper.cs:26 | After adding a path, every given path is in some group. |
| ObjectShaper.AddPathKeepsPaths | LibraryManagement.Utility/DataShaper.cs:26 | Adding a path keeps every path a group already holds. |
| ObjectShaper.GroupByTopWellGrouped | LibraryManagement.Utility/DataShaper.cs:26 | Every group is non-empty, keyed by its first path's top name, and its paths share that top name ignoring case. |
| ObjectShaper.GroupByTopKeysDistinct | LibraryManagement.Utility/DataShaper.cs:26 | No two group keys are equal ignoring case. |
| ObjectShaper.GroupByTopKeepsGiven | LibraryManagement.Utility/DataShaper.cs:26 | Every grouped path was given. |
| ObjectShaper.GroupByTopCovers | LibraryManagement.Utility/DataShaper.cs:26 | Every given path is in some group. |
| ObjectShaper.NestedFieldsSplitBack | LibraryManagement.Utility/DataShaper.cs:51-63 | The joined nested field list splits back into exactly the group's nested paths. |
| ObjectShaper.Shaped | LibraryManagement.Utility/DataShaper.cs:8-69 | A null entity fails. A blank field list gives `ToExpando`. A success is always an object. |
| ObjectShaper.ShapedIgnoresRepeat | LibraryManagement.Utility/DataShaper.cs:8-69 | Repeating a requested field, in any casing and with any surrounding whitespace, does not change the shaped object. |
| ObjectShaper.ShapedFails | LibraryManagement.Utility/DataShaper.cs:8-69 | Shaping fails only on a null entity or on a null item of a collection inside it: a non-null entity without null items always shapes. |
| ObjectShaper.Entries | LibraryManagement.Utility/DataShaper.cs:28-66 | One entry per group. |
| ObjectShaper.ShapeItems | LibraryManagement.Utility/DataShaper.cs:55-58 | One shaped result per collection item. |
| ObjectShaper.AllOk | LibraryManagement.Utility/DataShaper.cs:54-59 | A collection that shapes keeps its length. |
| ObjectShaper.AllOkMeaning | LibraryManagement.Utility/DataShaper.cs:54-59 | A collection shapes exactly when every item does; item `i` of the list is shaped item `i`. |
| ObjectShaper.AllOkStep | LibraryManagement.Utility/DataShaper.cs:55-58 | One more item extends the list, or fails the whole collection. |
| ObjectShaper.StoreEntriesFails | LibraryManagement.Utility/DataShaper.cs:28-66 | A failing group fails the whole shaping. |
| ObjectShaper.StoreEntriesStep | LibraryManagement.Utility/DataShaper.cs:28-66 | One more group stores its entry, or fails the whole shaping. |
| ObjectShaper.ShapedByEntries | LibraryManagement.Utility/DataShaper.cs:20-68 | With a field list, the shaped object is the groups' entries stored in order. |
| ObjectShaper.ShapeGroupSound | LibraryManagement.Utility/DataShaper.cs:31-47 | A group stores only a non-null property whose name matches the key ignoring case (the first such), under its declared name. |
| ObjectShaper.ShapeGroupComplete | LibraryManagement.Utility/DataShaper.cs:31-65 | Such a property is always stored unless shaping it fails. |
| ObjectShaper.ShapeGroupValue | LibraryManagement.Utility/DataShaper.cs:45-64 | A bare name stores the value as it is. A collection stores each item shaped with the nested paths, same length. Any other value is shaped once with them. |
| ObjectShaper.StoreEntriesAllOk | LibraryManagement.Utility/DataShaper.cs:28-66 | Storing the entries succeeds exactly when no group failed. |
| ObjectShaper.StoreEntriesKeys | LibraryManagement.Utility/DataShaper.cs:47-63 | The keys are exactly the names the groups store. |
| ObjectShaper.StoreEntriesLookup | LibraryManagement.Utility/DataShaper.cs:47-63 | A name only one group stores is found with that group's value. |
| ObjectShaper.FindMemberIgnoresCase | LibraryManagement.Utility/DataShaper.cs:26-31 | Any spelling of a group key finds the same property. |
| ObjectShaper.FieldGroups | LibraryManagement.Utility/DataShaper.cs:22-26 | The groups of a field list are well formed, hold exactly the requested paths, and have distinct keys. |
| ObjectShaper.GroupedKeysSound | LibraryManagement.Utility/DataShaper.cs:26-47 | Every stored key is a non-null property some requested path names. |
| ObjectShaper.GroupedKeysComplete | LibraryManagement.Utility/DataShaper.cs:26-43 | Every non-null property a requested path names belongs to some group. |
| ObjectShaper.GroupedKeys | LibraryManagement.Utility/DataShaper.cs:26-66 | For any such grouping, a name is a key exactly when it names a requested non-null property. |
| ObjectShaper.EntryNamesDiffer | LibraryManagement.Utility/DataShaper.cs:26-47 | Two groups never store under the same name. |
| ObjectShaper.GroupedLookup | LibraryManagement.Utility/DataShaper.cs:26-66 | Each group's entry is found under its name with its value. |
| ObjectShaper.ShapedKeys | LibraryManagement.Utility/DataShaper.cs:8-69 | A name is a key of the shaped object exactly when it is the declared name of a non-null property that some requested path names at its top level. |
| ObjectShaper.ShapedEntries | LibraryManagement.Utility/DataShaper.cs:8-69 | Each group's entry is in the shaped object under the property's declared name, with its value. |
| ObjectShaper.GetShapedObject | LibraryManagement.Utility/DataShaper.cs:8-69 | The method, whose loop over the groups calls `ShapeEntry`, computes `Shaped`. |
| ObjectShaper.ShapeEntry | LibraryManagement.Utility/DataShaper.cs:30-65 | The body of the group loop, including the loop over a collection, computes `ShapeGroup`. |
| RateLimit.CacheKey | LibraryManagement.Services/Middlewares/RateLimitMiddleware.cs:25 | The cache key starts with `ratenLimit_`. |
| RateLimit.CacheKeySame | LibraryManagement.Services/Middlewares/RateLimitMiddleware.cs:22-25 | Two requests share a counter exactly when their API keys print the same; a missing key prints as empty. |
| RateLimit.StepLimit | LibraryManagement.Services/Middlewares/RateLimitMiddleware.cs:23-56 | The `X-RateLimit-Limit` header and the rejection threshold are the configured limit, or 10 when the request carries none. |
| RateLimit.CountedFromCache | LibraryManagement.Services/Middlewares/RateLimitMiddleware.cs:28-51 | An absent or expired entry, or one whose window has ended, starts a fresh window of one request at the current time; otherwise the request joins the cached window with one more request. |
| RateLimit.CeilSeconds | LibraryManagement.Services/Middlewares/RateLimitMiddleware.cs:62 | The result is the least number of whole seconds covering the span. |
| RateLimit.UnixSeconds | LibraryManagement.Services/Middlewares/RateLimitMiddleware.cs:58 | The reset header is the whole seconds since the Unix epoch, rounded down. |
| RateLimit.StepRejects | LibraryManagement.Services/Middlewares/RateLimitMiddleware.cs:54-75 | A request is turned away exactly when its count exceeds the limit. A turned-away request leaves the cache as it was. |
| RateLimit.StepStores | LibraryManagement.Services/Middlewares/RateLimitMiddleware.cs:77-96 | A request let through is readable under its key until exactly the end of its window and not after. No other key changes. |
| RateLimit.ExpiryAhead | LibraryManagement.Services/Middlewares/RateLimitMiddleware.cs:77-84 | The relative expiration given to the cache is always positive. |
| RateLimit.CountedWindow | LibraryManagement.Services/Middlewares/RateLimitMiddleware.cs:31-51 | The window a request is counted in contains the current time and has a count of at least 1. |
| RateLimit.RemainingMeaning | LibraryManagement.Services/Middlewares/RateLimitMiddleware.cs:54-57 | Remaining is never negative and is zero on a rejection. Otherwise it is the limit minus the count. |
| RateLimit.RetryAfterMeaning | LibraryManagement.Services/Middlewares/RateLimitMiddleware.cs:43-62 | `Retry-After` is at least 1 second, and at most 60 when no window starts in the future. A request made that long after the rejection starts a fresh window. |
| RateLimit.StepKeepsBounded | LibraryManagement.Services/Middlewares/RateLimitMiddleware.cs:45-86 | With one limit for everybody, every stored count stays between 1 and the limit. |
| RateLimit.Run | LibraryManagement.Services/Middlewares/RateLimitMiddleware.cs:20-89 | One verdict per request. |
| RateLimit.RunFromCount | LibraryManagement.Services/Middlewares/RateLimitMiddleware.cs:43-86 | Within a window already holding `c` requests, request `i` is let through exactly when `c + i` is below the limit. |
| RateLimit.RunBelowOne | LibraryManagement.Services/Middlewares/RateLimitMiddleware.cs:60-75 | With a limit below one, every request is refused. |
| RateLimit.AtMostLimitPerWindow | LibraryManagement.Services/Middlewares/RateLimitMiddleware.cs:31-96 | Of the requests in the minute after a client's first one (with no open window), exactly the first `limit` are let through. |
| RateLimit.RateLimitInfo.constructor | LibraryManagement.Services/Middlewares/RateLimitMiddleware.cs:92-96 | A fresh `RateLimitInfo` holds the given count and start. |
| RateLimit.RateLimitMiddleware.constructor | LibraryManagement.Services/Middlewares/RateLimitMiddleware.cs:14-18 | The middleware starts with the given cache and has passed nothing on. |
| RateLimit.RateLimitMiddleware.InvokeAsync | LibraryManagement.Services/Middlewares/RateLimitMiddleware.cs:20-89 | The reply and the new cache are `Step`'s. The next handler is called exactly when the request is let through. |
| Idempotency.HeaderValue | LibraryManagement.Common/IdempotentAttribute.cs:40 | A value is found exactly when some header's name matches ignoring case, and it is that header's value. |
| Idempotency.CacheKey | LibraryManagement.Common/IdempotentAttribute.cs:47 | The cache key is `Idempotent_` followed by the header value. |
| Idempotency.CacheKeyInjective | LibraryManagement.Common/IdempotentAttribute.cs:47 | Different header values never share an entry. |
| Idempotency.RecordedPathsMatch | LibraryManagement.Common/IdempotentAttribute.cs:52-81 | Recorded paths match ignoring case exactly when the request paths do, a missing path counting as `unknown`; lower-casing never changes the verdict. |
| Text.LowerAllIdempotent | LibraryManagement.Common/IdempotentAttribute.cs:52 | `ToLowerInvariant` leaves no upper-case letter, lower-casing twice is lower-casing once, and a lower-cased path equals the original ignoring case. |
| Idempotency.ExpiredKeyIsFresh | LibraryManagement.Common/IdempotentAttribute.cs:48-50 | An entry past its expiry decides the request exactly as if the key had never been stored. |
| Idempotency.UnguardedPassesThrough | LibraryManagement.Common/IdempotentAttribute.cs:34-38 | Switched off, or not a POST: the action runs and the cache is neither read nor written. |
| Idempotency.MissingHeaderRefused | LibraryManagement.Common/IdempotentAttribute.cs:40-44 | A guarded request without the header gets 400 `Invalid or missing <header> header`. The action does not run and the cache is not touched. |
| Idempotency.UsedKeyRefused | LibraryManagement.Common/IdempotentAttribute.cs:50-73 | A key in the cache is always refused, without running the action or changing the cache. The message is "already used" exactly when the recorded paths match ignoring case. |
| Idempotency.FreshKeyRuns | LibraryManagement.Common/IdempotentAttribute.cs:76-93 | A fresh key runs the action. The cache gains that key, with the status, value and recorded path, exactly when the result is a 2xx object result and the lifetime is positive. |
| Idempotency.ReplayRefused | LibraryManagement.Common/IdempotentAttribute.cs:47-93 | After a request is remembered, the same key before expiry is refused whatever the action would return. It is "already used" when the paths match ignoring case and a path mismatch otherwise. |
| Idempotency.DistributedCache.constructor | LibraryManagement.Common/IdempotentAttribute.cs:46 | The cache starts with the given entries. |
| Idempotency.IdempotentAttribute.constructor | LibraryManagement.Common/IdempotentAttribute.cs:22-30 | The lifetime is the given minutes in ticks, with the given header name and switch. |
| Idempotency.IdempotentAttribute.WithDefaults | LibraryManagement.Common/IdempotentAttribute.cs:15-30 | The defaults are 60 minutes, `X-Idempotency-Key`, switched on. |
| Idempotency.IdempotentAttribute.OnActionExecutionAsync | LibraryManagement.Common/IdempotentAttribute.cs:32-94 | The decision and the new cache are `Decide`'s. |

## Definitions

These functions transcribe source lines and carry no contract of their own; the
lemmas named beside each state what they mean.

| definition | source | meaning stated by |
|---|---|---|
| RateLimit.Window.End | LibraryManagement.Services/Middlewares/RateLimitMiddleware.cs:96 | `StepStores`, `RetryAfterMeaning`, `AtMostLimitPerWindow` |
| RateLimit.RateLimitInfo.WindowEnd | LibraryManagement.Services/Middlewares/RateLimitMiddleware.cs:96 | `RateLimitMiddleware.InvokeAsync` (through `Step`) |
| RateLimit.NextWindow | LibraryManagement.Services/Middlewares/RateLimitMiddleware.cs:31-51 | `CountedFromCache`, `CountedWindow` |
| RateLimit.Respond | LibraryManagement.Services/Middlewares/RateLimitMiddleware.cs:54-62 | `StepLimit`, `StepRejects`, `RemainingMeaning`, `RetryAfterMeaning` |
| RateLimit.Step | LibraryManagement.Services/Middlewares/RateLimitMiddleware.cs:20-89 | `StepRejects`, `StepStores`, `StepKeepsBounded`, `AtMostLimitPerWindow` |
| Idempotency.Decide | LibraryManagement.Common/IdempotentAttribute.cs:32-94 | `UnguardedPassesThrough`, `MissingHeaderRefused`, `UsedKeyRefused`, `FreshKeyRuns`, `ReplayRefused`, `ExpiredKeyIsFresh` |
| FilterParser.ParseKey | LibraryManagement.Utility/FilterParser.cs:42-84 | `SkippedIffReserved`, `PathMissingIffBareOperator`, `ParsedKeyRoundTrip` |
| FilterParser.ParsePairs | LibraryManagement.Utility/FilterParser.cs:40-86 | `PairsFailureIsFinal`, `ParsePairsFailsIff`, `ParsePairsCriteria` |
| FilterParser.ParseV1 | LibraryManagement.Utility/FilterParser.cs:25-87 | `ParseFiltersV1`, `ParsePairsCriteria` |
| FilterParser.ChooseOperator | LibraryManagement.Utility/FilterParser.cs:162-164 | `LongestSymbolChosen` |
| FilterParser.ParseGroup | LibraryManagement.Utility/FilterParser.cs:155-186 | `ParseGroupPlacement`, `ParseGroupMembers`, `ParseGroupShape` |
| FilterParser.ParseGroups | LibraryManagement.Utility/FilterParser.cs:151-190 | `ParseGroupsPlacement`, `ParseGroupsMembers`, `ParseGroupsShape` |
| FilterParser.ParseV2 | LibraryManagement.Utility/FilterParser.cs:144-193 | `ParseFiltersV2`, `ParseV2Meaning`, `ParseV2Shape` |
| FilterApply.Navigate | LibraryManagement.Utility/FilterParser.cs:99 | `NavigateConforms`, `ExactFindsResolved` |
| FilterApply.Satisfies | LibraryManagement.Utility/FilterParser.cs:114-126 | `CheckWellTyped`, `FoldV1Meaning`, `FoldOrMeaning` |
| FilterApply.FoldV1 | LibraryManagement.Utility/FilterParser.cs:128-137 | `FoldV1Meaning`, `FoldV1Snoc`, `AllAndMeansEvery`, `AllOrMeansSome`, `ThreeTermsExample` |
| FilterApply.ApplyV1 | LibraryManagement.Utility/FilterParser.cs:89-142 | `ApplyFiltersV1`, `ApplyV1Keeps` |
| FilterApply.FoldOr | LibraryManagement.Utility/FilterParser.cs:238 | `FoldOrMeaning`, `FoldOrSnoc` |
| FilterApply.FoldAnd | LibraryManagement.Utility/FilterParser.cs:241-247 | `FoldAndMeaning`, `FoldAndSnoc`, `GroupsSnoc` |
| FilterApply.ApplyV2 | LibraryManagement.Utility/FilterParser.cs:195-249 | `ApplyFiltersV2`, `ApplyV2Keeps` |
| FilterApply.Keep | LibraryManagement.Utility/FilterParser.cs:141 | `KeepAtIndices`, `KeepMembership` |
| FilterApply.Select | LibraryManagement.Utility/FilterParser.cs:141 | `SelectMembership`, `SelectIsOrderedSubsequence` |
| ObjectShaper.DistinctIgnoreCase | LibraryManagement.Utility/DataShaper.cs:24 | `DistinctIgnoreCasePairwise`, `DistinctIgnoreCaseKeepsGiven`, `DistinctIgnoreCaseCovers`, `FieldPathsRepeat` |
| ObjectShaper.GroupByTop | LibraryManagement.Utility/DataShaper.cs:26 | `GroupByTopWellGrouped`, `GroupByTopKeysDistinct`, `GroupByTopKeepsGiven`, `GroupByTopCovers` |
| ObjectShaper.ShapeGroup | LibraryManagement.Utility/DataShaper.cs:30-65 | `ShapeGroupSound`, `ShapeGroupComplete`, `ShapeGroupValue`, `ShapeEntry` |
| ObjectShaper.StoreEntries | LibraryManagement.Utility/DataShaper.cs:28-66 | `StoreEntriesAllOk`, `StoreEntriesKeys`, `StoreEntriesLookup` |

## Left out

- Case-insensitive comparison folds ASCII letters only. `OrdinalIgnoreCase` and
  `ToLowerInvariant` beyond ASCII are not modelled.
- `Enum.TryParse` also accepts numeric text (`"3"`) and comma-separated flag lists. The
  model recognises operator member names only.
- `decimal` and `double` properties are compared as integers. `Math.Ceiling` over a
  `double` is exact integer arithmetic here; spans are below a minute, where the two agree.
- `DateTime.TryParse`, `DateTime.Parse` and `Convert.ChangeType` are unspecified
  function parameters, so culture and format rules are outside the model.
- FilterApply: a path through a null property reads as null instead of throwing a
  `NullReferenceException` (in memory), as the database provider the queries are sent
  to does. Null then fails every comparison except `Neq`, which holds.
- Resolve: members of the built-in types are not modelled. A path that goes on past a
  string (`Length`), a date (`Year`) or a collection (`Count`) fails with
  `PropertyNotFound`, where `Expression.PropertyOrField` would reach that member.
- Resolve: when two members differ only by case, `PropertyOrField` throws
  `AmbiguousMatchException`; the model takes the first case-insensitive match.
- FilterApply: the element type is a static schema. Indexers, fields that differ from
  properties, nullable value types (treated as their underlying type) and user-defined
  operators are not modelled.
- ObjectShaper: `GetProperty` with `IgnoreCase` throws when two properties differ only by
  case. The model takes the first match.
- ObjectShaper: a value that is not an object (a string, a number, a collection) has no
  public properties in the model. The properties such values expose through reflection
  (`Length`, `Count`, ...) are not modelled.
- ObjectShaper: a collection is only a collection of references (`IEnumerable<object>`).
  A collection of value types is shaped as one value, which has no properties here.
- ObjectShaper: cyclic object graphs cannot be written as values, so shaping one is
  not modelled.
- RateLimit: counts and limits are unbounded integers. The source's 32-bit `int`
  wraps in `RequestCount++` after 2^31-1 requests in one window, and in
  `nLimit - RequestCount` for a limit near `int.MinValue` (where the model reports 0
  remaining and the source may report a large positive number).
- RateLimit: `WindowStart.AddMinutes(1)` near `DateTime.MaxValue` throws; times are
  unbounded ticks here.
- RateLimit and Idempotency: JSON serialisation of the cached values is taken as
  lossless, and the response body and header text formatting are left out.
- RateLimit and Idempotency: entry lifetimes are counted from the request's start
  (one `now` for the cache read and the write). The source counts them from the moment
  `SetStringAsync` runs, after the awaited read and, for idempotency, after the action,
  so a real entry lives at least as long as the modelled one.
- RateLimit and Idempotency: two concurrent requests with the same key can both read
  before either writes. The model runs requests one at a time.
- Idempotency: the action's value is a `Value`. The `Response<bool>` body of the
  "already used" answer is reduced to its message.
- Idempotency: `TimeSpan.FromMinutes` overflow for huge minute counts is not modelled.
- Idempotency: a header with several values is taken as its comma-joined text.
- The commented-out V1 parser at `FilterParser.cs` lines 252-304 is not part of this model.
