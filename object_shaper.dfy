/** `ObjectShaper`: the projection of an entity onto the fields a client asks for.

    The entity and the shaped result are both `Value`s; a shaped object is an `Obj`
    whose members are the `ExpandoObject`'s entries in insertion order. Requested paths
    are grouped by their first segment; each group either copies a top-level property
    as it is or shapes it again with the rest of its paths. */
module ObjectShaper {
  import opened Wrappers
  import opened Text
  import opened Values

  /** `ArgumentNullException`: shaping a null entity (or a null item of a collection). */
  datatype ShapeError = NullEntity

  /** The entries of an `ExpandoObject`, in insertion order. */
  type Expando = seq<(string, Value)>

  /** The only way shaping fails. */
  lemma FailureIsNullEntity<T>(r: Result<T, ShapeError>)
    requires r.Failure?
    ensures r == Failure(NullEntity)
  {
    match r.error
    case NullEntity =>
  }

  /** Requested paths that share a top-level name; the key is spelled as in the first. */
  datatype Group = Group(key: string, paths: seq<string>)

  // ---------------------------------------------------------------------------
  // The dictionary
  // ---------------------------------------------------------------------------

  function Keys(d: Expando): set<string> {
    set i | 0 <= i < |d| :: d[i].0
  }

  function Lookup(d: Expando, k: string): Option<Value> {
    match FindExact(d, k, 0)
    case None => None
    case Some(j) => Some(d[j].1)
  }

  /** Declared member names are pairwise different, as reflection reports them. */
  predicate DistinctNames(d: Expando) {
    forall i, j :: 0 <= i < j < |d| ==> d[i].0 != d[j].0
  }

  lemma {:induction false} FindExactSameKeys(a: Expando, b: Expando, x: string, k: nat)
    requires |a| == |b| && k <= |a|
    requires forall i :: 0 <= i < |a| ==> a[i].0 == b[i].0
    ensures FindExact(a, x, k) == FindExact(b, x, k)
    decreases |a| - k
  {
    if k < |a| {
      FindExactSameKeys(a, b, x, k + 1);
    }
  }

  lemma {:induction false} FindExactAppend(d: Expando, e: (string, Value), x: string, k: nat)
    requires k <= |d|
    ensures FindExact(d + [e], x, k) ==
      if FindExact(d, x, k).Some? then FindExact(d, x, k)
      else if e.0 == x then Some(|d|) else None
    decreases |d| - k
  {
    if k < |d| {
      assert (d + [e])[k] == d[k];
      FindExactAppend(d, e, x, k + 1);
    }
  }

  /** `expando[k] = v`: the entry for `k` is overwritten in place, or appended. */
  function Put(d: Expando, k: string, v: Value): (r: Expando)
    ensures Keys(r) == Keys(d) + {k}
    ensures Lookup(r, k) == Some(v)
    ensures forall other :: other != k ==> Lookup(r, other) == Lookup(d, other)
    ensures k !in Keys(d) ==> r == d + [(k, v)]
  {
    var found := FindExact(d, k, 0);
    if found.Some? then
      var r := d[found.value := (k, v)];
      assert forall x :: FindExact(r, x, 0) == FindExact(d, x, 0) by {
        forall x {
          FindExactSameKeys(r, d, x, 0);
        }
      }
      assert forall x :: x in Keys(r) <==> x in Keys(d) by {
        forall x
          ensures x in Keys(r) <==> x in Keys(d)
        {
          if x in Keys(d) {
            var i :| 0 <= i < |d| && d[i].0 == x;
            assert r[i].0 == x;
          }
        }
      }
      r
    else
      var r := d + [(k, v)];
      assert forall x :: FindExact(r, x, 0) == (if FindExact(d, x, 0).Some? then FindExact(d, x, 0) else if k == x then Some(|d|) else None) by {
        forall x {
          FindExactAppend(d, (k, v), x, 0);
        }
      }
      assert forall x :: x in Keys(r) <==> x in Keys(d) || x == k by {
        forall x
          ensures x in Keys(r) <==> x in Keys(d) || x == k
        {
          if x in Keys(d) {
            var i :| 0 <= i < |d| && d[i].0 == x;
            assert r[i].0 == x;
          }
          if x == k {
            assert r[|d|].0 == x;
          }
        }
      }
      r
  }

  // ---------------------------------------------------------------------------
  // ToExpando
  // ---------------------------------------------------------------------------

  /** The first `n` members stored one after the other. */
  function PutAll(members: Expando, n: nat): (r: Expando)
    requires n <= |members|
    ensures Keys(r) == Keys(members[..n])
  {
    if n == 0 then []
    else
      assert Keys(members[..n]) == Keys(members[..n - 1]) + {members[n - 1].0} by {
        assert forall i :: 0 <= i < n - 1 ==> members[..n][i] == members[..n - 1][i];
        assert members[..n][n - 1] == members[n - 1];
      }
      Put(PutAll(members, n - 1), members[n - 1].0, members[n - 1].1)
  }

  /** `ToExpando`: every public member copied under its name. A value with no public
      members of its own (a scalar, a collection) gives an empty object. */
  function Expanded(v: Value): (r: Value)
    ensures r.Obj?
    ensures v.Obj? ==> Keys(r.members) == Keys(v.members)
  {
    if v.Obj? then
      assert v.members[..|v.members|] == v.members;
      Obj(PutAll(v.members, |v.members|))
    else Obj([])
  }

  lemma {:induction false} PutAllCopies(members: Expando, n: nat)
    requires n <= |members| && DistinctNames(members)
    ensures PutAll(members, n) == members[..n]
  {
    if n > 0 {
      PutAllCopies(members, n - 1);
      assert members[n - 1].0 !in Keys(members[..n - 1]);
      assert members[..n - 1] + [members[n - 1]] == members[..n];
    }
  }

  /** On an object whose member names are distinct (any CLR object), `ToExpando` is a
      shallow copy: the same names, in declaration order, with the same values. */
  lemma ExpandedIsCopy(members: Expando)
    requires DistinctNames(members)
    ensures Expanded(Obj(members)) == Obj(members)
  {
    PutAllCopies(members, |members|);
    assert members[..|members|] == members;
  }

  method ToExpando(obj: Value) returns (r: Value)
    ensures r == Expanded(obj)
  {
    var expando: Expando := [];
    if obj.Obj? {
      var props := obj.members;
      for i := 0 to |props|
        invariant expando == PutAll(props, i)
      {
        var prop := props[i];
        expando := Put(expando, prop.0, prop.1);
      }
      assert props[..|props|] == props;
    }
    r := Obj(expando);
  }

  // ---------------------------------------------------------------------------
  // The requested fields
  // ---------------------------------------------------------------------------

  /** `p[..p.IndexOf('.')]`, or the whole path when it has no dot: the group key. */
  function TopName(p: string): (r: string)
    ensures '.' !in r
    ensures IsPrefix(r, p)
    ensures '.' !in p ==> r == p
  {
    match IndexOfChar(p, '.')
    case None => p
    case Some(i) =>
      assert forall j :: 0 <= j < i ==> p[..i][j] == p[j];
      p[..i]
  }

  /** `p[(p.IndexOf('.') + 1)..]`: what follows the first dot, or the whole path when it
      has no dot (`IndexOf` gives -1 and the slice starts at 0). */
  function NestedPath(p: string): (r: string)
    ensures '.' in p ==> |r| < |p| && p == TopName(p) + "." + r
    ensures '.' !in p ==> r == p
    ensures IsSuffix(r, p)
  {
    match IndexOfChar(p, '.')
    case None => p
    case Some(i) =>
      assert p == p[..i] + "." + p[i + 1..];
      DropIsSuffix(p, i + 1);
      p[i + 1..]
  }

  function TrimAll(xs: seq<string>): (r: seq<string>)
    ensures |r| == |xs|
    ensures forall i :: 0 <= i < |xs| ==> r[i] == Trim(xs[i])
  {
    seq(|xs|, i requires 0 <= i < |xs| => Trim(xs[i]))
  }

  /** A trimmed string is a slice of the original: it holds no character the original
      does not. */
  lemma TrimKeepsOut(s: string, c: char)
    requires c !in s
    ensures c !in Trim(s)
  {
    var a := TrimStart(s, IsWhiteSpace);
    assert forall i :: 0 <= i < |a| ==> a[i] in s;
    var t := TrimEnd(a, IsWhiteSpace);
    assert forall i :: 0 <= i < |t| ==> t[i] in a;
  }

  /** `fields.Split(',', RemoveEmptyEntries | TrimEntries)`: the trimmed, non-empty
      pieces between commas. */
  function SplitFields(fields: string): seq<string> {
    NonEmpty(TrimAll(SplitChar(fields, ',')))
  }

  /** A piece of a field list as splitting leaves it: non-empty, free of commas, and
      with no whitespace at either end. */
  predicate CleanPiece(x: string) {
    x != "" && ',' !in x && !IsWhiteSpace(x[0]) && !IsWhiteSpace(x[|x| - 1])
  }

  lemma SplitFieldsClean(fields: string)
    ensures forall x :: x in SplitFields(fields) ==> CleanPiece(x)
  {
    var pieces := SplitChar(fields, ',');
    SplitCharPieces(fields, ',');
    var trimmed := TrimAll(pieces);
    forall i | 0 <= i < |pieces| && trimmed[i] != ""
      ensures CleanPiece(trimmed[i])
    {
      TrimKeepsOut(pieces[i], ',');
      TrimBothEnds(pieces[i], IsWhiteSpace);
    }
  }

  /** `Distinct(StringComparer.OrdinalIgnoreCase)`: the first spelling of each path,
      in order of first appearance. */
  function DistinctIgnoreCase(xs: seq<string>): seq<string>
    decreases |xs|
  {
    if |xs| == 0 then []
    else
      var init := DistinctIgnoreCase(xs[..|xs| - 1]);
      if InIgnoreCase(xs[|xs| - 1], init) then init else init + [xs[|xs| - 1]]
  }

  /** No two entries are equal ignoring case. */
  predicate DistinctFold(r: seq<string>) {
    forall a, b :: 0 <= a < b < |r| ==> !EqualsIgnoreCase(r[a], r[b])
  }

  /** No two kept paths are equal ignoring case. */
  lemma {:induction false} DistinctIgnoreCasePairwise(xs: seq<string>)
    ensures DistinctFold(DistinctIgnoreCase(xs))
    decreases |xs|
  {
    if |xs| > 0 {
      var n := |xs| - 1;
      var init := DistinctIgnoreCase(xs[..n]);
      DistinctIgnoreCasePairwise(xs[..n]);
      if !InIgnoreCase(xs[n], init) {
        var r := init + [xs[n]];
        forall a, b | 0 <= a < b < |r|
          ensures !EqualsIgnoreCase(r[a], r[b])
        {
          assert r[a] == init[a];
          if b == |init| {
            assert r[b] == xs[n];
            assert !EqualsIgnoreCase(init[a], xs[n]);
          } else {
            assert r[b] == init[b];
          }
        }
      }
    }
  }

  /** Every kept path was given. */
  lemma {:induction false} DistinctIgnoreCaseKeepsGiven(xs: seq<string>)
    ensures forall i :: 0 <= i < |DistinctIgnoreCase(xs)| ==> DistinctIgnoreCase(xs)[i] in xs
    decreases |xs|
  {
    if |xs| > 0 {
      var n := |xs| - 1;
      DistinctIgnoreCaseKeepsGiven(xs[..n]);
      var init := DistinctIgnoreCase(xs[..n]);
      assert forall i :: 0 <= i < |init| ==> init[i] in xs[..n];
      assert forall x :: x in xs[..n] ==> x in xs;
    }
  }

  /** Every given path is kept under some spelling. */
  lemma {:induction false} DistinctIgnoreCaseCovers(xs: seq<string>)
    ensures forall k :: 0 <= k < |xs| ==> InIgnoreCase(xs[k], DistinctIgnoreCase(xs))
    decreases |xs|
  {
    if |xs| > 0 {
      var n := |xs| - 1;
      var init := DistinctIgnoreCase(xs[..n]);
      DistinctIgnoreCaseCovers(xs[..n]);
      var r := DistinctIgnoreCase(xs);
      forall k | 0 <= k < |xs|
        ensures InIgnoreCase(xs[k], r)
      {
        if k == n {
          if !InIgnoreCase(xs[n], init) {
            assert r[|init|] == xs[n];
          }
        } else {
          assert xs[..n][k] == xs[k];
          var i :| 0 <= i < |init| && EqualsIgnoreCase(init[i], xs[k]);
          assert r[i] == init[i];
        }
      }
    }
  }

  /** The distinct requested paths. */
  function FieldPaths(fields: string): seq<string> {
    DistinctIgnoreCase(SplitFields(fields))
  }

  /** Pieces already present (ignoring case) add nothing to the distinct list. */
  lemma {:induction false} DistinctIgnoreCaseAbsorbs(xs: seq<string>, ys: seq<string>)
    requires forall y :: y in ys ==> InIgnoreCase(y, xs)
    ensures DistinctIgnoreCase(xs + ys) == DistinctIgnoreCase(xs)
    decreases |ys|
  {
    if |ys| == 0 {
      assert xs + ys == xs;
    } else {
      var m := |ys| - 1;
      var all := xs + ys;
      assert all[..|all| - 1] == xs + ys[..m];
      assert all[|all| - 1] == ys[m];
      DistinctIgnoreCaseAbsorbs(xs, ys[..m]);
      var kept := DistinctIgnoreCase(xs);
      DistinctIgnoreCaseCovers(xs);
      assert ys[m] in ys;
      var k :| 0 <= k < |xs| && EqualsIgnoreCase(xs[k], ys[m]);
      assert InIgnoreCase(xs[k], kept);
      var i :| 0 <= i < |kept| && EqualsIgnoreCase(kept[i], xs[k]);
      assert EqualsIgnoreCase(kept[i], ys[m]);
    }
  }

  lemma TrimAllAppend(xs: seq<string>, ys: seq<string>)
    ensures TrimAll(xs + ys) == TrimAll(xs) + TrimAll(ys)
  {
  }

  /** Splitting `f + "," + p` splits `f` and `p` apart. */
  lemma SplitFieldsAppend(f: string, p: string)
    ensures SplitFields(f + "," + p) == SplitFields(f) + SplitFields(p)
  {
    assert f + "," + p == f + [','] + p;
    SplitCharAppend(f, p, ',');
    TrimAllAppend(SplitChar(f, ','), SplitChar(p, ','));
    NonEmptyAppend(TrimAll(SplitChar(f, ',')), TrimAll(SplitChar(p, ',')));
  }

  /** Appending paths that are already requested, in any casing, requests nothing new. */
  lemma FieldPathsRepeat(f: string, p: string)
    requires forall q :: q in SplitFields(p) ==> InIgnoreCase(q, SplitFields(f))
    ensures FieldPaths(f + "," + p) == FieldPaths(f)
  {
    SplitFieldsAppend(f, p);
    DistinctIgnoreCaseAbsorbs(SplitFields(f), SplitFields(p));
  }

  /** The requested paths are clean pieces of the field list and pairwise different
      ignoring case. */
  lemma FieldPathsClean(fields: string)
    ensures DistinctFold(FieldPaths(fields))
    ensures forall i :: 0 <= i < |FieldPaths(fields)| ==> CleanPiece(FieldPaths(fields)[i])
  {
    DistinctIgnoreCasePairwise(SplitFields(fields));
    DistinctIgnoreCaseKeepsGiven(SplitFields(fields));
    SplitFieldsClean(fields);
  }

  /** The first group at or after `k` whose key matches ignoring case. */
  function FindGroup(groups: seq<Group>, key: string, k: nat): (r: Option<nat>)
    requires k <= |groups|
    ensures r.Some? ==> k <= r.value < |groups| && EqualsIgnoreCase(groups[r.value].key, key)
    ensures r.None? ==> forall j :: k <= j < |groups| ==> !EqualsIgnoreCase(groups[j].key, key)
    decreases |groups| - k
  {
    if k == |groups| then None
    else if EqualsIgnoreCase(groups[k].key, key) then Some(k)
    else FindGroup(groups, key, k + 1)
  }

  /** A group is non-empty, its key is its first path's top name, and all its paths have
      that top name ignoring case. */
  predicate GroupOk(g: Group) {
    && |g.paths| > 0
    && g.key == TopName(g.paths[0])
    && forall q :: q in g.paths ==> EqualsIgnoreCase(TopName(q), g.key)
  }

  predicate WellGrouped(groups: seq<Group>) {
    forall j :: 0 <= j < |groups| ==> GroupOk(groups[j])
  }

  predicate KeysDistinct(groups: seq<Group>) {
    forall a, b :: 0 <= a < b < |groups| ==> !EqualsIgnoreCase(groups[a].key, groups[b].key)
  }

  /** Every grouped path is one of `paths`. */
  predicate GroupsWithin(groups: seq<Group>, paths: seq<string>) {
    forall j, q :: 0 <= j < |groups| && q in groups[j].paths ==> q in paths
  }

  /** Every one of `paths` is in some group. */
  predicate GroupsCover(groups: seq<Group>, paths: seq<string>) {
    forall k :: 0 <= k < |paths| ==> Grouped(paths[k], groups)
  }

  predicate Grouped(q: string, groups: seq<Group>) {
    exists j :: 0 <= j < |groups| && q in groups[j].paths
  }

  /** `GroupBy(TopName, StringComparer.OrdinalIgnoreCase)`: groups in order of first
      appearance, paths in source order within each group. */
  function GroupByTop(paths: seq<string>): seq<Group>
    decreases |paths|
  {
    if |paths| == 0 then []
    else AddPath(GroupByTop(paths[..|paths| - 1]), paths[|paths| - 1])
  }

  /** One more path: appended to the group whose key matches its top name ignoring case,
      or opening a new group keyed by its own top name. */
  function AddPath(groups: seq<Group>, p: string): (r: seq<Group>)
    ensures |groups| <= |r|
  {
    match FindGroup(groups, TopName(p), 0)
    case Some(j) => groups[j := Group(groups[j].key, groups[j].paths + [p])]
    case None => groups + [Group(TopName(p), [p])]
  }

  lemma AddPathWellGrouped(groups: seq<Group>, p: string)
    requires WellGrouped(groups)
    ensures WellGrouped(AddPath(groups, p))
  {
    match FindGroup(groups, TopName(p), 0)
    case Some(j) =>
      var g := groups[j];
      assert forall q :: q in g.paths + [p] ==> q in g.paths || q == p;
      assert GroupOk(Group(g.key, g.paths + [p]));
    case None =>
      assert GroupOk(Group(TopName(p), [p]));
  }

  lemma AddPathKeysDistinct(groups: seq<Group>, p: string)
    requires KeysDistinct(groups)
    ensures KeysDistinct(AddPath(groups, p))
  {
  }

  lemma AddPathWithin(groups: seq<Group>, paths: seq<string>, p: string)
    requires GroupsWithin(groups, paths)
    ensures GroupsWithin(AddPath(groups, p), paths + [p])
  {
    assert forall x :: x in paths ==> x in paths + [p];
    match FindGroup(groups, TopName(p), 0)
    case Some(j) =>
      assert forall q :: q in groups[j].paths + [p] ==> q in groups[j].paths || q == p;
    case None =>
  }

  lemma AddPathCovers(groups: seq<Group>, paths: seq<string>, p: string)
    requires GroupsCover(groups, paths)
    ensures GroupsCover(AddPath(groups, p), paths + [p])
  {
    var r := AddPath(groups, p);
    var all := paths + [p];
    forall k | 0 <= k < |all|
      ensures Grouped(all[k], r)
    {
      if k == |paths| {
        match FindGroup(groups, TopName(p), 0)
        case Some(j) =>
          assert r[j].paths == groups[j].paths + [p];
          assert p in r[j].paths;
        case None =>
          assert r[|groups|].paths == [p];
          assert p in r[|groups|].paths;
      } else {
        assert all[k] == paths[k];
        var i :| 0 <= i < |groups| && paths[k] in groups[i].paths;
        AddPathKeepsPaths(groups, p, i);
        assert paths[k] in r[i].paths;
      }
    }
  }

  /** Adding a path keeps every path a group already holds. */
  lemma AddPathKeepsPaths(groups: seq<Group>, p: string, i: nat)
    requires i < |groups|
    ensures forall q :: q in groups[i].paths ==> q in AddPath(groups, p)[i].paths
  {
    match FindGroup(groups, TopName(p), 0)
    case Some(j) =>
      if i == j {
        assert forall q :: q in groups[i].paths ==> q in groups[i].paths + [p];
      }
    case None =>
  }

  /** Every group is well formed. */
  lemma {:induction false} GroupByTopWellGrouped(paths: seq<string>)
    ensures WellGrouped(GroupByTop(paths))
    decreases |paths|
  {
    if |paths| > 0 {
      GroupByTopWellGrouped(paths[..|paths| - 1]);
      AddPathWellGrouped(GroupByTop(paths[..|paths| - 1]), paths[|paths| - 1]);
    }
  }

  /** No two group keys are equal ignoring case. */
  lemma {:induction false} GroupByTopKeysDistinct(paths: seq<string>)
    ensures KeysDistinct(GroupByTop(paths))
    decreases |paths|
  {
    if |paths| > 0 {
      GroupByTopKeysDistinct(paths[..|paths| - 1]);
      AddPathKeysDistinct(GroupByTop(paths[..|paths| - 1]), paths[|paths| - 1]);
    }
  }

  /** Every grouped path was given. */
  lemma {:induction false} GroupByTopKeepsGiven(paths: seq<string>)
    ensures GroupsWithin(GroupByTop(paths), paths)
    decreases |paths|
  {
    if |paths| > 0 {
      var n := |paths| - 1;
      GroupByTopKeepsGiven(paths[..n]);
      AddPathWithin(GroupByTop(paths[..n]), paths[..n], paths[n]);
      assert paths[..n] + [paths[n]] == paths;
    }
  }

  /** Every given path is in some group. */
  lemma {:induction false} GroupByTopCovers(paths: seq<string>)
    ensures GroupsCover(GroupByTop(paths), paths)
    decreases |paths|
  {
    if |paths| > 0 {
      var n := |paths| - 1;
      GroupByTopCovers(paths[..n]);
      AddPathCovers(GroupByTop(paths[..n]), paths[..n], paths[n]);
      assert paths[..n] + [paths[n]] == paths;
    }
  }

  /** Whether a group is one bare top-level name: the property is copied as it is. */
  predicate IsBare(g: Group) {
    |g.paths| == 1 && EqualsIgnoreCase(g.paths[0], g.key)
  }

  function NestedPaths(paths: seq<string>): (r: seq<string>)
    ensures |r| == |paths|
    ensures forall i :: 0 <= i < |paths| ==> r[i] == NestedPath(paths[i])
  {
    seq(|paths|, i requires 0 <= i < |paths| => NestedPath(paths[i]))
  }

  /** `string.Join(",", nestedFields)`: the field list handed to the nested shaping. */
  function NestedFields(g: Group): string {
    Join(NestedPaths(g.paths), ",")
  }

  /** The nested field list splits back into exactly the group's nested paths: no path
      is merged with another or lost on the way down. */
  lemma NestedFieldsSplitBack(g: Group)
    requires |g.paths| > 0
    requires forall i :: 0 <= i < |g.paths| ==> ',' !in g.paths[i]
    ensures SplitChar(NestedFields(g), ',') == NestedPaths(g.paths)
  {
    var nested := NestedPaths(g.paths);
    forall i | 0 <= i < |nested|
      ensures ',' !in nested[i]
    {
      var p := g.paths[i];
      assert IsSuffix(nested[i], p);
      assert forall k :: 0 <= k < |nested[i]| ==> nested[i][k] == p[|p| - |nested[i]| + k];
    }
    SplitCharJoin(nested, ',');
  }

  // ---------------------------------------------------------------------------
  // GetShapedObject
  // ---------------------------------------------------------------------------

  /** `GetShapedObject(entity, fields)`. */
  function Shaped(entity: Value, fields: Option<string>): (r: Result<Value, ShapeError>)
    ensures entity.Null? ==> r == Failure(NullEntity)
    ensures !entity.Null? && IsNullOrWhiteSpace(fields) ==> r == Success(Expanded(entity))
    ensures r.Success? ==> r.value.Obj?
    decreases entity, 1
  {
    if entity.Null? then Failure(NullEntity)
    else if IsNullOrWhiteSpace(fields) then Success(Expanded(entity))
    else
      var expando :- StoreEntries(Entries(entity, GroupByTop(FieldPaths(fields.value))));
      Success(Obj(expando))
  }

  /** Repeating a requested field, in any casing and with any surrounding whitespace,
      does not change the shaped object. */
  lemma ShapedIgnoresRepeat(entity: Value, f: string, p: string)
    requires !AllWhiteSpace(f)
    requires forall q :: q in SplitFields(p) ==> InIgnoreCase(q, SplitFields(f))
    ensures Shaped(entity, Some(f + "," + p)) == Shaped(entity, Some(f))
  {
    FieldPathsRepeat(f, p);
    var k :| 0 <= k < |f| && !IsWhiteSpace(f[k]);
    assert (f + "," + p)[k] == f[k];
    assert !IsNullOrWhiteSpace(Some(f + "," + p)) && !IsNullOrWhiteSpace(Some(f));
  }

  /** What each group contributes, in group order. */
  function Entries(entity: Value, groups: seq<Group>): (r: seq<Result<Option<(string, Value)>, ShapeError>>)
    ensures |r| == |groups|
    decreases entity, 0, |groups|
  {
    seq(|groups|, j requires 0 <= j < |groups| => ShapeGroup(entity, groups[j]))
  }

  /** One group: `None` when the entity has no such property or it is null; otherwise the
      property's declared name and the value to store. */
  function ShapeGroup(entity: Value, g: Group): (r: Result<Option<(string, Value)>, ShapeError>)
    decreases entity, 0, 0
  {
    if !entity.Obj? then Success(None)
    else
      match FindMember(entity.members, g.key, 0)
      case None => Success(None)
      case Some(j) =>
        var name := entity.members[j].0;
        var value := entity.members[j].1;
        if value.Null? then Success(None)
        else if IsBare(g) then Success(Some((name, value)))
        else if value.List? then
          var items :- AllOk(ShapeItems(value.items, NestedFields(g)));
          Success(Some((name, List(items))))
        else
          var shaped :- Shaped(value, Some(NestedFields(g)));
          Success(Some((name, shaped)))
  }

  /** Every item of a collection shaped with the nested field list. */
  function ShapeItems(items: seq<Value>, nested: string): (r: seq<Result<Value, ShapeError>>)
    ensures |r| == |items|
    decreases items, 0
  {
    seq(|items|, i requires 0 <= i < |items| => Shaped(items[i], Some(nested)))
  }

  // ---------------------------------------------------------------------------
  // The two loops, over results that are already computed
  // ---------------------------------------------------------------------------

  /** The loop over a collection: the first failure, or every value in order. */
  function AllOk<T>(rs: seq<Result<T, ShapeError>>): (r: Result<seq<T>, ShapeError>)
    ensures r.Success? ==> |r.value| == |rs|
  {
    if |rs| == 0 then Success([])
    else
      var init :- AllOk(rs[..|rs| - 1]);
      var x :- rs[|rs| - 1];
      Success(init + [x])
  }

  /** A collection shapes without failure exactly when every item does, and then item
      `i` of the list is the shaped item `i`. */
  lemma {:induction false} AllOkMeaning<T>(rs: seq<Result<T, ShapeError>>)
    ensures AllOk(rs).Success? <==> forall i :: 0 <= i < |rs| ==> rs[i].Success?
    ensures AllOk(rs).Success? ==> forall i :: 0 <= i < |rs| ==> AllOk(rs).value[i] == rs[i].value
  {
    if |rs| > 0 {
      var n := |rs| - 1;
      AllOkMeaning(rs[..n]);
      assert forall i :: 0 <= i < n ==> rs[..n][i] == rs[i];
    }
  }

  lemma AllOkStep<T>(rs: seq<Result<T, ShapeError>>, k: nat, done: seq<T>)
    requires k < |rs| && AllOk(rs[..k]) == Success(done)
    ensures rs[k].Success? ==> AllOk(rs[..k + 1]) == Success(done + [rs[k].value])
    ensures rs[k].Failure? ==> AllOk(rs).Failure?
  {
    assert rs[..k + 1][..k] == rs[..k];
    if rs[k].Failure? {
      AllOkMeaning(rs);
    }
  }

  /** The loop over the groups: each entry, if any, stored in turn. */
  function StoreEntries(es: seq<Result<Option<(string, Value)>, ShapeError>>): (r: Result<Expando, ShapeError>)
  {
    if |es| == 0 then Success([])
    else
      var expando :- StoreEntries(es[..|es| - 1]);
      var entry :- es[|es| - 1];
      Success(if entry.None? then expando else Put(expando, entry.value.0, entry.value.1))
  }

  lemma {:induction false} StoreEntriesFails(es: seq<Result<Option<(string, Value)>, ShapeError>>, k: nat)
    requires k < |es| && es[k].Failure?
    ensures StoreEntries(es).Failure?
  {
    if k < |es| - 1 {
      assert es[..|es| - 1][k] == es[k];
      StoreEntriesFails(es[..|es| - 1], k);
    }
  }

  lemma StoreEntriesStep(es: seq<Result<Option<(string, Value)>, ShapeError>>, k: nat, expando: Expando)
    requires k < |es| && StoreEntries(es[..k]) == Success(expando)
    ensures es[k].Success? ==>
      StoreEntries(es[..k + 1]) ==
        Success(if es[k].value.None? then expando else Put(expando, es[k].value.value.0, es[k].value.value.1))
    ensures es[k].Failure? ==> StoreEntries(es).Failure?
  {
    assert es[..k + 1][..k] == es[..k];
    if es[k].Failure? {
      StoreEntriesFails(es, k);
    }
  }

  /** `Shaped` on a non-null entity with a non-blank field list: the stored entries. */
  lemma ShapedByEntries(entity: Value, fields: Option<string>)
    requires !entity.Null? && !IsNullOrWhiteSpace(fields)
    ensures StoreEntries(Entries(entity, GroupByTop(FieldPaths(fields.value)))).Failure? ==>
      Shaped(entity, fields) == Failure(NullEntity)
    ensures StoreEntries(Entries(entity, GroupByTop(FieldPaths(fields.value)))).Success? ==>
      Shaped(entity, fields) == Success(Obj(StoreEntries(Entries(entity, GroupByTop(FieldPaths(fields.value)))).value))
  {
    if StoreEntries(Entries(entity, GroupByTop(FieldPaths(fields.value)))).Failure? {
      assert Shaped(entity, fields).Failure?;
      FailureIsNullEntity(Shaped(entity, fields));
    }
  }

  // ---------------------------------------------------------------------------
  // What the shaped object holds
  // ---------------------------------------------------------------------------

  /** The member a group names: the first whose name matches the key ignoring case. */
  predicate Names(entity: Value, g: Group, i: nat) {
    entity.Obj? && FindMember(entity.members, g.key, 0) == Some(i)
  }

  /** A group contributes an entry only for a non-null property of the entity whose name
      matches the key ignoring case (the first such), and under its declared name. */
  lemma ShapeGroupSound(entity: Value, g: Group)
    requires ShapeGroup(entity, g).Success? && ShapeGroup(entity, g).value.Some?
    ensures entity.Obj? && FindMember(entity.members, g.key, 0).Some?
    ensures var m := entity.members[FindMember(entity.members, g.key, 0).value];
      ShapeGroup(entity, g).value.value.0 == m.0 && m.1 != Null
  {
  }

  /** Such a property always contributes an entry, unless shaping it fails. */
  lemma ShapeGroupComplete(entity: Value, g: Group, i: nat)
    requires Names(entity, g, i) && entity.members[i].1 != Null
    ensures ShapeGroup(entity, g).Failure? || Stores(ShapeGroup(entity, g), entity.members[i].0)
  {
  }

  /** The value a group stores: the property's value for a bare name, each item of a
      collection shaped with the nested paths, or a single object shaped with them. */
  lemma ShapeGroupValue(entity: Value, g: Group, i: nat)
    requires Names(entity, g, i) && entity.members[i].1 != Null
    ensures var r := ShapeGroup(entity, g);
      var v := entity.members[i].1;
      && (IsBare(g) ==> r == Success(Some((entity.members[i].0, v))))
      && (!IsBare(g) && v.List? && r.Success? ==>
            && r.value.value.1.List?
            && |r.value.value.1.items| == |v.items|
            && forall k :: 0 <= k < |v.items| ==>
                 Shaped(v.items[k], Some(NestedFields(g))) == Success(r.value.value.1.items[k]))
      && (!IsBare(g) && !v.List? ==>
            (r.Success? <==> Shaped(v, Some(NestedFields(g))).Success?) &&
            (r.Success? ==> Success(r.value.value.1) == Shaped(v, Some(NestedFields(g)))))
  {
    var v := entity.members[i].1;
    if !IsBare(g) && v.List? {
      AllOkMeaning(ShapeItems(v.items, NestedFields(g)));
    }
  }

  /** Whether entry `e` stores a value under `k`. */
  predicate Stores(e: Result<Option<(string, Value)>, ShapeError>, k: string) {
    e.Success? && e.value.Some? && e.value.value.0 == k
  }

  /** Storing the entries succeeds only when every entry does. */
  lemma {:induction false} StoreEntriesAllOk(es: seq<Result<Option<(string, Value)>, ShapeError>>)
    ensures StoreEntries(es).Success? <==> forall j :: 0 <= j < |es| ==> es[j].Success?
  {
    if |es| > 0 {
      StoreEntriesAllOk(es[..|es| - 1]);
      assert forall j :: 0 <= j < |es| - 1 ==> es[..|es| - 1][j] == es[j];
    }
  }

  /** A value in which no collection holds a null item, at any depth. */
  predicate NoNullItems(v: Value)
    decreases v
  {
    match v
    case List(items) => forall i :: 0 <= i < |items| ==> items[i] != Null && NoNullItems(items[i])
    case Obj(members) => forall i :: 0 <= i < |members| ==> NoNullItems(members[i].1)
    case _ => true
  }

  /** Shaping throws only on a null entity or on a null item of a collection it walks
      into: a non-null entity without null items always shapes. */
  lemma ShapedFails(entity: Value, fields: Option<string>)
    ensures Shaped(entity, fields).Failure? ==> entity.Null? || !NoNullItems(entity)
    decreases entity, 1
  {
    if !entity.Null? && NoNullItems(entity) && !IsNullOrWhiteSpace(fields) {
      var es := Entries(entity, GroupByTop(FieldPaths(fields.value)));
      forall j | 0 <= j < |es|
        ensures es[j].Success?
      {
        ShapeGroupSucceeds(entity, GroupByTop(FieldPaths(fields.value))[j]);
      }
      StoreEntriesAllOk(es);
    }
  }

  lemma ShapeGroupSucceeds(entity: Value, g: Group)
    requires NoNullItems(entity)
    ensures ShapeGroup(entity, g).Success?
    decreases entity, 0
  {
    if entity.Obj? && FindMember(entity.members, g.key, 0).Some? {
      var j := FindMember(entity.members, g.key, 0).value;
      var value := entity.members[j].1;
      if !value.Null? && !IsBare(g) {
        if value.List? {
          var rs := ShapeItems(value.items, NestedFields(g));
          forall i | 0 <= i < |rs|
            ensures rs[i].Success?
          {
            ShapedFails(value.items[i], Some(NestedFields(g)));
          }
          AllOkMeaning(rs);
        } else {
          ShapedFails(value, Some(NestedFields(g)));
        }
      }
    }
  }

  /** The keys of the stored object are exactly the names the entries store. */
  lemma {:induction false} StoreEntriesKeys(es: seq<Result<Option<(string, Value)>, ShapeError>>, k: string)
    requires StoreEntries(es).Success?
    ensures k in Keys(StoreEntries(es).value) <==> exists j :: 0 <= j < |es| && Stores(es[j], k)
  {
    if |es| > 0 {
      var n := |es| - 1;
      StoreEntriesKeys(es[..n], k);
      assert forall j :: 0 <= j < n ==> es[..n][j] == es[j];
      if exists j :: 0 <= j < |es| && Stores(es[j], k) {
        var j :| 0 <= j < |es| && Stores(es[j], k);
        if j < n {
          assert Stores(es[..n][j], k);
        }
      }
    }
  }

  /** An entry whose name no other entry stores is found under that name with its value. */
  lemma {:induction false} StoreEntriesLookup(es: seq<Result<Option<(string, Value)>, ShapeError>>, j: nat)
    requires StoreEntries(es).Success?
    requires j < |es| && es[j].Success? && es[j].value.Some?
    requires forall i :: 0 <= i < |es| && i != j ==> !Stores(es[i], es[j].value.value.0)
    ensures Lookup(StoreEntries(es).value, es[j].value.value.0) == Some(es[j].value.value.1)
  {
    var n := |es| - 1;
    if j < n {
      assert forall i :: 0 <= i < n ==> es[..n][i] == es[i];
      StoreEntriesLookup(es[..n], j);
      assert !Stores(es[n], es[j].value.value.0);
    }
  }

  /** A name found ignoring case is found the same way under any spelling of it. */
  lemma {:induction false} FindMemberIgnoresCase<T>(members: seq<(string, T)>, a: string, b: string, k: nat)
    requires k <= |members| && EqualsIgnoreCase(a, b)
    ensures FindMember(members, a, k) == FindMember(members, b, k)
    decreases |members| - k
  {
    if k < |members| {
      FindMemberIgnoresCase(members, a, b, k + 1);
    }
  }

  /** Whether one of `paths` names member `i` at its top level: the member is the first
      one whose name matches the path's top name ignoring case. */
  predicate Requests(members: seq<(string, Value)>, paths: seq<string>, i: nat) {
    exists p :: p in paths && FindMember(members, TopName(p), 0) == Some(i)
  }

  /** The groups of a field list are well formed, hold exactly the requested paths, and
      have keys that differ ignoring case. */
  lemma FieldGroups(fields: string)
    ensures var groups := GroupByTop(FieldPaths(fields));
      && WellGrouped(groups) && KeysDistinct(groups)
      && GroupsWithin(groups, FieldPaths(fields)) && GroupsCover(groups, FieldPaths(fields))
  {
    GroupByTopWellGrouped(FieldPaths(fields));
    GroupByTopKeysDistinct(FieldPaths(fields));
    GroupByTopKeepsGiven(FieldPaths(fields));
    GroupByTopCovers(FieldPaths(fields));
  }

  /** Every key of a shaped object comes from a property some path names. */
  lemma GroupedKeysSound(members: seq<(string, Value)>, paths: seq<string>, groups: seq<Group>, j: nat)
    requires WellGrouped(groups) && GroupsWithin(groups, paths)
    requires j < |groups| && ShapeGroup(Obj(members), groups[j]).Success?
    requires ShapeGroup(Obj(members), groups[j]).value.Some?
    ensures var name := ShapeGroup(Obj(members), groups[j]).value.value.0;
      exists i :: 0 <= i < |members| && members[i].0 == name && members[i].1 != Null && Requests(members, paths, i)
  {
    ShapeGroupSound(Obj(members), groups[j]);
    var i := FindMember(members, groups[j].key, 0).value;
    var p := groups[j].paths[0];
    assert GroupOk(groups[j]);
    assert p in paths;
    assert FindMember(members, TopName(p), 0) == Some(i);
    assert Requests(members, paths, i);
  }

  /** Every property some path names, if non-null, has an entry in some group. */
  lemma GroupedKeysComplete(members: seq<(string, Value)>, paths: seq<string>, groups: seq<Group>, i: nat)
    requires WellGrouped(groups) && GroupsCover(groups, paths)
    requires i < |members| && members[i].1 != Null && Requests(members, paths, i)
    ensures exists j :: 0 <= j < |groups| && Names(Obj(members), groups[j], i)
  {
    var p :| p in paths && FindMember(members, TopName(p), 0) == Some(i);
    var k :| 0 <= k < |paths| && paths[k] == p;
    assert Grouped(paths[k], groups);
    var j :| 0 <= j < |groups| && p in groups[j].paths;
    assert GroupOk(groups[j]);
    FindMemberIgnoresCase(members, TopName(p), groups[j].key, 0);
    assert Names(Obj(members), groups[j], i);
  }

  /** `ShapedKeys` for any grouping of the paths. */
  lemma GroupedKeys(members: seq<(string, Value)>, paths: seq<string>, groups: seq<Group>, name: string)
    requires WellGrouped(groups) && GroupsWithin(groups, paths) && GroupsCover(groups, paths)
    requires StoreEntries(Entries(Obj(members), groups)).Success?
    ensures name in Keys(StoreEntries(Entries(Obj(members), groups)).value) <==>
      exists i :: 0 <= i < |members| && members[i].0 == name && members[i].1 != Null && Requests(members, paths, i)
  {
    var es := Entries(Obj(members), groups);
    StoreEntriesKeys(es, name);
    StoreEntriesAllOk(es);
    if exists j :: 0 <= j < |es| && Stores(es[j], name) {
      var j :| 0 <= j < |es| && Stores(es[j], name);
      GroupedKeysSound(members, paths, groups, j);
    }
    if exists i :: 0 <= i < |members| && members[i].0 == name && members[i].1 != Null && Requests(members, paths, i) {
      var i :| 0 <= i < |members| && members[i].0 == name && members[i].1 != Null && Requests(members, paths, i);
      GroupedKeysComplete(members, paths, groups, i);
      var j :| 0 <= j < |groups| && Names(Obj(members), groups[j], i);
      ShapeGroupComplete(Obj(members), groups[j], i);
      assert Stores(es[j], name);
    }
  }

  /** Two groups never store under the same name. */
  lemma EntryNamesDiffer(members: seq<(string, Value)>, groups: seq<Group>, i: nat, j: nat)
    requires DistinctNames(members) && KeysDistinct(groups)
    requires i < |groups| && j < |groups| && i != j
    requires ShapeGroup(Obj(members), groups[i]).Success? && ShapeGroup(Obj(members), groups[i]).value.Some?
    requires ShapeGroup(Obj(members), groups[j]).Success? && ShapeGroup(Obj(members), groups[j]).value.Some?
    ensures ShapeGroup(Obj(members), groups[i]).value.value.0 != ShapeGroup(Obj(members), groups[j]).value.value.0
  {
    ShapeGroupSound(Obj(members), groups[i]);
    ShapeGroupSound(Obj(members), groups[j]);
    var a := FindMember(members, groups[i].key, 0).value;
    var b := FindMember(members, groups[j].key, 0).value;
    if i < j {
      assert !EqualsIgnoreCase(groups[i].key, groups[j].key);
    } else {
      assert !EqualsIgnoreCase(groups[j].key, groups[i].key);
    }
    assert a != b;
  }

  /** An entry is stored under its name: no other group names the same property, since
      keys differ ignoring case, and no other property has the same declared name. */
  lemma {:induction false} GroupedLookup(members: seq<(string, Value)>, groups: seq<Group>, j: nat)
    requires DistinctNames(members) && KeysDistinct(groups)
    requires StoreEntries(Entries(Obj(members), groups)).Success?
    requires j < |groups| && ShapeGroup(Obj(members), groups[j]).Success?
    requires ShapeGroup(Obj(members), groups[j]).value.Some?
    ensures var e := ShapeGroup(Obj(members), groups[j]).value.value;
      Lookup(StoreEntries(Entries(Obj(members), groups)).value, e.0) == Some(e.1)
  {
    var es := Entries(Obj(members), groups);
    var name := es[j].value.value.0;
    ShapeGroupSound(Obj(members), groups[j]);
    var a := FindMember(members, groups[j].key, 0).value;
    forall i | 0 <= i < |es| && i != j
      ensures !Stores(es[i], name)
    {
      if Stores(es[i], name) {
        EntryNamesDiffer(members, groups, i, j);
      }
    }
    StoreEntriesLookup(es, j);
  }

  /** The keys of an object shaped by a field list: a name is a key exactly when it is the
      declared name of a non-null property that some requested path names at its top
      level. */
  lemma ShapedKeys(members: seq<(string, Value)>, fields: string, name: string)
    requires !IsNullOrWhiteSpace(Some(fields))
    requires Shaped(Obj(members), Some(fields)).Success?
    ensures name in Keys(Shaped(Obj(members), Some(fields)).value.members) <==>
      exists i :: 0 <= i < |members| && members[i].0 == name && members[i].1 != Null &&
        Requests(members, FieldPaths(fields), i)
  {
    ShapedByEntries(Obj(members), Some(fields));
    FieldGroups(fields);
    GroupedKeys(members, FieldPaths(fields), GroupByTop(FieldPaths(fields)), name);
  }

  /** What a shaped object stores: each group's entry, under the property's declared
      name (an object's declared names are pairwise different). */
  lemma ShapedEntries(members: seq<(string, Value)>, fields: string, j: nat)
    requires DistinctNames(members) && !IsNullOrWhiteSpace(Some(fields))
    requires Shaped(Obj(members), Some(fields)).Success?
    requires j < |GroupByTop(FieldPaths(fields))|
    ensures var e := ShapeGroup(Obj(members), GroupByTop(FieldPaths(fields))[j]);
      e.Success? &&
      (e.value.Some? ==> Lookup(Shaped(Obj(members), Some(fields)).value.members, e.value.value.0) == Some(e.value.value.1))
  {
    var groups := GroupByTop(FieldPaths(fields));
    ShapedByEntries(Obj(members), Some(fields));
    FieldGroups(fields);
    StoreEntriesAllOk(Entries(Obj(members), groups));
    assert Entries(Obj(members), groups)[j] == ShapeGroup(Obj(members), groups[j]);
    if ShapeGroup(Obj(members), groups[j]).value.Some? {
      GroupedLookup(members, groups, j);
    }
  }

  // ---------------------------------------------------------------------------
  // The methods
  // ---------------------------------------------------------------------------

  method GetShapedObject(entity: Value, fields: Option<string>) returns (r: Result<Value, ShapeError>)
    ensures r == Shaped(entity, fields)
    decreases entity, 1
  {
    if entity.Null? {
      return Failure(NullEntity);
    }
    if IsNullOrWhiteSpace(fields) {
      var expanded := ToExpando(entity);
      return Success(expanded);
    }
    var expando: Expando := [];
    var grouped := GroupByTop(FieldPaths(fields.value));
    ghost var entries := Entries(entity, grouped);
    for i := 0 to |grouped|
      invariant StoreEntries(entries[..i]) == Success(expando)
    {
      StoreEntriesStep(entries, i, expando);
      var entry := ShapeEntry(entity, grouped[i]);
      assert entries[i] == entry;
      if entry.Failure? {
        assert StoreEntries(entries).Failure?;
        ShapedByEntries(entity, fields);
        return Failure(NullEntity);
      }
      if entry.value.Some? {
        expando := Put(expando, entry.value.value.0, entry.value.value.1);
      }
    }
    assert entries[..|grouped|] == entries;
    ShapedByEntries(entity, fields);
    r := Success(Obj(expando));
  }

  /** The body of the loop over the groups. */
  method ShapeEntry(entity: Value, group: Group) returns (entry: Result<Option<(string, Value)>, ShapeError>)
    requires !entity.Null?
    ensures entry == ShapeGroup(entity, group)
    decreases entity, 0
  {
    if !entity.Obj? {
      return Success(None);
    }
    var found := FindMember(entity.members, group.key, 0);
    if found.None? {
      return Success(None);
    }
    var name := entity.members[found.value].0;
    var value := entity.members[found.value].1;
    if value.Null? {
      return Success(None);
    }
    if |group.paths| == 1 && EqualsIgnoreCase(group.paths[0], group.key) {
      return Success(Some((name, value)));
    }
    var nestedFields := NestedFields(group);
    if value.List? {
      var collection := value.items;
      ghost var shapedItems := ShapeItems(collection, nestedFields);
      var list: seq<Value> := [];
      for k := 0 to |collection|
        invariant AllOk(shapedItems[..k]) == Success(list)
      {
        AllOkStep(shapedItems, k, list);
        var item := GetShapedObject(collection[k], Some(nestedFields));
        assert shapedItems[k] == item;
        if item.Failure? {
          FailureIsNullEntity(AllOk(shapedItems));
          return Failure(NullEntity);
        }
        list := list + [item.value];
      }
      assert shapedItems[..|collection|] == shapedItems;
      return Success(Some((name, List(list))));
    }
    var shaped := GetShapedObject(value, Some(nestedFields));
    if shaped.Failure? {
      FailureIsNullEntity(shaped);
      return Failure(NullEntity);
    }
    entry := Success(Some((name, shaped.value)));
  }
}
