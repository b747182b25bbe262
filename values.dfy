/** The runtime values the filter engine and the shaper work on: what reflection sees of
    an entity, written as a tagged union. An object lists its public members in
    declaration order under their declared names. */
module Values {
  import opened Wrappers
  import opened Text

  datatype Value =
    | Null
    | Str(s: string)
    | Num(n: int)
    | Date(ticks: int)
    | Bool(b: bool)
    | Obj(members: seq<(string, Value)>)
    | List(items: seq<Value>)

  /** The first member at or after `k` whose name matches ignoring case
      (`GetProperty` and `PropertyOrField` with `BindingFlags.IgnoreCase`). */
  function FindMember<T>(members: seq<(string, T)>, name: string, k: nat): (r: Option<nat>)
    requires k <= |members|
    ensures r.Some? ==> k <= r.value < |members| && EqualsIgnoreCase(members[r.value].0, name)
    ensures r.Some? ==> forall j :: k <= j < r.value ==> !EqualsIgnoreCase(members[j].0, name)
    ensures r.None? ==> forall j :: k <= j < |members| ==> !EqualsIgnoreCase(members[j].0, name)
    decreases |members| - k
  {
    if k == |members| then None
    else if EqualsIgnoreCase(members[k].0, name) then Some(k)
    else FindMember(members, name, k + 1)
  }

  /** The first member at or after `k` with exactly this name (an ordinal dictionary key). */
  function FindExact<T>(members: seq<(string, T)>, name: string, k: nat): (r: Option<nat>)
    requires k <= |members|
    ensures r.Some? ==> k <= r.value < |members| && members[r.value].0 == name
    ensures r.Some? ==> forall j :: k <= j < r.value ==> members[j].0 != name
    ensures r.None? ==> forall j :: k <= j < |members| ==> members[j].0 != name
    decreases |members| - k
  {
    if k == |members| then None
    else if members[k].0 == name then Some(k)
    else FindExact(members, name, k + 1)
  }

  /** The exact lookup finds the first position holding the name. */
  lemma {:induction false} FindExactAt<T>(members: seq<(string, T)>, name: string, k: nat, j: nat)
    requires k <= j < |members| && members[j].0 == name
    requires forall i :: k <= i < j ==> members[i].0 != name
    ensures FindExact(members, name, k) == Some(j)
    decreases j - k
  {
    if k < j {
      FindExactAt(members, name, k + 1, j);
    }
  }
}
