/** The .NET string operations that the filter engine and the shaper rely on,
    stated over `seq<char>`: ordinal search, splitting, joining, trimming and the
    case fold behind `StringComparison.OrdinalIgnoreCase`. */
module Text {
  import opened Wrappers

  // ---------------------------------------------------------------------------
  // Case folding
  // ---------------------------------------------------------------------------

  /** Lower-cases one ASCII letter and leaves every other character alone. */
  function Lower(c: char): char {
    if 'A' <= c <= 'Z' then (c as int + 32) as char else c
  }

  /** `ToLowerInvariant` on the ASCII fold: position by position, and no upper-case
      ASCII letter survives. */
  function LowerAll(s: string): (r: string)
    ensures |r| == |s|
    ensures forall i :: 0 <= i < |s| ==> r[i] == Lower(s[i])
    ensures forall i :: 0 <= i < |r| ==> !('A' <= r[i] <= 'Z')
  {
    seq(|s|, i requires 0 <= i < |s| => Lower(s[i]))
  }

  /** Folding twice is folding once, so every string is equal ignoring case to its
      lower-cased form. */
  lemma LowerAllIdempotent(s: string)
    ensures LowerAll(LowerAll(s)) == LowerAll(s)
    ensures EqualsIgnoreCase(LowerAll(s), s)
  {
    var r := LowerAll(s);
    assert forall i :: 0 <= i < |r| ==> Lower(r[i]) == r[i];
  }

  /** `string.Equals(a, b, StringComparison.OrdinalIgnoreCase)` on the ASCII fold. */
  predicate EqualsIgnoreCase(a: string, b: string) {
    LowerAll(a) == LowerAll(b)
  }

  /** Membership in a `HashSet<string>` built with `StringComparer.OrdinalIgnoreCase`. */
  predicate InIgnoreCase(s: string, xs: seq<string>) {
    exists i :: 0 <= i < |xs| && EqualsIgnoreCase(xs[i], s)
  }

  // ---------------------------------------------------------------------------
  // Ordinal search
  // ---------------------------------------------------------------------------

  predicate IsPrefix(p: string, s: string) {
    |p| <= |s| && s[..|p|] == p
  }

  predicate IsSuffix(p: string, s: string) {
    |p| <= |s| && s[|s| - |p|..] == p
  }

  lemma DropIsSuffix(s: string, k: nat)
    requires k <= |s|
    ensures IsSuffix(s[k..], s)
  {
  }

  lemma SuffixOfSuffix(a: string, b: string, c: string)
    requires IsSuffix(a, b) && IsSuffix(b, c)
    ensures IsSuffix(a, c)
  {
    assert c[|c| - |a|..] == c[|c| - |b|..][|b| - |a|..];
  }

  /** `s.IndexOf(c)`: the first position holding `c`. */
  function IndexOfChar(s: string, c: char): (r: Option<nat>)
    ensures r.Some? ==> r.value < |s| && s[r.value] == c
    ensures r.Some? ==> forall j :: 0 <= j < r.value ==> s[j] != c
    ensures r.None? <==> c !in s
  {
    CharFrom(s, c, 0)
  }

  function CharFrom(s: string, c: char, k: nat): (r: Option<nat>)
    requires k <= |s|
    ensures r.Some? ==> k <= r.value < |s| && s[r.value] == c
    ensures r.Some? ==> forall j :: k <= j < r.value ==> s[j] != c
    ensures r.None? ==> forall j :: k <= j < |s| ==> s[j] != c
    decreases |s| - k
  {
    if k == |s| then None
    else if s[k] == c then Some(k)
    else CharFrom(s, c, k + 1)
  }

  /** `sub` occurs in `s` starting at position `j`. */
  predicate OccursAt(s: string, sub: string, j: nat) {
    j + |sub| <= |s| && s[j..j + |sub|] == sub
  }

  /** `s.IndexOf(sub, StringComparison.Ordinal)`: the leftmost occurrence, if any. */
  function IndexOf(s: string, sub: string): (r: Option<nat>)
    ensures r.Some? ==> OccursAt(s, sub, r.value)
    ensures r.Some? ==> forall j :: 0 <= j < r.value ==> !OccursAt(s, sub, j)
    ensures r.None? ==> forall j :: 0 <= j <= |s| ==> !OccursAt(s, sub, j)
  {
    IndexFrom(s, sub, 0)
  }

  /** The leftmost occurrence at or after position `k`. */
  function IndexFrom(s: string, sub: string, k: nat): (r: Option<nat>)
    requires k <= |s|
    ensures r.Some? ==> k <= r.value && OccursAt(s, sub, r.value)
    ensures r.Some? ==> forall j :: k <= j < r.value ==> !OccursAt(s, sub, j)
    ensures r.None? ==> forall j :: k <= j <= |s| ==> !OccursAt(s, sub, j)
    decreases |s| - k
  {
    if OccursAt(s, sub, k) then Some(k)
    else if k == |s| then None
    else IndexFrom(s, sub, k + 1)
  }

  /** `s.Contains(sub)` (ordinal). */
  predicate Contains(s: string, sub: string) {
    IndexOf(s, sub).Some?
  }

  lemma OccurrenceContains(s: string, sub: string, i: nat)
    requires OccursAt(s, sub, i)
    ensures Contains(s, sub)
  {
  }

  // ---------------------------------------------------------------------------
  // Whitespace and trimming
  // ---------------------------------------------------------------------------

  /** `char.IsWhiteSpace`: the Unicode space, line and paragraph separators,
      U+0009 to U+000D, U+0085 and U+00A0. */
  predicate IsWhiteSpace(c: char) {
    || c == ' '
    || ('\t' <= c <= '\r')
    || c == '\U{85}'
    || c == '\U{A0}'
    || c == '\U{1680}'
    || ('\U{2000}' <= c <= '\U{200A}')
    || c == '\U{2028}'
    || c == '\U{2029}'
    || c == '\U{202F}'
    || c == '\U{205F}'
    || c == '\U{3000}'
  }

  predicate IsQuote(c: char) {
    c == '"'
  }

  /** Drops the leading characters that satisfy `drop`. */
  function TrimStart(s: string, drop: char -> bool): (r: string)
    ensures IsSuffix(r, s)
    ensures r == [] || !drop(r[0])
  {
    s[KeptFrom(s, drop, 0)..]
  }

  /** The first position at or after `k` whose character is kept (or the end). */
  function KeptFrom(s: string, drop: char -> bool, k: nat): (r: nat)
    requires k <= |s|
    ensures k <= r <= |s| && (r == |s| || !drop(s[r]))
    decreases |s| - k
  {
    if k < |s| && drop(s[k]) then KeptFrom(s, drop, k + 1) else k
  }

  /** Everything `KeptFrom` skips is dropped. */
  lemma {:induction false} KeptFromSkipsDropped(s: string, drop: char -> bool, k: nat)
    requires k <= |s|
    ensures forall i :: k <= i < KeptFrom(s, drop, k) ==> drop(s[i])
    decreases |s| - k
  {
    if k < |s| && drop(s[k]) {
      KeptFromSkipsDropped(s, drop, k + 1);
    }
  }

  /** Drops the trailing characters that satisfy `drop`. */
  function TrimEnd(s: string, drop: char -> bool): (r: string)
    ensures IsPrefix(r, s)
    ensures r == [] || !drop(r[|r| - 1])
  {
    s[..KeptUntil(s, drop, |s|)]
  }

  /** The position just after the last kept character before `k` (or the start). */
  function KeptUntil(s: string, drop: char -> bool, k: nat): (r: nat)
    requires k <= |s|
    ensures r <= k && (r == 0 || !drop(s[r - 1]))
    decreases k
  {
    if k > 0 && drop(s[k - 1]) then KeptUntil(s, drop, k - 1) else k
  }

  /** Everything `KeptUntil` skips is dropped. */
  lemma {:induction false} KeptUntilSkipsDropped(s: string, drop: char -> bool, k: nat)
    requires k <= |s|
    ensures forall i :: KeptUntil(s, drop, k) <= i < k ==> drop(s[i])
    decreases k
  {
    if k > 0 && drop(s[k - 1]) {
      KeptUntilSkipsDropped(s, drop, k - 1);
    }
  }

  /** `s.Trim()` */
  function Trim(s: string): string {
    TrimEnd(TrimStart(s, IsWhiteSpace), IsWhiteSpace)
  }

  /** `s.Trim('"')` */
  function TrimQuotes(s: string): string {
    TrimEnd(TrimStart(s, IsQuote), IsQuote)
  }

  predicate AllWhiteSpace(s: string) {
    forall i :: 0 <= i < |s| ==> IsWhiteSpace(s[i])
  }

  /** `string.IsNullOrWhiteSpace` */
  predicate IsNullOrWhiteSpace(s: Option<string>) {
    s.None? || AllWhiteSpace(s.value)
  }

  /** `string.IsNullOrEmpty` */
  predicate IsNullOrEmpty(s: Option<string>) {
    s.None? || s.value == []
  }

  /** `r` is `s` less its leading and trailing runs of dropped characters: a slice of `s`
      with only dropped characters around it, and a kept character at each end. */
  predicate Stripped(s: string, r: string, drop: char -> bool) {
    exists i, j :: 0 <= i <= j <= |s| && r == s[i..j]
      && (forall k :: 0 <= k < i ==> drop(s[k]))
      && (forall k :: j <= k < |s| ==> drop(s[k]))
      && (r == [] || (!drop(r[0]) && !drop(r[|r| - 1])))
  }

  /** Trimming both ends strips exactly the surrounding runs. */
  lemma TrimStripped(s: string, drop: char -> bool)
    ensures Stripped(s, TrimEnd(TrimStart(s, drop), drop), drop)
  {
    var i := KeptFrom(s, drop, 0);
    var a := s[i..];
    var n := KeptUntil(a, drop, |a|);
    KeptFromSkipsDropped(s, drop, 0);
    KeptUntilSkipsDropped(a, drop, |a|);
    TrimBothEnds(s, drop);
    forall k | i + n <= k < |s|
      ensures drop(s[k])
    {
      assert s[k] == a[k - i];
    }
    assert TrimEnd(TrimStart(s, drop), drop) == s[i..i + n];
  }

  /** A string that starts and ends with kept characters is its own trim. */
  lemma TrimKeepsKeptEnds(s: string, drop: char -> bool)
    requires s == [] || (!drop(s[0]) && !drop(s[|s| - 1]))
    ensures TrimEnd(TrimStart(s, drop), drop) == s
  {
    assert KeptFrom(s, drop, 0) == 0;
    assert s[0..] == s;
  }

  lemma TrimBothEnds(s: string, drop: char -> bool)
    ensures var t := TrimEnd(TrimStart(s, drop), drop); t == [] || (!drop(t[0]) && !drop(t[|t| - 1]))
  {
    var a := TrimStart(s, drop);
    var t := TrimEnd(a, drop);
    if t != [] {
      assert t[0] == a[0];
    }
  }

  /** Trimming a string made only of whitespace leaves nothing. */
  lemma TrimAllWhiteSpace(s: string)
    requires AllWhiteSpace(s)
    ensures Trim(s) == []
  {
    AllDroppedKeptFrom(s, IsWhiteSpace, 0);
  }

  lemma {:induction false} AllDroppedKeptFrom(s: string, drop: char -> bool, k: nat)
    requires k <= |s|
    requires forall i :: k <= i < |s| ==> drop(s[i])
    ensures KeptFrom(s, drop, k) == |s|
    decreases |s| - k
  {
    if k < |s| {
      AllDroppedKeptFrom(s, drop, k + 1);
    }
  }

  // ---------------------------------------------------------------------------
  // Splitting and joining
  // ---------------------------------------------------------------------------

  /** `s.Split(c)` with no options: every piece, empty ones included. */
  function SplitChar(s: string, c: char): (r: seq<string>)
    ensures |r| >= 1
    decreases |s|
  {
    if |s| == 0 then [""]
    else
      var rest := SplitChar(s[1..], c);
      if s[0] == c then [""] + rest else [[s[0]] + rest[0]] + rest[1..]
  }

  /** Leftmost, non-overlapping split on a non-empty separator
      (`s.Split(sep)` with no options). */
  function SplitOn(s: string, sep: string): (r: seq<string>)
    requires |sep| > 0
    ensures |r| >= 1
    decreases |s|
  {
    match IndexOf(s, sep)
    case None => [s]
    case Some(i) => [s[..i]] + SplitOn(s[i + |sep|..], sep)
  }

  /** `string.Join(sep, xs)` */
  function Join(xs: seq<string>, sep: string): string {
    if |xs| == 0 then ""
    else if |xs| == 1 then xs[0]
    else xs[0] + sep + Join(xs[1..], sep)
  }

  /** `s.Replace(pattern, replacement)`: every leftmost, non-overlapping occurrence replaced. */
  function Replace(s: string, pattern: string, replacement: string): string
    requires |pattern| > 0
  {
    Join(SplitOn(s, pattern), replacement)
  }

  /** `StringSplitOptions.RemoveEmptyEntries`: drops the empty pieces, keeping order. */
  function NonEmpty(xs: seq<string>): (r: seq<string>)
    ensures forall i :: 0 <= i < |r| ==> r[i] != ""
    ensures forall x :: x in r <==> x in xs && x != ""
  {
    if |xs| == 0 then []
    else (if xs[0] == "" then [] else [xs[0]]) + NonEmpty(xs[1..])
  }

  lemma {:induction false} JoinSplitChar(s: string, c: char)
    ensures Join(SplitChar(s, c), [c]) == s
    decreases |s|
  {
    if |s| > 0 {
      var rest := SplitChar(s[1..], c);
      JoinSplitChar(s[1..], c);
      if s[0] == c {
        assert SplitChar(s, c) == [""] + rest;
      } else {
        var r := SplitChar(s, c);
        assert r == [[s[0]] + rest[0]] + rest[1..];
        if |rest| == 1 {
          assert Join(r, [c]) == [s[0]] + rest[0];
        } else {
          assert r[1..] == rest[1..];
          assert Join(rest, [c]) == rest[0] + [c] + Join(rest[1..], [c]);
        }
        assert s == [s[0]] + s[1..];
      }
    }
  }

  lemma {:induction false} SplitCharPieces(s: string, c: char)
    ensures forall i :: 0 <= i < |SplitChar(s, c)| ==> c !in SplitChar(s, c)[i]
    decreases |s|
  {
    if |s| > 0 {
      SplitCharPieces(s[1..], c);
    }
  }

  lemma {:induction false} SplitCharWithout(s: string, c: char)
    requires c !in s
    ensures SplitChar(s, c) == [s]
    decreases |s|
  {
    if |s| > 0 {
      SplitCharWithout(s[1..], c);
      assert s == [s[0]] + s[1..];
    }
  }

  /** Dropping empty strings distributes over concatenation. */
  lemma {:induction false} NonEmptyAppend(xs: seq<string>, ys: seq<string>)
    ensures NonEmpty(xs + ys) == NonEmpty(xs) + NonEmpty(ys)
    decreases |xs|
  {
    if |xs| > 0 {
      assert (xs + ys)[1..] == xs[1..] + ys;
      NonEmptyAppend(xs[1..], ys);
    } else {
      assert xs + ys == ys;
    }
  }

  lemma {:induction false} SplitCharAppend(a: string, b: string, c: char)
    ensures SplitChar(a + [c] + b, c) == SplitChar(a, c) + SplitChar(b, c)
    decreases |a|
  {
    if |a| == 0 {
      assert a + [c] + b == [c] + b;
      assert ([c] + b)[1..] == b;
    } else {
      assert (a + [c] + b)[1..] == a[1..] + [c] + b;
      SplitCharAppend(a[1..], b, c);
    }
  }

  lemma {:induction false} JoinSplitOn(s: string, sep: string)
    requires |sep| > 0
    ensures Join(SplitOn(s, sep), sep) == s
    decreases |s|
  {
    var found := IndexOf(s, sep);
    if found.Some? {
      var i := found.value;
      var head, tail := s[..i], s[i + |sep|..];
      assert s == head + sep + tail by {
        assert s[i..i + |sep|] == sep;
      }
      JoinSplitOn(tail, sep);
      var rest := SplitOn(tail, sep);
      assert SplitOn(s, sep) == [head] + rest;
      JoinCons(head, rest, sep);
    }
  }

  lemma JoinCons(x: string, xs: seq<string>, sep: string)
    requires |xs| >= 1
    ensures Join([x] + xs, sep) == x + sep + Join(xs, sep)
  {
    assert ([x] + xs)[1..] == xs;
  }

  /** Joining with a separator and splitting again gives the pieces back, as long as
      no piece holds the separator. */
  lemma {:induction false} SplitCharJoin(xs: seq<string>, c: char)
    requires |xs| >= 1
    requires forall i :: 0 <= i < |xs| ==> c !in xs[i]
    ensures SplitChar(Join(xs, [c]), c) == xs
    decreases |xs|
  {
    if |xs| == 1 {
      SplitCharWithout(xs[0], c);
    } else {
      SplitCharJoin(xs[1..], c);
      SplitCharAppend(xs[0], Join(xs[1..], [c]), c);
      SplitCharWithout(xs[0], c);
    }
  }
}
