/** The PHP string functions the cookie parsing uses: `mb_strpos` (first
    occurrence of a needle) and `explode` (split at every separator), with
    `implode` as the inverse `explode` is checked against. */
module PhpStrings {
  import opened Wrappers

  /** `pat` occurs in `s` starting at index `j`. */
  predicate OccursAt(s: string, pat: string, j: nat) {
    j + |pat| <= |s| && s[j..j + |pat|] == pat
  }

  /** `pat` occurs somewhere in `s`. */
  ghost predicate Contains(s: string, pat: string) {
    exists j: nat :: OccursAt(s, pat, j)
  }

  /** The first occurrence of `pat` in `s` at or after `from`. */
  function FindFrom(s: string, pat: string, from: nat): (r: Option<nat>)
    requires from <= |s|
    ensures r.Some? ==> from <= r.value && OccursAt(s, pat, r.value)
    ensures r.Some? ==> forall j: nat :: from <= j < r.value ==> !OccursAt(s, pat, j)
    ensures r.None? ==> forall j: nat :: from <= j ==> !OccursAt(s, pat, j)
    decreases |s| - from
  {
    if OccursAt(s, pat, from) then Some(from)
    else if from + |pat| >= |s| then None
    else FindFrom(s, pat, from + 1)
  }

  /** `mb_strpos($s, $pat)`: the index of the first occurrence, or None for
      PHP's `false`. */
  function Find(s: string, pat: string): (r: Option<nat>)
    ensures r.Some? ==> OccursAt(s, pat, r.value)
    ensures r.Some? ==> forall j: nat :: j < r.value ==> !OccursAt(s, pat, j)
    ensures r.None? <==> !Contains(s, pat)
  {
    FindFrom(s, pat, 0)
  }

  /** `implode($sep, $parts)`. */
  function Implode(sep: string, parts: seq<string>): string
    decreases |parts|
  {
    if |parts| == 0 then ""
    else if |parts| == 1 then parts[0]
    else parts[0] + sep + Implode(sep, parts[1..])
  }

  /** `explode($sep, $s)`: the pieces between successive separators, scanned
      left to right. PHP raises a ValueError for an empty separator, which is
      excluded here. */
  function Explode(sep: string, s: string): (parts: seq<string>)
    requires |sep| > 0
    ensures |parts| >= 1
    ensures Implode(sep, parts) == s
    ensures forall k :: 0 <= k < |parts| ==> !Contains(parts[k], sep)
    ensures forall j: nat :: j < |parts[0]| ==> !OccursAt(s, sep, j)
    decreases |s|
  {
    match Find(s, sep)
    case None => [s]
    case Some(i) =>
      var rest := Explode(sep, s[i + |sep|..]);
      NoOccurrenceBefore(s, sep, i);
      assert s == s[..i] + sep + s[i + |sep|..];
      assert ([s[..i]] + rest)[1..] == rest;
      [s[..i]] + rest
  }

  /** A prefix that ends before the first occurrence holds no occurrence. */
  lemma NoOccurrenceBefore(s: string, pat: string, i: nat)
    requires |pat| > 0 && i <= |s|
    requires forall j: nat :: j < i ==> !OccursAt(s, pat, j)
    ensures !Contains(s[..i], pat)
  {
    forall j: nat
      ensures !OccursAt(s[..i], pat, j)
    {
      if j + |pat| <= i {
        assert s[..i][j..j + |pat|] == s[j..j + |pat|];
        assert j < i && !OccursAt(s, pat, j);
      }
    }
  }

  /** When the separator's first character is absent from `a`, the first
      separator in `a + sep + b` is the one after `a`. */
  lemma {:induction false} ExplodeCons(sep: string, a: string, b: string)
    requires |sep| > 0
    requires sep[0] !in a
    ensures Explode(sep, a + sep + b) == [a] + Explode(sep, b)
  {
    var s := a + sep + b;
    assert OccursAt(s, sep, |a|);
    forall j: nat | j < |a|
      ensures !OccursAt(s, sep, j)
    {
      assert s[j] == a[j];
      if j + |sep| <= |s| {
        assert s[j..j + |sep|][0] != sep[0];
      }
    }
    assert Find(s, sep) == Some(|a|);
    assert s[..|a|] == a;
    assert s[|a| + |sep|..] == b;
  }

  /** A pattern cannot occur where its first character does not. */
  lemma FirstCharAbsent(s: string, pat: string)
    requires |pat| > 0 && pat[0] !in s
    ensures !Contains(s, pat)
  {
    forall j: nat
      ensures !OccursAt(s, pat, j)
    {
      if j + |pat| <= |s| {
        assert s[j..j + |pat|][0] != pat[0];
      }
    }
  }

  /** A string without the separator's first character explodes to itself. */
  lemma ExplodeSingle(sep: string, a: string)
    requires |sep| > 0
    requires sep[0] !in a
    ensures Explode(sep, a) == [a]
  {
    FirstCharAbsent(a, sep);
  }

  /** The first piece of `explode` is a prefix of the input that holds no
      separator, and it is either the whole input or ends where the leftmost
      separator starts: no occurrence, overlapping or not, begins inside it. */
  lemma FirstPieceSpec(sep: string, s: string)
    requires |sep| > 0
    ensures var first := Explode(sep, s)[0];
      && first == s[..|first|]
      && !Contains(first, sep)
      && (|first| == |s| || OccursAt(s, sep, |first|))
      && forall j: nat :: j < |first| ==> !OccursAt(s, sep, j)
  {
    var parts := Explode(sep, s);
    if |parts| > 1 {
      assert s == parts[0] + sep + Implode(sep, parts[1..]);
      assert s[|parts[0]|..|parts[0]| + |sep|] == sep;
    }
  }

  /** `explode` cuts at the leftmost separator and then splits what follows
      it the same way; with the first piece fixed by its contract, this
      determines the whole result. */
  lemma ExplodeSteps(sep: string, s: string)
    requires |sep| > 0
    ensures var parts := Explode(sep, s);
      && (|parts| == 1 <==> !Contains(s, sep))
      && (|parts| == 1 ==> parts[0] == s)
      && (|parts| > 1 ==>
        && OccursAt(s, sep, |parts[0]|)
        && parts[1..] == Explode(sep, s[|parts[0]| + |sep|..]))
  {
    var parts := Explode(sep, s);
    match Find(s, sep)
    case None =>
    case Some(i) =>
      assert parts[0] == s[..i];
      assert parts[1..] == Explode(sep, s[i + |sep|..]);
  }

  /** Overlapping separators are cut at the leftmost one: "aaa" split at
      "aa" gives "" and "a", not "a" and "". */
  lemma ExplodeLeftmost(a: char)
    ensures Explode([a, a], [a, a, a]) == ["", [a]]
  {
    var s := [a, a, a];
    assert OccursAt(s, [a, a], 0);
    assert Find(s, [a, a]) == Some(0);
    assert s[2..] == [a];
    assert !OccursAt([a], [a, a], 0);
    assert Find([a], [a, a]).None?;
  }
}
