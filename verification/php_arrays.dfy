/** Ordered PHP arrays and `array_merge`, as used to combine the login
    form fields with the caller's extra parameters. */
module PhpArrays {
  import opened Wrappers

  /** A PHP array key. PHP stores a decimal-integer string key as an integer
      key; keys here are taken as already normalised that way. */
  datatype Key = IntKey(n: int) | StrKey(s: string)

  /** A PHP array: its entries in insertion order. */
  type PhpArray<V> = seq<(Key, V)>

  /** Every key occurs once, as in every real PHP array. */
  predicate DistinctKeys<V>(a: PhpArray<V>) {
    forall i, j :: 0 <= i < j < |a| ==> a[i].0 != a[j].0
  }

  /** `$a[$k] ?? null`: the value stored under `k`. */
  function Get<V>(a: PhpArray<V>, k: Key): Option<V>
    decreases |a|
  {
    if |a| == 0 then None
    else if a[0].0 == k then Some(a[0].1)
    else Get(a[1..], k)
  }

  /** The number of integer-keyed entries, which after renumbering is also
      the next free integer key. */
  function IntCount<V>(a: PhpArray<V>): nat
    decreases |a|
  {
    if |a| == 0 then 0
    else (if a[0].0.IntKey? then 1 else 0) + IntCount(a[1..])
  }

  /** `$a[$k] = $v`: overwrite the entry for `k` where it stands, or append a
      new entry at the end. */
  function Put<V>(a: PhpArray<V>, k: Key, v: V): (r: PhpArray<V>)
    ensures Get(r, k) == Some(v)
    ensures forall k' :: k' != k ==> Get(r, k') == Get(a, k')
    ensures |r| == if Get(a, k).Some? then |a| else |a| + 1
    ensures forall i :: 0 <= i < |a| ==> r[i].0 == a[i].0
    ensures Get(a, k).None? ==> r == a + [(k, v)]
    decreases |a|
  {
    if |a| == 0 then [(k, v)]
    else if a[0].0 == k then [(k, v)] + a[1..]
    else [a[0]] + Put(a[1..], k, v)
  }

  /** Merges the entries of `b` into `acc` one by one, the way `array_merge`
      does: a string key overwrites or appends, an integer key is dropped
      and the value appended under the next free integer. */
  function MergeInto<V>(acc: PhpArray<V>, b: PhpArray<V>): PhpArray<V>
    decreases |b|
  {
    if |b| == 0 then acc
    else match b[0].0
      case IntKey(_) => MergeInto(acc + [(IntKey(IntCount(acc)), b[0].1)], b[1..])
      case StrKey(_) => MergeInto(Put(acc, b[0].0, b[0].1), b[1..])
  }

  /** `array_merge($a, $b)`. */
  function ArrayMerge<V>(a: PhpArray<V>, b: PhpArray<V>): PhpArray<V> {
    MergeInto(MergeInto([], a), b)
  }

  // ---------------------------------------------------------------------------
  // Lemmas

  /** Appending an integer-keyed entry does not change any string lookup. */
  lemma {:induction false} GetAppendOther<V>(a: PhpArray<V>, e: (Key, V), k: Key)
    requires e.0 != k
    ensures Get(a + [e], k) == Get(a, k)
    decreases |a|
  {
    if |a| > 0 {
      assert (a + [e])[1..] == a[1..] + [e];
      GetAppendOther(a[1..], e, k);
    }
  }

  /** A string key of the merged-in array wins; any other string key keeps
      the value it had. */
  lemma {:induction false} MergeIntoStrKey<V>(acc: PhpArray<V>, b: PhpArray<V>, s: string)
    requires DistinctKeys(b)
    ensures Get(MergeInto(acc, b), StrKey(s))
         == if Get(b, StrKey(s)).Some? then Get(b, StrKey(s)) else Get(acc, StrKey(s))
    decreases |b|
  {
    if |b| > 0 {
      var rest := b[1..];
      assert DistinctKeys(rest) by {
        forall i, j | 0 <= i < j < |rest| ensures rest[i].0 != rest[j].0 {
          assert rest[i] == b[i + 1] && rest[j] == b[j + 1];
        }
      }
      if b[0].0 == StrKey(s) {
        assert Get(rest, StrKey(s)).None? by { GetAbsentAfterFirst(b, StrKey(s)); }
      }
      match b[0].0
      case IntKey(_) =>
        var acc' := acc + [(IntKey(IntCount(acc)), b[0].1)];
        GetAppendOther(acc, (IntKey(IntCount(acc)), b[0].1), StrKey(s));
        MergeIntoStrKey(acc', rest, s);
      case StrKey(_) =>
        MergeIntoStrKey(Put(acc, b[0].0, b[0].1), rest, s);
    }
  }

  /** In an array with distinct keys the first key occurs nowhere after it. */
  lemma GetAbsentAfterFirst<V>(b: PhpArray<V>, k: Key)
    requires |b| > 0 && DistinctKeys(b) && b[0].0 == k
    ensures Get(b[1..], k).None?
  {
    GetNoneWhenAbsent(b[1..], k);
  }

  lemma {:induction false} GetNoneWhenAbsent<V>(a: PhpArray<V>, k: Key)
    requires forall i :: 0 <= i < |a| ==> a[i].0 != k
    ensures Get(a, k).None?
    decreases |a|
  {
    if |a| > 0 {
      GetNoneWhenAbsent(a[1..], k);
    }
  }

  /** Merging never moves an entry already in `acc`: the first |acc| keys stay. */
  lemma {:induction false} MergeIntoKeepsPrefix<V>(acc: PhpArray<V>, b: PhpArray<V>)
    ensures |MergeInto(acc, b)| >= |acc|
    ensures forall i :: 0 <= i < |acc| ==> MergeInto(acc, b)[i].0 == acc[i].0
    decreases |b|
  {
    if |b| > 0 {
      match b[0].0
      case IntKey(_) =>
        MergeIntoKeepsPrefix(acc + [(IntKey(IntCount(acc)), b[0].1)], b[1..]);
      case StrKey(_) =>
        MergeIntoKeepsPrefix(Put(acc, b[0].0, b[0].1), b[1..]);
    }
  }

  /** Fresh, distinct string keys are simply appended in order. */
  lemma {:induction false} MergeIntoFreshStrKeys<V>(acc: PhpArray<V>, b: PhpArray<V>)
    requires DistinctKeys(b)
    requires forall i :: 0 <= i < |b| ==> b[i].0.StrKey? && Get(acc, b[i].0).None?
    ensures MergeInto(acc, b) == acc + b
    decreases |b|
  {
    if |b| > 0 {
      var acc' := acc + [b[0]];
      MergeIntoFreshStep(acc, b);
      FreshKeysStayFresh(acc, b);
      MergeIntoFreshStrKeys(acc', b[1..]);
      assert acc' + b[1..] == acc + b;
    }
  }

  /** One step of merging a fresh string key: it is appended. */
  lemma MergeIntoFreshStep<V>(acc: PhpArray<V>, b: PhpArray<V>)
    requires |b| > 0 && b[0].0.StrKey? && Get(acc, b[0].0).None?
    ensures MergeInto(acc, b) == MergeInto(acc + [b[0]], b[1..])
  {
    var (k, v) := b[0];
    assert Put(acc, k, v) == acc + [(k, v)];
  }

  /** After the first fresh key is appended, the remaining keys are still fresh. */
  lemma FreshKeysStayFresh<V>(acc: PhpArray<V>, b: PhpArray<V>)
    requires |b| > 0 && DistinctKeys(b)
    requires forall i :: 0 <= i < |b| ==> b[i].0.StrKey? && Get(acc, b[i].0).None?
    ensures DistinctKeys(b[1..])
    ensures forall i :: 0 <= i < |b| - 1 ==> b[1..][i].0.StrKey? && Get(acc + [b[0]], b[1..][i].0).None?
  {
    forall i | 0 <= i < |b| - 1
      ensures b[1..][i].0.StrKey? && Get(acc + [b[0]], b[1..][i].0).None?
    {
      assert b[1..][i] == b[i + 1];
      GetAppendOther(acc, b[0], b[i + 1].0);
    }
  }
}
