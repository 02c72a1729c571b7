/**
 * Order-preserving removal of duplicates by a key, written the way the merge
 * engine writes it: `list.filter((x, i, self) => i === self.findIndex(y => key(y) === key(x)))`.
 * The same semantics serve for `[...new Set(list)]`, which keeps the first
 * occurrence of every value in insertion order (the key is then the value itself).
 */
module Dedup {

  /** `s.findIndex(x => key(x) == k)`: the first index whose key is `k`, or -1 when there is none. */
  function FindIndex<T, K(==)>(s: seq<T>, key: T -> K, k: K): (i: int)
    ensures -1 <= i < |s|
    ensures i >= 0 ==> key(s[i]) == k
    ensures i == -1 ==> forall j :: 0 <= j < |s| ==> key(s[j]) != k
    ensures i >= 0 ==> forall j :: 0 <= j < i ==> key(s[j]) != k
  {
    if s == [] then -1
    else if key(s[0]) == k then 0
    else
      var j := FindIndex(s[1..], key, k);
      if j == -1 then -1 else j + 1
  }

  /** The elements among the first `n` whose index is the first index of their key. */
  function KeepFirst<T, K(==)>(s: seq<T>, key: T -> K, n: nat): seq<T>
    requires n <= |s|
  {
    if n == 0 then []
    else
      KeepFirst(s, key, n - 1) +
      (if FindIndex(s, key, key(s[n - 1])) == n - 1 then [s[n - 1]] else [])
  }

  /** The `filter` over the whole list. */
  function DedupBy<T, K(==)>(s: seq<T>, key: T -> K): seq<T>
  {
    KeepFirst(s, key, |s|)
  }

  /** The set of keys that occur in `s`. */
  function KeySet<T, K(==)>(s: seq<T>, key: T -> K): set<K>
  {
    set i | 0 <= i < |s| :: key(s[i])
  }

  lemma KeySetEmpty<T, K>(s: seq<T>, key: T -> K)
    ensures KeySet(s, key) == {} <==> s == []
  {
    if s != [] { assert key(s[0]) in KeySet(s, key); }
  }

  /** The keys of a concatenation are the keys of its two parts. */
  lemma KeySetAppend<T, K>(a: seq<T>, b: seq<T>, key: T -> K)
    ensures KeySet(a + b, key) == KeySet(a, key) + KeySet(b, key)
  {
    var r := a + b;
    forall k | k in KeySet(r, key) ensures k in KeySet(a, key) + KeySet(b, key) {
      var i :| 0 <= i < |r| && key(r[i]) == k;
      if i < |a| { assert r[i] == a[i]; } else { assert r[i] == b[i - |a|]; }
    }
    forall k | k in KeySet(a, key) + KeySet(b, key) ensures k in KeySet(r, key) {
      if k in KeySet(a, key) { var i :| 0 <= i < |a| && key(a[i]) == k; assert r[i] == a[i]; }
      else { var i :| 0 <= i < |b| && key(b[i]) == k; assert r[|a| + i] == b[i]; }
    }
  }

  /** No two elements share a key. */
  predicate UniqueKeys<T, K(==)>(s: seq<T>, key: T -> K)
  {
    forall i, j :: 0 <= i < j < |s| ==> key(s[i]) != key(s[j])
  }

  /**
   * The reference definition: walk the list front to back, remembering the keys
   * already seen, and keep an element exactly when its key is new.
   */
  function Distinct<T, K(==)>(s: seq<T>, key: T -> K, seen: set<K>): seq<T>
  {
    if s == [] then []
    else if key(s[0]) in seen then Distinct(s[1..], key, seen)
    else [s[0]] + Distinct(s[1..], key, seen + {key(s[0])})
  }

  /** The element at index `n` is kept exactly when no earlier element has its key. */
  lemma FirstIndexAt<T, K>(s: seq<T>, key: T -> K, n: nat)
    requires n < |s|
    ensures FindIndex(s, key, key(s[n])) == n <==> key(s[n]) !in KeySet(s[..n], key)
  {
    var k := key(s[n]);
    var i := FindIndex(s, key, k);
    assert 0 <= i <= n;
    if i < n {
      assert s[..n][i] == s[i];
      assert k in KeySet(s[..n], key);
    }
    if k in KeySet(s[..n], key) {
      var j :| 0 <= j < n && key(s[..n][j]) == k;
      assert s[..n][j] == s[j];
    }
  }

  lemma KeySetSnoc<T, K>(s: seq<T>, key: T -> K, n: nat)
    requires n < |s|
    ensures KeySet(s[..n + 1], key) == KeySet(s[..n], key) + {key(s[n])}
  {
    var a, b := s[..n + 1], s[..n];
    forall k | k in KeySet(a, key) ensures k in KeySet(b, key) + {key(s[n])} {
      var i :| 0 <= i < |a| && key(a[i]) == k;
      if i < n { assert a[i] == b[i]; }
    }
    forall k | k in KeySet(b, key) + {key(s[n])} ensures k in KeySet(a, key) {
      if k == key(s[n]) { assert a[n] == s[n]; }
      else { var i :| 0 <= i < |b| && key(b[i]) == k; assert a[i] == b[i]; }
    }
  }

  /**
   * What the filter keeps of the first `n` elements: each kept element is the
   * first occurrence of its key, the kept elements follow the order of those
   * first occurrences, and every key among the first `n` elements is kept.
   */
  lemma KeepFirstFacts<T, K>(s: seq<T>, key: T -> K, n: nat)
    requires n <= |s|
    ensures forall i :: 0 <= i < |KeepFirst(s, key, n)| ==>
      0 <= FindIndex(s, key, key(KeepFirst(s, key, n)[i])) < n &&
      KeepFirst(s, key, n)[i] == s[FindIndex(s, key, key(KeepFirst(s, key, n)[i]))]
    ensures forall i, j :: 0 <= i < j < |KeepFirst(s, key, n)| ==>
      FindIndex(s, key, key(KeepFirst(s, key, n)[i])) < FindIndex(s, key, key(KeepFirst(s, key, n)[j]))
    ensures KeySet(KeepFirst(s, key, n), key) == KeySet(s[..n], key)
  {
    KeepFirstPicks(s, key, n);
    KeepFirstOrdered(s, key, n);
    KeepFirstKeySet(s, key, n);
  }

  /** Each kept element is the first occurrence of its key among the first `n`. */
  lemma {:induction false} KeepFirstPicks<T, K>(s: seq<T>, key: T -> K, n: nat)
    requires n <= |s|
    ensures forall i :: 0 <= i < |KeepFirst(s, key, n)| ==>
      0 <= FindIndex(s, key, key(KeepFirst(s, key, n)[i])) < n &&
      KeepFirst(s, key, n)[i] == s[FindIndex(s, key, key(KeepFirst(s, key, n)[i]))]
  {
    if n > 0 {
      KeepFirstPicks(s, key, n - 1);
      var r0 := KeepFirst(s, key, n - 1);
      var r := KeepFirst(s, key, n);
      forall i | 0 <= i < |r|
        ensures 0 <= FindIndex(s, key, key(r[i])) < n && r[i] == s[FindIndex(s, key, key(r[i]))]
      {
        if i < |r0| { assert r[i] == r0[i]; }
      }
    }
  }

  /** The kept elements appear in the order of their first occurrences. */
  lemma {:induction false} KeepFirstOrdered<T, K>(s: seq<T>, key: T -> K, n: nat)
    requires n <= |s|
    ensures forall i, j :: 0 <= i < j < |KeepFirst(s, key, n)| ==>
      FindIndex(s, key, key(KeepFirst(s, key, n)[i])) < FindIndex(s, key, key(KeepFirst(s, key, n)[j]))
  {
    if n > 0 {
      KeepFirstOrdered(s, key, n - 1);
      KeepFirstPicks(s, key, n - 1);
      var r0 := KeepFirst(s, key, n - 1);
      var r := KeepFirst(s, key, n);
      if r != r0 {
        var x := s[n - 1];
        assert r == r0 + [x] && FindIndex(s, key, key(x)) == n - 1;
        forall i, j | 0 <= i < j < |r|
          ensures FindIndex(s, key, key(r[i])) < FindIndex(s, key, key(r[j]))
        {
          assert r[i] == r0[i];
          if j < |r0| { assert r[j] == r0[j]; } else { assert r[j] == x; }
        }
      }
    }
  }

  /** Every key among the first `n` elements is kept, and no other. */
  lemma {:induction false} KeepFirstKeySet<T, K>(s: seq<T>, key: T -> K, n: nat)
    requires n <= |s|
    ensures KeySet(KeepFirst(s, key, n), key) == KeySet(s[..n], key)
  {
    if n == 0 {
      assert KeySet(s[..0], key) == {};
    } else {
      KeepFirstKeySet(s, key, n - 1);
      var r0 := KeepFirst(s, key, n - 1);
      var x := s[n - 1];
      var before := KeySet(s[..n - 1], key);
      KeySetSnoc(s, key, n - 1);
      assert KeySet(s[..n], key) == before + {key(x)};
      FirstIndexAt(s, key, n - 1);
      if key(x) !in before {
        assert KeepFirst(s, key, n) == r0 + [x];
        KeySetAddOne(r0, x, key);
      } else {
        assert KeepFirst(s, key, n) == r0;
        assert before + {key(x)} == before;
      }
    }
  }

  lemma KeySetAddOne<T, K>(a: seq<T>, x: T, key: T -> K)
    ensures KeySet(a + [x], key) == KeySet(a, key) + {key(x)}
  {
    var r := a + [x];
    assert r[..|a| + 1] == r && r[..|a|] == a;
    KeySetSnoc(r, key, |a|);
  }

  /** The deduplicated list never repeats a key. */
  lemma DedupByUniqueKeys<T, K>(s: seq<T>, key: T -> K)
    ensures UniqueKeys(DedupBy(s, key), key)
  {
    KeepFirstFacts(s, key, |s|);
  }

  /** Every key of the input, and no other, occurs in the deduplicated list. */
  lemma DedupByKeySet<T, K>(s: seq<T>, key: T -> K)
    ensures KeySet(DedupBy(s, key), key) == KeySet(s, key)
  {
    KeepFirstFacts(s, key, |s|);
    assert s[..|s|] == s;
  }

  /**
   * The deduplicated list consists of first occurrences only, in the order in
   * which they occur in the input: it is the subsequence of `s` at the
   * (strictly increasing) first index of each key.
   */
  lemma DedupByFirstOccurrences<T, K>(s: seq<T>, key: T -> K)
    ensures forall i :: 0 <= i < |DedupBy(s, key)| ==>
      0 <= FindIndex(s, key, key(DedupBy(s, key)[i])) &&
      DedupBy(s, key)[i] == s[FindIndex(s, key, key(DedupBy(s, key)[i]))]
    ensures forall i, j :: 0 <= i < j < |DedupBy(s, key)| ==>
      FindIndex(s, key, key(DedupBy(s, key)[i])) < FindIndex(s, key, key(DedupBy(s, key)[j]))
  {
    KeepFirstFacts(s, key, |s|);
  }

  lemma {:induction false} DistinctSnoc<T, K>(a: seq<T>, x: T, key: T -> K, seen: set<K>)
    ensures Distinct(a + [x], key, seen) ==
      Distinct(a, key, seen) + (if key(x) in seen + KeySet(a, key) then [] else [x])
    decreases |a|
  {
    if a == [] {
      assert KeySet(a, key) == {};
      assert ([x])[1..] == [];
    } else {
      assert (a + [x])[0] == a[0] && (a + [x])[1..] == a[1..] + [x];
      var seen' := if key(a[0]) in seen then seen else seen + {key(a[0])};
      DistinctSnoc(a[1..], x, key, seen');
      KeySetFront(a, key);
    }
  }

  lemma KeySetFront<T, K>(s: seq<T>, key: T -> K)
    requires s != []
    ensures KeySet(s, key) == {key(s[0])} + KeySet(s[1..], key)
  {
    forall k | k in KeySet(s, key) ensures k in {key(s[0])} + KeySet(s[1..], key) {
      var i :| 0 <= i < |s| && key(s[i]) == k;
      if i > 0 { assert s[1..][i - 1] == s[i]; }
    }
    forall k | k in KeySet(s[1..], key) ensures k in KeySet(s, key) {
      var i :| 0 <= i < |s[1..]| && key(s[1..][i]) == k;
      assert s[i + 1] == s[1..][i];
    }
  }

  /** A list has no repeated key exactly when it has as many keys as elements. */
  lemma {:induction false} UniqueKeysCard<T, K>(s: seq<T>, key: T -> K)
    ensures |KeySet(s, key)| <= |s|
    ensures UniqueKeys(s, key) <==> |KeySet(s, key)| == |s|
  {
    if s == [] {
      KeySetEmpty(s, key);
    } else {
      var t := s[1..];
      UniqueKeysCard(t, key);
      KeySetFront(s, key);
      if UniqueKeys(s, key) {
        forall i, j | 0 <= i < j < |t| ensures key(t[i]) != key(t[j]) {
          assert t[i] == s[i + 1] && t[j] == s[j + 1];
        }
      }
      if |KeySet(s, key)| == |s| {
        assert key(s[0]) !in KeySet(t, key);
        forall i, j | 0 <= i < j < |s| ensures key(s[i]) != key(s[j]) {
          assert s[j] == t[j - 1];
          if i > 0 { assert s[i] == t[i - 1]; }
        }
      }
    }
  }

  /** The `findIndex` filter agrees with the seen-set walk on every input. */
  lemma {:induction false} DedupByIsDistinct<T, K>(s: seq<T>, key: T -> K)
    ensures DedupBy(s, key) == Distinct(s, key, {})
  {
    KeepFirstMatchesDistinct(s, key, |s|);
    assert s[..|s|] == s;
  }

  lemma {:induction false} KeepFirstMatchesDistinct<T, K>(s: seq<T>, key: T -> K, n: nat)
    requires n <= |s|
    ensures KeepFirst(s, key, n) == Distinct(s[..n], key, {})
  {
    if n > 0 {
      KeepFirstMatchesDistinct(s, key, n - 1);
      assert s[..n] == s[..n - 1] + [s[n - 1]];
      DistinctSnoc(s[..n - 1], s[n - 1], key, {});
      FirstIndexAt(s, key, n - 1);
    }
  }

  /** A list whose keys are already unique is left as it is. */
  lemma {:induction false} DedupByOfUnique<T, K>(s: seq<T>, key: T -> K)
    requires UniqueKeys(s, key)
    ensures DedupBy(s, key) == s
  {
    KeepFirstOfUnique(s, key, |s|);
  }

  lemma {:induction false} KeepFirstOfUnique<T, K>(s: seq<T>, key: T -> K, n: nat)
    requires UniqueKeys(s, key) && n <= |s|
    ensures KeepFirst(s, key, n) == s[..n]
  {
    if n > 0 {
      KeepFirstOfUnique(s, key, n - 1);
      var i := FindIndex(s, key, key(s[n - 1]));
      assert i == n - 1;
      assert s[..n] == s[..n - 1] + [s[n - 1]];
    }
  }

  lemma {:induction false} KeepFirstPrefix<T, K>(s: seq<T>, key: T -> K, m: nat, n: nat)
    requires m <= n <= |s|
    ensures |KeepFirst(s, key, m)| <= |KeepFirst(s, key, n)|
    ensures KeepFirst(s, key, n)[..|KeepFirst(s, key, m)|] == KeepFirst(s, key, m)
    decreases n - m
  {
    if m < n {
      KeepFirstPrefix(s, key, m, n - 1);
    }
  }

  /**
   * Appending to a list without repeated keys keeps it in front: deduplicating
   * `a + b` yields `a` unchanged, followed by what `b` adds.
   */
  lemma DedupByKeepsUniquePrefix<T, K>(a: seq<T>, b: seq<T>, key: T -> K)
    requires UniqueKeys(a, key)
    ensures |a| <= |DedupBy(a + b, key)|
    ensures DedupBy(a + b, key)[..|a|] == a
  {
    KeepFirstPrefix(a + b, key, |a|, |a + b|);
    KeepFirstOfUniqueFront(a, b, key);
  }

  /** Over the first `|a|` elements of `a + b`, a list without repeated keys is kept whole. */
  lemma KeepFirstOfUniqueFront<T, K>(a: seq<T>, b: seq<T>, key: T -> K)
    requires UniqueKeys(a, key)
    ensures KeepFirst(a + b, key, |a|) == a
  {
    KeepFirstMatchesDistinct(a + b, key, |a|);
    assert (a + b)[..|a|] == a;
    DedupByIsDistinct(a, key);
    DedupByOfUnique(a, key);
  }

  /** Deduplicating twice is the same as deduplicating once. */
  lemma DedupByIdempotent<T, K>(s: seq<T>, key: T -> K)
    ensures DedupBy(DedupBy(s, key), key) == DedupBy(s, key)
  {
    DedupByUniqueKeys(s, key);
    DedupByOfUnique(DedupBy(s, key), key);
  }
  /** Deduplicating `a + b` and then appending `b` again keeps the first result. */
  lemma DedupByRepeat<T, K>(a: seq<T>, b: seq<T>, key: T -> K)
    ensures DedupBy(DedupBy(a + b, key) + b, key) == DedupBy(a + b, key)
  {
    DedupByUniqueKeys(a + b, key);
    DedupByKeySet(a + b, key);
    KeySetAppend(a, b, key);
    DedupByAbsorbs(DedupBy(a + b, key), b, key);
  }

  /**
   * Appending elements whose keys are all already present in a list with
   * unique keys changes nothing after de-duplication.
   */
  lemma DedupByAbsorbs<T, K>(a: seq<T>, b: seq<T>, key: T -> K)
    requires UniqueKeys(a, key)
    requires KeySet(b, key) <= KeySet(a, key)
    ensures DedupBy(a + b, key) == a
  {
    KeepFirstAbsorbs(a, b, key, |a + b|);
  }

  /** In `a + b`, an element of `b` whose key occurs in `a` first occurs inside `a`. */
  lemma FirstIndexBeforeB<T, K>(a: seq<T>, b: seq<T>, key: T -> K, t: nat)
    requires t < |b| && key(b[t]) in KeySet(a, key)
    ensures 0 <= FindIndex(a + b, key, key(b[t])) < |a|
  {
    var s := a + b;
    var j :| 0 <= j < |a| && key(a[j]) == key(b[t]);
    assert s[j] == a[j];
  }

  /** Past the end of `a`, no element of `b` is kept, since each repeats a key of `a`. */
  lemma {:induction false} KeepFirstAbsorbs<T, K>(a: seq<T>, b: seq<T>, key: T -> K, n: nat)
    requires UniqueKeys(a, key)
    requires KeySet(b, key) <= KeySet(a, key)
    requires |a| <= n <= |a + b|
    ensures KeepFirst(a + b, key, n) == a
  {
    var s := a + b;
    if n == |a| {
      KeepFirstOfUniqueFront(a, b, key);
    } else {
      KeepFirstAbsorbs(a, b, key, n - 1);
      var t := n - 1 - |a|;
      assert s[n - 1] == b[t];
      assert key(b[t]) in KeySet(b, key);
      FirstIndexBeforeB(a, b, key, t);
      assert KeepFirst(s, key, n) == KeepFirst(s, key, n - 1);
    }
  }
}
