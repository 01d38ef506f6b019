/** The in-place insertion sort shared, line for line, by `wSarSortFiles`
    (src/sartool/sar.c:238-251) and `segmentSort` (not_yet_used/wbTexture.c:25-38).
    Both compare one 64-bit key (`id.hash`, `hash`) with strict `>`, so elements
    with equal keys never pass each other. */
module KeyedSort {

  ghost predicate SortedBy<T>(s: seq<T>, key: T -> int) {
    forall i, j :: 0 <= i < j < |s| ==> key(s[i]) <= key(s[j])
  }

  /** The subsequence of elements whose key is `k`, in their original order. */
  function WithKey<T>(s: seq<T>, key: T -> int, k: int): (r: seq<T>)
    ensures |r| <= |s|
  {
    if |s| == 0 then []
    else WithKey(s[..|s| - 1], key, k) + (if key(s[|s| - 1]) == k then [s[|s| - 1]] else [])
  }

  /** Where the inner loop drops the element: just after the last element, scanning
      from the right, whose key is not greater than `key(x)`. */
  function InsertPos<T>(s: seq<T>, x: T, key: T -> int): (j: nat)
    ensures j <= |s|
  {
    if |s| == 0 || key(s[|s| - 1]) <= key(x) then |s| else InsertPos(s[..|s| - 1], x, key)
  }

  /** The inner loop of the sort: shift right every trailing element whose key is
      strictly greater than `key(x)`, then store `x` in the gap. */
  function Insert<T>(s: seq<T>, x: T, key: T -> int): (r: seq<T>)
  {
    if |s| == 0 || key(s[|s| - 1]) <= key(x) then s + [x]
    else Insert(s[..|s| - 1], x, key) + [s[|s| - 1]]
  }

  /** The whole sort: the prefix before `s[i]` is already sorted when `s[i]` is inserted. */
  function InsertionSort<T>(s: seq<T>, key: T -> int): (r: seq<T>)
  {
    if |s| == 0 then [] else Insert(InsertionSort(s[..|s| - 1], key), s[|s| - 1], key)
  }

  lemma {:induction false} InsertShape<T>(s: seq<T>, x: T, key: T -> int)
    ensures Insert(s, x, key) == s[..InsertPos(s, x, key)] + [x] + s[InsertPos(s, x, key)..]
    ensures forall i :: InsertPos(s, x, key) <= i < |s| ==> key(s[i]) > key(x)
    ensures InsertPos(s, x, key) > 0 ==> key(s[InsertPos(s, x, key) - 1]) <= key(x)
  {
    if |s| == 0 || key(s[|s| - 1]) <= key(x) {
    } else {
      var init := s[..|s| - 1];
      InsertShape(init, x, key);
      var j := InsertPos(init, x, key);
      assert init[..j] == s[..j];
      assert init[j..] + [s[|s| - 1]] == s[j..];
    }
  }

  lemma {:induction false} WithKeyAppend<T>(a: seq<T>, b: seq<T>, key: T -> int, k: int)
    ensures WithKey(a + b, key, k) == WithKey(a, key, k) + WithKey(b, key, k)
    decreases |b|
  {
    if |b| == 0 {
      assert a + b == a;
    } else {
      var b' := b[..|b| - 1];
      assert (a + b)[..|a + b| - 1] == a + b';
      WithKeyAppend(a, b', key, k);
    }
  }

  lemma {:induction false} WithKeyNone<T>(s: seq<T>, key: T -> int, k: int)
    requires forall i :: 0 <= i < |s| ==> key(s[i]) != k
    ensures WithKey(s, key, k) == []
  {
    if |s| > 0 {
      WithKeyNone(s[..|s| - 1], key, k);
    }
  }

  lemma {:induction false} InsertSorted<T>(s: seq<T>, x: T, key: T -> int)
    requires SortedBy(s, key)
    ensures SortedBy(Insert(s, x, key), key)
  {
    InsertShape(s, x, key);
    var j := InsertPos(s, x, key);
    var r := Insert(s, x, key);
    forall p, q | 0 <= p < q < |r| ensures key(r[p]) <= key(r[q]) {
      if p < j && q == j {
        assert key(s[p]) <= key(s[j - 1]);
      } else if p == j && q > j {
        assert r[q] == s[q - 1];
      } else if p < j && q > j {
        assert r[q] == s[q - 1];
      } else if p > j {
        assert r[p] == s[p - 1] && r[q] == s[q - 1];
      }
    }
  }

  lemma {:induction false} InsertPermutes<T>(s: seq<T>, x: T, key: T -> int)
    ensures multiset(Insert(s, x, key)) == multiset(s) + multiset{x}
  {
    InsertShape(s, x, key);
    var j := InsertPos(s, x, key);
    var a, b := s[..j], s[j..];
    assert s == a + b;
    assert multiset(s) == multiset(a) + multiset(b);
    assert multiset(a + [x] + b) == multiset(a) + multiset{x} + multiset(b);
  }

  /** The insertion of `x` is stable: among the elements with any one key, `x`
      lands after all that were already there. */
  lemma {:induction false} InsertStable<T>(s: seq<T>, x: T, key: T -> int, k: int)
    ensures WithKey(Insert(s, x, key), key, k) == WithKey(s + [x], key, k)
  {
    InsertShape(s, x, key);
    var j := InsertPos(s, x, key);
    var a, b := s[..j], s[j..];
    forall i | 0 <= i < |b| ensures key(b[i]) > key(x) {
      assert b[i] == s[j + i];
    }
    assert s == a + b;
    StableSplice(a, b, x, key, k);
  }

  /** Dropping `x` in front of elements whose keys all exceed its own changes no
      key's subsequence. */
  lemma StableSplice<T>(a: seq<T>, b: seq<T>, x: T, key: T -> int, k: int)
    requires forall i :: 0 <= i < |b| ==> key(b[i]) > key(x)
    ensures WithKey(a + [x] + b, key, k) == WithKey(a + b + [x], key, k)
  {
    var wa, wb, wx := WithKey(a, key, k), WithKey(b, key, k), WithKey([x], key, k);
    WithKeyThree(a, [x], b, key, k);
    WithKeyThree(a, b, [x], key, k);
    WithKeySingleton(x, key, k);
    if key(x) == k {
      WithKeyNone(b, key, k);
      assert wb == [];
    } else {
      assert wx == [];
    }
    assert wa + wx + wb == wa + wb + wx;
  }

  lemma WithKeyThree<T>(a: seq<T>, m: seq<T>, b: seq<T>, key: T -> int, k: int)
    ensures WithKey(a + m + b, key, k) == WithKey(a, key, k) + WithKey(m, key, k) + WithKey(b, key, k)
  {
    WithKeyAppend(a + m, b, key, k);
    WithKeyAppend(a, m, key, k);
  }

  lemma WithKeySingleton<T>(x: T, key: T -> int, k: int)
    ensures WithKey([x], key, k) == if key(x) == k then [x] else []
  {
    assert [x][..0] == [];
  }

  /** An entry whose key no other entry shares is the only one with that key. */
  lemma {:induction false} WithKeyUnique<T>(s: seq<T>, key: T -> int, i: int)
    requires 0 <= i < |s|
    requires forall j :: 0 <= j < |s| && j != i ==> key(s[j]) != key(s[i])
    ensures WithKey(s, key, key(s[i])) == [s[i]]
  {
    var k := key(s[i]);
    var init := s[..|s| - 1];
    if i == |s| - 1 {
      WithKeyNoneIn(s, key, k, 0, |s| - 1);
      assert s[0..|s| - 1] == init;
    } else {
      assert init[i] == s[i];
      assert forall j :: 0 <= j < |init| ==> init[j] == s[j];
      WithKeyUnique(init, key, i);
    }
  }

  lemma WithKeyNoneIn<T>(s: seq<T>, key: T -> int, k: int, lo: int, hi: int)
    requires 0 <= lo <= hi <= |s|
    requires forall j :: lo <= j < hi ==> key(s[j]) != k
    ensures WithKey(s[lo..hi], key, k) == []
  {
    var b := s[lo..hi];
    forall j | 0 <= j < |b| ensures key(b[j]) != k {
      assert b[j] == s[lo + j];
    }
    WithKeyNone(b, key, k);
  }

  /** No entry has a key that selects nothing. */
  lemma {:induction false} WithKeyEmpty<T>(s: seq<T>, key: T -> int, k: int)
    requires WithKey(s, key, k) == []
    ensures forall j :: 0 <= j < |s| ==> key(s[j]) != k
  {
    if |s| > 0 {
      var init := s[..|s| - 1];
      WithKeyEmpty(init, key, k);
      assert forall j :: 0 <= j < |init| ==> s[j] == init[j];
    }
  }

  /** A key that selects exactly one entry is carried by exactly one index. */
  lemma {:induction false} WithKeyOne<T>(s: seq<T>, key: T -> int, k: int, x: T) returns (j: int)
    requires WithKey(s, key, k) == [x]
    ensures 0 <= j < |s| && s[j] == x && key(x) == k
    ensures forall j' :: 0 <= j' < |s| && j' != j ==> key(s[j']) != k
  {
    var init := s[..|s| - 1];
    var last := s[|s| - 1];
    assert forall i :: 0 <= i < |init| ==> s[i] == init[i];
    if key(last) == k {
      assert WithKey(s, key, k) == WithKey(init, key, k) + [last];
      assert WithKey(init, key, k) == [];
      assert [last] == [x];
      WithKeyEmpty(init, key, k);
      j := |s| - 1;
    } else {
      assert WithKey(s, key, k) == WithKey(init, key, k);
      j := WithKeyOne(init, key, k, x);
    }
  }

  /** The sort leaves its input ascending by key. */
  lemma {:induction false} InsertionSortSorted<T>(s: seq<T>, key: T -> int)
    ensures SortedBy(InsertionSort(s, key), key)
  {
    if |s| > 0 {
      InsertionSortSorted(s[..|s| - 1], key);
      InsertSorted(InsertionSort(s[..|s| - 1], key), s[|s| - 1], key);
    }
  }

  /** The sort is a permutation of its input. */
  lemma {:induction false} InsertionSortPermutes<T>(s: seq<T>, key: T -> int)
    ensures multiset(InsertionSort(s, key)) == multiset(s)
  {
    if |s| > 0 {
      var init := s[..|s| - 1];
      InsertionSortPermutes(init, key);
      InsertPermutes(InsertionSort(init, key), s[|s| - 1], key);
      assert s == init + [s[|s| - 1]];
    }
  }

  /** The sort is stable: for every key, the elements carrying it keep their order. */
  lemma {:induction false} InsertionSortStable<T>(s: seq<T>, key: T -> int, k: int)
    ensures WithKey(InsertionSort(s, key), key, k) == WithKey(s, key, k)
  {
    if |s| > 0 {
      var init := s[..|s| - 1];
      InsertionSortStable(init, key, k);
      InsertStable(InsertionSort(init, key), s[|s| - 1], key, k);
      WithKeyAppend(InsertionSort(init, key), [s[|s| - 1]], key, k);
      WithKeyAppend(init, [s[|s| - 1]], key, k);
      assert s == init + [s[|s| - 1]];
    }
  }

  lemma {:induction false} InsertionSortLength<T>(s: seq<T>, key: T -> int)
    ensures |InsertionSort(s, key)| == |s|
  {
    InsertionSortPermutes(s, key);
    assert |multiset(InsertionSort(s, key))| == |multiset(s)|;
  }

  /** One pass of the outer loop: `a[i]` is moved into the sorted prefix `a[..i]`
      by the inner shifting loop; nothing from `i + 1` on moves. */
  method InsertAt<T>(a: array<T>, i: int, key: T -> int)
    requires 1 <= i < a.Length
    modifies a
    ensures a[..i + 1] == Insert(old(a[..i]), old(a[i]), key)
    ensures a[i + 1..] == old(a[i + 1..])
  {
    ghost var sorted := a[..i];
    ghost var x := a[i];
    var j := i - 1;
    if key(a[j]) > key(a[i]) {
      var temp := a[i];
      j := ShiftUp(a, i, temp, key);
      a[j + 1] := temp;
      Placed(sorted, x, key, j, a[..i + 1]);
    } else {
      assert a[..i + 1] == sorted + [x];
    }
  }

  /** The inner `while`: starting from `i - 1`, move every element whose key exceeds
      `key(temp)` one slot up, and stop at the first that does not (or below 0). */
  method ShiftUp<T>(a: array<T>, i: int, temp: T, key: T -> int) returns (j: int)
    requires 1 <= i < a.Length && a[i] == temp
    modifies a
    ensures -1 <= j < i && j + 1 == InsertPos(old(a[..i]), temp, key)
    ensures forall k :: 0 <= k <= j ==> a[k] == old(a[k])
    ensures forall k :: j + 2 <= k <= i ==> a[k] == old(a[k - 1])
    ensures a[i + 1..] == old(a[i + 1..])
  {
    ghost var sorted := a[..i];
    ghost var tail := a[i + 1..];
    j := i - 1;
    assert sorted[..j + 1] == sorted;
    while j >= 0 && key(a[j]) > key(temp)
      invariant -1 <= j <= i - 1
      invariant forall k :: 0 <= k <= j ==> a[k] == sorted[k]
      invariant forall k :: j + 2 <= k <= i ==> a[k] == sorted[k - 1]
      invariant a[i + 1..] == tail
      invariant InsertPos(sorted, temp, key) == InsertPos(sorted[..j + 1], temp, key)
    {
      assert sorted[..j + 1][..j] == sorted[..j];
      a[j + 1] := a[j];
      j := j - 1;
    }
  }

  /** The array after the shift and the store is the sequence `Insert` describes. */
  lemma Placed<T>(sorted: seq<T>, x: T, key: T -> int, j: int, after: seq<T>)
    requires -1 <= j < |sorted| && j + 1 == InsertPos(sorted, x, key)
    requires |after| == |sorted| + 1 && after[j + 1] == x
    requires forall k :: 0 <= k <= j ==> after[k] == sorted[k]
    requires forall k :: j + 2 <= k < |after| ==> after[k] == sorted[k - 1]
    ensures after == Insert(sorted, x, key)
  {
    InsertShape(sorted, x, key);
    var target := sorted[..j + 1] + [x] + sorted[j + 1..];
    forall k | 0 <= k < |after| ensures after[k] == target[k] {
      if k > j + 1 {
        assert target[k] == sorted[k - 1];
      }
    }
  }

  /** The C loops on the first `count` elements of `a`. A non-positive count leaves
      the array alone; the elements from `count` on are never touched. */
  method SortByKey<T>(a: array<T>, count: int, key: T -> int)
    requires count <= a.Length
    modifies a
    ensures var n := if count < 0 then 0 else count;
      a[..] == InsertionSort(old(a[..])[..n], key) + old(a[..])[n..]
  {
    ghost var orig := a[..];
    ghost var n := if count < 0 then 0 else count;
    SortedPrefixStart(orig, n, key);
    var i := 1;
    while i < count
      invariant 1 <= i && (n == 0 || i <= n)
      invariant a[..] == InsertionSort(orig[..Min(i, n)], key) + orig[Min(i, n)..]
    {
      ghost var before := a[..];
      assert Min(i, n) == i && Min(i + 1, n) == i + 1;
      InsertAt(a, i, key);
      SortedPrefixStep(orig, before, a[..], i, key);
      i := i + 1;
    }
    assert Min(i, n) == n;
  }

  lemma SortedPrefixStart<T>(orig: seq<T>, n: nat, key: T -> int)
    requires n <= |orig|
    ensures InsertionSort(orig[..Min(1, n)], key) + orig[Min(1, n)..] == orig
  {
    if n > 0 {
      InsertionSortSnoc(orig[..0], orig[0], key);
      assert orig[..0] + [orig[0]] == orig[..1];
    }
  }

  lemma SortedPrefixStep<T>(orig: seq<T>, before: seq<T>, after: seq<T>, i: nat, key: T -> int)
    requires 1 <= i < |orig| == |before| == |after|
    requires before == InsertionSort(orig[..i], key) + orig[i..]
    requires after[..i + 1] == Insert(before[..i], before[i], key)
    requires after[i + 1..] == before[i + 1..]
    ensures after == InsertionSort(orig[..i + 1], key) + orig[i + 1..]
  {
    var prefix := orig[..i];
    InsertionSortSnoc(prefix, orig[i], key);
    assert prefix + [orig[i]] == orig[..i + 1];
    InsertionSortLength(prefix, key);
    var p := InsertionSort(prefix, key);
    assert |p| == i;
    assert before[..i] == p;
    forall t | i <= t < |orig| ensures before[t] == orig[t] {
      assert before[t] == orig[i..][t - i];
    }
    var piece, want := before[i + 1..], orig[i + 1..];
    forall t | 0 <= t < |piece| ensures piece[t] == want[t] {
      assert piece[t] == before[i + 1 + t];
    }
    assert piece == want;
    assert after == after[..i + 1] + after[i + 1..];
  }

  function Min(x: int, y: int): int {
    if x <= y then x else y
  }

  lemma InsertionSortSnoc<T>(s: seq<T>, x: T, key: T -> int)
    ensures InsertionSort(s + [x], key) == Insert(InsertionSort(s, key), x, key)
  {
    assert (s + [x])[..|s|] == s;
  }
}
