/** The binary search shared by `wSarGetFileIndexByHash` (src/wpl/wplArchive.c:26-43,
    repeated in src/sartool/sar.c:102-119) and `atlasGetIndex`
    (not_yet_used/wbTexture.c:176-193), written as a function of the key column it
    reads. The two loops are proved equal to it where they are modelled. */
module KeyedSearch {

  ghost predicate Ascending(keys: seq<int>) {
    forall i, j :: 0 <= i < j < |keys| ==> keys[i] <= keys[j]
  }

  /** The key occurs among entries lo..hi. */
  ghost predicate InWindow(keys: seq<int>, key: int, lo: int, hi: int) {
    exists i :: lo <= i <= hi && 0 <= i < |keys| && keys[i] == key
  }

  /** One run of `while (min <= max)`: probe the midpoint, return it on a hit,
      otherwise keep the half that can still hold the key. The window `max - min`
      shrinks on every probe. The result is -1 or an index whose key matches;
      no ordering is needed for that. */
  function Search(keys: seq<int>, key: int, lo: int, hi: int): (r: int)
    requires 0 <= lo && hi < |keys|
    ensures r == -1 || (lo <= r <= hi && keys[r] == key)
    decreases hi - lo + 1
  {
    if lo > hi then -1
    else
      var mid := (lo + hi) / 2;
      if keys[mid] == key then mid
      else if keys[mid] < key then Search(keys, key, mid + 1, hi)
      else Search(keys, key, lo, mid - 1)
  }

  /** The search over a whole table of `|keys|` entries (`max` starts at count - 1,
      so an empty table gives -1 at once). */
  function IndexOf(keys: seq<int>, key: int): (r: int)
    ensures r == -1 || (0 <= r < |keys| && keys[r] == key)
  {
    Search(keys, key, 0, |keys| - 1)
  }

  /** On an ascending table the search misses only keys that are absent from the window. */
  lemma {:induction false} SearchComplete(keys: seq<int>, key: int, lo: int, hi: int)
    requires 0 <= lo && hi < |keys|
    requires Ascending(keys)
    requires InWindow(keys, key, lo, hi)
    ensures Search(keys, key, lo, hi) != -1
    decreases hi - lo + 1
  {
    var i :| lo <= i <= hi && 0 <= i < |keys| && keys[i] == key;
    var mid := (lo + hi) / 2;
    if keys[mid] < key {
      assert mid < i;
      SearchComplete(keys, key, mid + 1, hi);
    } else if keys[mid] > key {
      assert i < mid;
      SearchComplete(keys, key, lo, mid - 1);
    }
  }

  /** On an ascending table: -1 exactly when no entry has the key, and otherwise an
      index of an entry that has it. */
  lemma IndexOfCorrect(keys: seq<int>, key: int)
    requires Ascending(keys)
    ensures IndexOf(keys, key) == -1 <==> key !in keys
    ensures key in keys ==> 0 <= IndexOf(keys, key) < |keys| && keys[IndexOf(keys, key)] == key
  {
    if key in keys {
      var i :| 0 <= i < |keys| && keys[i] == key;
      assert InWindow(keys, key, 0, |keys| - 1);
      SearchComplete(keys, key, 0, |keys| - 1);
    }
  }

  /** When only one entry carries the key, the search finds exactly that entry. */
  lemma IndexOfUnique(keys: seq<int>, key: int, i: int)
    requires Ascending(keys)
    requires 0 <= i < |keys| && keys[i] == key
    requires forall j :: 0 <= j < |keys| && j != i ==> keys[j] != key
    ensures IndexOf(keys, key) == i
  {
    IndexOfCorrect(keys, key);
  }

  /** A probe below the key drops the lower half of the window and keeps the key in it. */
  lemma KeyAbove(keys: seq<int>, key: int, lo: int, mid: int, hi: int)
    requires 0 <= lo <= mid <= hi < |keys| && keys[mid] < key
    requires Ascending(keys) && InWindow(keys, key, lo, hi)
    ensures InWindow(keys, key, mid + 1, hi)
  {
    var j :| lo <= j <= hi && 0 <= j < |keys| && keys[j] == key;
    assert mid < j;
  }

  /** A probe above the key drops the upper half of the window and keeps the key in it. */
  lemma KeyBelow(keys: seq<int>, key: int, lo: int, mid: int, hi: int)
    requires 0 <= lo <= mid <= hi < |keys| && keys[mid] > key
    requires Ascending(keys) && InWindow(keys, key, lo, hi)
    ensures InWindow(keys, key, lo, mid - 1)
  {
    var j :| lo <= j <= hi && 0 <= j < |keys| && keys[j] == key;
    assert j < mid;
  }

  /** At the start the window is the whole table. */
  lemma WholeWindow(keys: seq<int>, key: int)
    requires key in keys
    ensures InWindow(keys, key, 0, |keys| - 1)
  {
    var j :| 0 <= j < |keys| && keys[j] == key;
  }

  /** One probe of the search, as the loop takes it. */
  lemma Probe(keys: seq<int>, key: int, lo: int, hi: int)
    requires 0 <= lo <= hi < |keys|
    ensures var mid := (lo + hi) / 2;
      Search(keys, key, lo, hi)
        == if keys[mid] == key then mid
           else if keys[mid] < key then Search(keys, key, mid + 1, hi)
           else Search(keys, key, lo, mid - 1)
  {
  }
}
