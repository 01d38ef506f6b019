/** The lookup side of the texture atlas in not_yet_used/wbTexture.c: the segment
    table sorted by the hash of each segment's name, the binary search over it, and
    the four accessors built on the search. */
module Atlas {
  import opened Bytes
  import opened Wrappers
  import opened Fnv
  import opened KeyedSort
  import opened KeyedSearch
  import opened SpriteSheet
  import opened SpriteSheetLaws

  /** The sort key of `segmentSort` and the search key of `atlasGetIndex`. */
  function SegmentKey(s: Segment): int {
    s.hash
  }

  /** The hash column of a segment table. */
  function KeyColumn(segs: seq<Segment>): (r: seq<int>)
    ensures |r| == |segs| && forall k :: 0 <= k < |segs| ==> r[k] == segs[k].hash
  {
    seq(|segs|, k requires 0 <= k < |segs| => segs[k].hash)
  }

  /** segmentSort (not_yet_used/wbTexture.c:25-38): the insertion sort by hash on the
      first `count` segments; the rest of the array is left alone. */
  method SegmentSort(segments: array<Segment>, count: int)
    requires count <= segments.Length
    modifies segments
    ensures var n := if count < 0 then 0 else count;
      segments[..] == InsertionSort(old(segments[..])[..n], SegmentKey) + old(segments[..])[n..]
  {
    SortByKey(segments, count, SegmentKey);
  }

  /** What the sort promises: the table comes out ascending by hash, as a permutation
      of the input in which segments with equal hashes keep their order. */
  lemma SortedSegments(segs: seq<Segment>)
    ensures Ascending(KeyColumn(InsertionSort(segs, SegmentKey)))
    ensures multiset(InsertionSort(segs, SegmentKey)) == multiset(segs)
    ensures forall h :: WithKey(InsertionSort(segs, SegmentKey), SegmentKey, h) == WithKey(segs, SegmentKey, h)
  {
    var sorted := InsertionSort(segs, SegmentKey);
    InsertionSortSorted(segs, SegmentKey);
    InsertionSortPermutes(segs, SegmentKey);
    forall h {
      InsertionSortStable(segs, SegmentKey, h);
    }
    var c := KeyColumn(sorted);
    forall i, j | 0 <= i < j < |c| ensures c[i] <= c[j] {
      assert SegmentKey(sorted[i]) <= SegmentKey(sorted[j]);
    }
  }

  /** The `hash` field as `atlasFinalize` stores it (not_yet_used/wbTexture.c:169):
      the hash of the NUL-terminated name field. */
  predicate Hashed(s: Segment) {
    NUL in s.name && s.hash == Hash(CString(s.name))
  }

  /** On an ascending column the search misses exactly the absent keys. */
  lemma FoundIfSorted(keys: seq<int>, key: int)
    ensures Ascending(keys) ==> (IndexOf(keys, key) == -1 <==> key !in keys)
  {
    if Ascending(keys) {
      IndexOfCorrect(keys, key);
    }
  }

  /** `hashString(name)`: the hash of the name up to its terminating NUL. */
  method HashName(name: seq<u8>) returns (key: u64)
    requires NUL in name
    ensures key == Hash(CString(name))
  {
    key := HashString(name);
  }

  /** `v2i(x, y)`. */
  datatype Vec2i = Vec2i(x: int, y: int)

  /** The region fields of not_yet_used/wbTexture.c:41-57: an atlas owns an array of
      segments of which the first `segmentCount` are in use. */
  class TextureAtlas {
    var segments: array<Segment>
    var segmentCount: int

    ghost predicate Valid()
      reads this
    {
      0 <= segmentCount <= segments.Length
    }

    /** The hash of every segment in use, in table order. */
    function Keys(): (r: seq<int>)
      reads this, segments
      requires Valid()
      ensures |r| == segmentCount
      ensures forall k :: 0 <= k < segmentCount ==> r[k] == segments[k].hash
    {
      KeyColumn(segments[..segmentCount])
    }

    /** atlasGetIndex (not_yet_used/wbTexture.c:176-193): the binary search for the
        hash of `name` over the segments in use. It is the search function of the key
        column: -1 or an index whose hash is the key, and on an ascending table -1 only
        when no segment carries the key. */
    method GetIndex(name: seq<u8>) returns (r: int)
      requires Valid() && NUL in name
      ensures r == IndexOf(Keys(), Hash(CString(name)))
      ensures r == -1 || (0 <= r < segmentCount && segments[r].hash == Hash(CString(name)))
      ensures Ascending(Keys()) ==> (r == -1 <==> Hash(CString(name)) !in Keys())
    {
      var key := HashName(name);
      r := Find(key);
      FoundIfSorted(Keys(), key);
    }

    /** The loop of `atlasGetIndex` for a key already hashed. While it runs, the
        search over the window [min, max] has the same result as the search over the
        whole table. */
    method Find(key: int) returns (r: int)
      requires Valid()
      ensures r == IndexOf(Keys(), key)
    {
      ghost var keys := Keys();
      var min, max := 0, segmentCount - 1;
      while min <= max
        invariant 0 <= min <= max + 1 && max < segmentCount
        invariant Search(keys, key, min, max) == IndexOf(keys, key)
        decreases max - min
      {
        var mid := (min + max) / 2;
        var localKey := segments[mid].hash;
        Probe(keys, key, min, max);
        if localKey == key {
          return mid;
        } else if localKey < key {
          min := mid + 1;
        } else {
          max := mid - 1;
        }
      }
      return -1;
    }

    /** atlasGetSegment (not_yet_used/wbTexture.c:195-203): `segments + index`, or
        NULL when the search misses. */
    function GetSegment(name: seq<u8>): (r: Option<nat>)
      reads this, segments
      requires Valid() && NUL in name
      ensures r.Some? ==> r.value < segmentCount && segments[r.value].hash == Hash(CString(name))
      ensures Hash(CString(name)) !in Keys() ==> r.None?
      ensures Ascending(Keys()) && Hash(CString(name)) in Keys() ==> r.Some?
    {
      var index := IndexOf(Keys(), Hash(CString(name)));
      FoundIfSorted(Keys(), Hash(CString(name)));
      if index == -1 then None else Some(index)
    }

    /** atlasGetSize (not_yet_used/wbTexture.c:205-214): the width and height of the
        found segment, or (-1, -1). */
    function GetSize(name: seq<u8>): (r: Vec2i)
      reads this, segments
      requires Valid() && NUL in name
      ensures r == Vec2i(-1, -1)
           || exists k :: 0 <= k < segmentCount && segments[k].hash == Hash(CString(name))
                          && r == Vec2i(segments[k].region.w, segments[k].region.h)
      ensures Hash(CString(name)) !in Keys() ==> r == Vec2i(-1, -1)
      ensures Ascending(Keys()) && Hash(CString(name)) in Keys() ==>
        exists k :: 0 <= k < segmentCount && segments[k].hash == Hash(CString(name))
                    && r == Vec2i(segments[k].region.w, segments[k].region.h)
    {
      match GetSegment(name)
      case None => Vec2i(-1, -1)
      case Some(k) => Vec2i(segments[k].region.w, segments[k].region.h)
    }

    /** atlasGetXY (not_yet_used/wbTexture.c:216-225): the position of the found
        segment in the atlas texture, or (-1, -1). */
    function GetXY(name: seq<u8>): (r: Vec2i)
      reads this, segments
      requires Valid() && NUL in name
      ensures r == Vec2i(-1, -1)
           || exists k :: 0 <= k < segmentCount && segments[k].hash == Hash(CString(name))
                          && r == Vec2i(segments[k].region.x, segments[k].region.y)
      ensures Hash(CString(name)) !in Keys() ==> r == Vec2i(-1, -1)
      ensures Ascending(Keys()) && Hash(CString(name)) in Keys() ==>
        exists k :: 0 <= k < segmentCount && segments[k].hash == Hash(CString(name))
                    && r == Vec2i(segments[k].region.x, segments[k].region.y)
    {
      match GetSegment(name)
      case None => Vec2i(-1, -1)
      case Some(k) => Vec2i(segments[k].region.x, segments[k].region.y)
    }

    /** atlasGet (not_yet_used/wbTexture.c:227-235): the region of the found segment,
        or the empty region at (-1, -1). */
    function Get(name: seq<u8>): (r: Rect)
      reads this, segments
      requires Valid() && NUL in name
      ensures r == Rect(-1, -1, 0, 0)
           || exists k :: 0 <= k < segmentCount && segments[k].hash == Hash(CString(name))
                          && r == segments[k].region
      ensures Hash(CString(name)) !in Keys() ==> r == Rect(-1, -1, 0, 0)
      ensures Ascending(Keys()) && Hash(CString(name)) in Keys() ==>
        exists k :: 0 <= k < segmentCount && segments[k].hash == Hash(CString(name))
                    && r == segments[k].region
    {
      match GetSegment(name)
      case None => Rect(-1, -1, 0, 0)
      case Some(k) => segments[k].region
    }
  }

  /** Segment `k` is the only one in `segs` that carries its hash. */
  predicate Alone(segs: seq<Segment>, k: int)
    requires 0 <= k < |segs|
  {
    forall j :: 0 <= j < |segs| && j != k ==> segs[j].hash != segs[k].hash
  }

  /** On a sorted table, the search for the name stored in segment `k` finds
      segment `k` when that segment carries the hash of its name and no other
      segment shares it. */
  lemma LookupStoredName(segs: seq<Segment>, k: int)
    requires Ascending(KeyColumn(segs)) && 0 <= k < |segs|
    requires Hashed(segs[k]) && Alone(segs, k)
    ensures IndexOf(KeyColumn(segs), Hash(CString(segs[k].name))) == k
  {
    var keys := KeyColumn(segs);
    forall j | 0 <= j < |keys| && j != k ensures keys[j] != keys[k] {
      assert segs[j].hash != segs[k].hash;
    }
    IndexOfUnique(keys, Hash(CString(segs[k].name)), k);
  }

  /** The parser keeps only the first 15 bytes of a name (the 16-byte name field), so
      a segment parsed from `raw` is found under those 15 bytes: a longer name given
      in full is hashed whole. */
  lemma LookupParsedName(segs: seq<Segment>, k: int, raw: seq<u8>)
    requires Ascending(KeyColumn(segs)) && 0 <= k < |segs|
    requires Hashed(segs[k]) && Alone(segs, k)
    requires segs[k].name == NameField(raw) && NUL !in raw
    ensures var stored := raw[..if |raw| < 15 then |raw| else 15];
      IndexOf(KeyColumn(segs), Hash(CString(stored + [NUL]))) == k
  {
    var stored := raw[..if |raw| < 15 then |raw| else 15];
    NameFieldString(raw);
    StrLenOfTerminated(stored, []);
    assert (stored + [NUL])[..|stored|] == stored;
    LookupStoredName(segs, k);
  }

  /** What `atlasFinalize` hands to the search (not_yet_used/wbTexture.c:169,173):
      once segment `k` carries the hash of its name and the table is sorted, the
      lookup of that name finds the same segment at its new place, provided no other
      segment shares its hash. */
  lemma SortedTableFindsNames(table: seq<Segment>, k: int) returns (j: int)
    requires 0 <= k < |table| && Hashed(table[k]) && Alone(table, k)
    ensures var sorted := InsertionSort(table, SegmentKey);
      0 <= j < |sorted| && sorted[j] == table[k]
      && IndexOf(KeyColumn(sorted), Hash(CString(table[k].name))) == j
  {
    var sorted := InsertionSort(table, SegmentKey);
    var h := table[k].hash;
    SortedSegments(table);
    WithKeyUnique(table, SegmentKey, k);
    assert WithKey(sorted, SegmentKey, h) == [table[k]];
    j := WithKeyOne(sorted, SegmentKey, h, table[k]);
    LookupStoredName(sorted, j);
  }
}
