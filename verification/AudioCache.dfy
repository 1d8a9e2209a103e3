/** The decoded-audio cache: two indexes over the same entries that together refine a list
    ordered from least to most recently used. */
module AudioCaches {
  import opened Wrappers

  /** One line of the abstract cache. */
  datatype Item<U, T> = Item(url: U, audio: T, size: nat)

  datatype Entry<T> = Entry(audio: T, sizeBytes: nat, accessOrder: nat)

  // --------------------------------------------------------------- specification

  function Total<U, T>(list: seq<Item<U, T>>): nat {
    if list == [] then 0 else list[0].size + Total(list[1..])
  }

  function RemoveAt<X>(s: seq<X>, i: nat): (r: seq<X>)
    requires i < |s|
    ensures |r| == |s| - 1
  {
    s[..i] + s[i + 1..]
  }

  /** The position of `url`, or the length of the list. */
  function Find<U(==), T>(list: seq<Item<U, T>>, url: U): (i: nat)
    ensures i <= |list|
    ensures i < |list| ==> list[i].url == url
    ensures forall j :: 0 <= j < i ==> list[j].url != url
  {
    if list == [] || list[0].url == url then 0 else 1 + Find(list[1..], url)
  }

  function Removed<U(==), T>(list: seq<Item<U, T>>, url: U): seq<Item<U, T>> {
    var i := Find(list, url);
    if i < |list| then RemoveAt(list, i) else list
  }

  /** A hit moves the item to the recent end. */
  function Touched<U(==), T>(list: seq<Item<U, T>>, url: U): seq<Item<U, T>> {
    var i := Find(list, url);
    if i < |list| then RemoveAt(list, i) + [list[i]] else list
  }

  /** The list once least recent items have been dropped until `size` more bytes fit. */
  function MakeRoom<U, T>(list: seq<Item<U, T>>, size: nat, max: nat): seq<Item<U, T>> {
    if list != [] && Total(list) + size > max then MakeRoom(list[1..], size, max) else list
  }

  /** An oversized item leaves the cache alone, an old entry for its URL included. Any other
      item makes room while such an old entry still counts, and only then replaces it. */
  function Inserted<U(==), T>(list: seq<Item<U, T>>, item: Item<U, T>, max: nat): seq<Item<U, T>> {
    if item.size > max then list
    else Removed(MakeRoom(list, item.size, max), item.url) + [item]
  }

  ghost predicate DistinctUrls<U, T>(list: seq<Item<U, T>>) {
    forall i, j :: 0 <= i < j < |list| ==> list[i].url != list[j].url
  }

  /** Eviction drops the shortest prefix that makes room: `k` items go, the rest fits, and
      with one item fewer gone it would not have. */
  lemma {:induction false} MakeRoomIsShortest<U, T>(list: seq<Item<U, T>>, size: nat, max: nat) returns (k: nat)
    requires size <= max
    ensures k <= |list| && MakeRoom(list, size, max) == list[k..]
    ensures Total(list[k..]) + size <= max
    ensures forall j :: 0 <= j < k ==> Total(list[j..]) + size > max
  {
    if list != [] && Total(list) + size > max {
      k := MakeRoomIsShortest(list[1..], size, max);
      assert list[1..][k..] == list[k + 1..];
      forall j | 0 <= j < k + 1 ensures Total(list[j..]) + size > max {
        if j == 0 {
          assert list[0..] == list;
        } else {
          assert list[1..][j - 1..] == list[j..];
        }
      }
      k := k + 1;
    } else {
      k := 0;
      assert list[0..] == list;
    }
  }

  lemma {:induction false} TotalAppend<U, T>(a: seq<Item<U, T>>, b: seq<Item<U, T>>)
    ensures Total(a + b) == Total(a) + Total(b)
  {
    if a == [] {
      assert a + b == b;
    } else {
      TotalAppend(a[1..], b);
      assert (a + b)[1..] == a[1..] + b;
    }
  }

  lemma TotalRemoveAt<U, T>(list: seq<Item<U, T>>, i: nat)
    requires i < |list|
    ensures Total(RemoveAt(list, i)) + list[i].size == Total(list)
  {
    var a, b := list[..i], list[i..];
    assert list == a + b && RemoveAt(list, i) == a + b[1..];
    TotalAppend(a, b);
    TotalAppend(a, b[1..]);
  }

  /** The total is the sum of the sizes. */
  lemma TotalSum<U, T>(list: seq<Item<U, T>>, item: Item<U, T>)
    ensures Total<U, T>([]) == 0 && Total(list + [item]) == Total(list) + item.size
  {
    TotalAppend(list, [item]);
    assert Total([item]) == item.size + Total<U, T>([item][1..]);
  }

  /** A hit takes the item out of its place and puts it behind all others, which keep theirs; a
      miss changes nothing. */
  lemma TouchedIsRecent<U, T>(list: seq<Item<U, T>>, url: U)
    requires DistinctUrls(list)
    ensures forall i :: 0 <= i < |list| && list[i].url == url ==>
              Touched(list, url) == list[..i] + list[i + 1..] + [list[i]]
    ensures (forall i :: 0 <= i < |list| ==> list[i].url != url) ==> Touched(list, url) == list
  {
    var f := Find(list, url);
    assert forall i :: 0 <= i < |list| && list[i].url == url ==> i == f;
  }

  /** Removing takes out the one item with this URL. */
  lemma RemovedIsOthers<U, T>(list: seq<Item<U, T>>, url: U)
    requires DistinctUrls(list)
    ensures forall i :: 0 <= i < |list| && list[i].url == url ==> Removed(list, url) == list[..i] + list[i + 1..]
    ensures (forall i :: 0 <= i < |list| ==> list[i].url != url) ==> Removed(list, url) == list
  {
    var f := Find(list, url);
    assert forall i :: 0 <= i < |list| && list[i].url == url ==> i == f;
  }

  /** An item larger than the whole cache changes nothing, and one that fits ends up in it. */
  lemma OversizedIgnored<U, T>(list: seq<Item<U, T>>, item: Item<U, T>, max: nat)
    ensures item.size > max ==> Inserted(list, item, max) == list
    ensures item.size <= max ==> item in Inserted(list, item, max)
  {
  }

  /** After an insert that fits, the new item is the most recent, no URL repeats, the limit
      holds, and every other item kept its place in the recency order. */
  lemma InsertedFits<U, T>(list: seq<Item<U, T>>, item: Item<U, T>, max: nat)
    requires DistinctUrls(list) && item.size <= max
    ensures var r := Inserted(list, item, max);
            DistinctUrls(r) && Total(r) <= max && r[|r| - 1] == item
    ensures exists k :: 0 <= k <= |list| && Inserted(list, item, max) == Removed(list[k..], item.url) + [item]
                        && forall j :: 0 <= j < k ==> Total(list[j..]) + item.size > max
  {
    var k := MakeRoomIsShortest(list, item.size, max);
    RemovedShrinks(list[k..], item.url);
    TotalAppend(Removed(list[k..], item.url), [item]);
  }

  lemma RemovedShrinks<U, T>(list: seq<Item<U, T>>, url: U)
    requires DistinctUrls(list)
    ensures Total(Removed(list, url)) <= Total(list) && DistinctUrls(Removed(list, url))
    ensures forall i :: 0 <= i < |Removed(list, url)| ==> Removed(list, url)[i].url != url
  {
    var i := Find(list, url);
    if i < |list| {
      TotalRemoveAt(list, i);
    }
  }

  /** The old entry counts against the room it is about to free: replacing an item by one of
      the same size can evict an unrelated one although the cache would not grow. */
  lemma ReplacementEvicts<U, T>(u: U, v: U, a: T, b: T, c: T)
    requires u != v
    ensures Inserted([Item(u, a, 1), Item(v, b, 1)], Item(v, c, 1), 2) == [Item(v, c, 1)]
  {
    var list := [Item(u, a, 1), Item(v, b, 1)];
    assert list[1..] == [Item(v, b, 1)] && list[1..][1..] == [];
    assert Total(list[1..]) == 1;
    assert Total(list) == 2;
    assert MakeRoom(list[1..], 1, 2) == list[1..];
    assert Removed(list[1..], v) == [];
  }

  /** Replacing or adding an item costs no unrelated entry exactly when nothing has to be
      evicted, or when the least recent entry is the one being replaced and dropping it alone
      makes room. */
  lemma InsertSparesOthers<U, T>(list: seq<Item<U, T>>, item: Item<U, T>, max: nat)
    requires DistinctUrls(list) && item.size <= max
    ensures (forall i :: 0 <= i < |list| && list[i].url != item.url ==> list[i] in Inserted(list, item, max))
       <==> (list == [] || Total(list) + item.size <= max
             || (list[0].url == item.url && Total(list[1..]) + item.size <= max))
  {
    var k := MakeRoomIsShortest(list, item.size, max);
    var r := Inserted(list, item, max);
    assert list[0..] == list;
    forall i | k <= i < |list| && list[i].url != item.url ensures list[i] in r {
      KeptUnlessNamed(list, k, i, item.url);
    }
    forall i | 0 <= i < k && list[i].url != item.url ensures list[i] !in r {
      GoneBefore(list, k, i, item.url);
    }
    if list != [] && Total(list) + item.size > max {
      assert k >= 1;
    } else {
      assert k == 0;
    }
  }

  lemma KeptUnlessNamed<U, T>(list: seq<Item<U, T>>, k: nat, i: nat, url: U)
    requires DistinctUrls(list) && k <= i < |list| && list[i].url != url
    ensures list[i] in Removed(list[k..], url)
  {
    var rest := list[k..];
    var f := Find(rest, url);
    assert rest[i - k] == list[i];
    if f < |rest| {
      assert RemoveAt(rest, f)[if i - k < f then i - k else i - k - 1] == list[i];
    }
  }

  lemma GoneBefore<U, T>(list: seq<Item<U, T>>, k: nat, i: nat, url: U)
    requires DistinctUrls(list) && i < k <= |list|
    ensures list[i] !in Removed(list[k..], url)
  {
    assert forall x :: x in Removed(list[k..], url) ==> x in list[k..];
    assert forall j :: 0 <= j < |list[k..]| ==> list[k..][j] == list[k + j];
  }

  // -------------------------------------------------------------- representation

  ghost predicate Increasing(stamps: seq<nat>) {
    forall i, j :: 0 <= i < j < |stamps| ==> stamps[i] < stamps[j]
  }

  /** The URL index and the recency index are inverse to each other. */
  ghost predicate Inverse<U, T>(entries: map<U, Entry<T>>, orderIndex: map<nat, U>) {
    && (forall u :: u in entries ==> entries[u].accessOrder in orderIndex && orderIndex[entries[u].accessOrder] == u)
    && (forall s :: s in orderIndex ==> orderIndex[s] in entries && entries[orderIndex[s]].accessOrder == s)
  }

  /** Reading the indexes in stamp order yields exactly `list`. */
  ghost predicate Represents<U, T>(entries: map<U, Entry<T>>, orderIndex: map<nat, U>, list: seq<Item<U, T>>,
      stamps: seq<nat>) {
    && Inverse(entries, orderIndex) && Increasing(stamps) && |list| == |stamps|
    && (forall s :: s in orderIndex <==> s in stamps)
    && (forall i :: 0 <= i < |list| ==> Reads(entries, orderIndex, list[i], stamps[i]))
  }

  ghost predicate Reads<U, T>(entries: map<U, Entry<T>>, orderIndex: map<nat, U>, item: Item<U, T>, stamp: nat) {
    && stamp in orderIndex && orderIndex[stamp] == item.url
    && item.url in entries && entries[item.url] == Entry(item.audio, item.size, stamp)
  }

  lemma UrlsAreDistinct<U, T>(entries: map<U, Entry<T>>, orderIndex: map<nat, U>, list: seq<Item<U, T>>,
      stamps: seq<nat>)
    requires Represents(entries, orderIndex, list, stamps)
    ensures DistinctUrls(list)
  {
    forall i, j | 0 <= i < j < |list| ensures list[i].url != list[j].url {
      assert Reads(entries, orderIndex, list[i], stamps[i]) && Reads(entries, orderIndex, list[j], stamps[j]);
    }
  }

  lemma FoundAt<U, T>(entries: map<U, Entry<T>>, orderIndex: map<nat, U>, list: seq<Item<U, T>>, stamps: seq<nat>,
      url: U)
    requires Represents(entries, orderIndex, list, stamps)
    ensures url in entries <==> Find(list, url) < |list|
    ensures url in entries ==> Reads(entries, orderIndex, list[Find(list, url)], stamps[Find(list, url)])
  {
    var i := Find(list, url);
    if url in entries {
      var k :| 0 <= k < |stamps| && stamps[k] == entries[url].accessOrder;
      assert Reads(entries, orderIndex, list[k], stamps[k]);
    }
    if i < |list| {
      assert Reads(entries, orderIndex, list[i], stamps[i]);
    }
  }

  lemma RemoveAtKeeps<X>(s: seq<X>, i: nat, x: X)
    requires i < |s| && forall j, k :: 0 <= j < k < |s| ==> s[j] != s[k]
    ensures x in RemoveAt(s, i) <==> x in s && x != s[i]
  {
    if x in s && x != s[i] {
      var k :| 0 <= k < |s| && s[k] == x;
      assert RemoveAt(s, i)[if k < i then k else k - 1] == x;
    }
  }

  lemma InverseRemove<U, T>(entries: map<U, Entry<T>>, orderIndex: map<nat, U>, url: U, stamp: nat)
    requires Inverse(entries, orderIndex) && url in entries && entries[url].accessOrder == stamp
    ensures Inverse(entries - {url}, orderIndex - {stamp})
  {
  }

  lemma IncreasingRemove(stamps: seq<nat>, i: nat)
    requires Increasing(stamps) && i < |stamps|
    ensures Increasing(RemoveAt(stamps, i))
    ensures forall s :: s in RemoveAt(stamps, i) <==> s in stamps && s != stamps[i]
  {
    forall s ensures s in RemoveAt(stamps, i) <==> s in stamps && s != stamps[i] {
      RemoveAtKeeps(stamps, i, s);
    }
  }

  lemma ReadsAt<U, T>(entries: map<U, Entry<T>>, orderIndex: map<nat, U>, list: seq<Item<U, T>>, stamps: seq<nat>,
      i: nat)
    requires Represents(entries, orderIndex, list, stamps) && i < |list|
    ensures i < |stamps| && Reads(entries, orderIndex, list[i], stamps[i])
    ensures forall j :: 0 <= j < |list| && j != i ==>
              Reads(entries - {list[i].url}, orderIndex - {stamps[i]}, list[j], stamps[j])
  {
    forall j | 0 <= j < |list| && j != i
      ensures Reads(entries - {list[i].url}, orderIndex - {stamps[i]}, list[j], stamps[j])
    {
      assert Reads(entries, orderIndex, list[i], stamps[i]) && Reads(entries, orderIndex, list[j], stamps[j]);
    }
  }

  lemma RepresentsRemove<U, T>(entries: map<U, Entry<T>>, orderIndex: map<nat, U>, list: seq<Item<U, T>>,
      stamps: seq<nat>, i: nat)
    requires Represents(entries, orderIndex, list, stamps) && i < |list|
    ensures Represents(entries - {list[i].url}, orderIndex - {stamps[i]}, RemoveAt(list, i), RemoveAt(stamps, i))
  {
    hide Inverse, Increasing, Reads;
    ReadsAt(entries, orderIndex, list, stamps, i);
    InverseRemove(entries, orderIndex, list[i].url, stamps[i]) by {
      ReadsGives(entries, orderIndex, list[i], stamps[i]);
    }
    IncreasingRemove(stamps, i);
  }

  lemma ReadsGives<U, T>(entries: map<U, Entry<T>>, orderIndex: map<nat, U>, item: Item<U, T>, stamp: nat)
    requires Reads(entries, orderIndex, item, stamp)
    ensures item.url in entries && entries[item.url].accessOrder == stamp && entries[item.url].sizeBytes == item.size
  {
  }

  lemma RepresentsAppend<U, T>(entries: map<U, Entry<T>>, orderIndex: map<nat, U>, list: seq<Item<U, T>>,
      stamps: seq<nat>, item: Item<U, T>, stamp: nat)
    requires Represents(entries, orderIndex, list, stamps) && item.url !in entries
    requires forall s :: s in stamps ==> s < stamp
    ensures Represents(entries[item.url := Entry(item.audio, item.size, stamp)], orderIndex[stamp := item.url],
            list + [item], stamps + [stamp])
  {
    assert forall i :: 0 <= i < |stamps| ==> stamps[i] in stamps;
    forall k | 0 <= k < |list|
      ensures Reads(entries[item.url := Entry(item.audio, item.size, stamp)], orderIndex[stamp := item.url], list[k],
              stamps[k])
    {
      assert Reads(entries, orderIndex, list[k], stamps[k]);
    }
  }

  lemma EmptyTogether<U, T>(entries: map<U, Entry<T>>, orderIndex: map<nat, U>, list: seq<Item<U, T>>, stamps: seq<nat>)
    requires Represents(entries, orderIndex, list, stamps)
    ensures |orderIndex| == 0 <==> list == []
  {
    if list != [] {
      assert stamps[0] in orderIndex;
    } else {
      assert orderIndex.Keys == {};
    }
  }

  function SaturatingSub(a: nat, b: nat): nat { if a >= b then a - b else 0 }

  class AudioCache<U(==), T> {
    const maxSize: nat
    var entries: map<U, Entry<T>>
    var orderIndex: map<nat, U>
    var currentSize: nat
    var accessCounter: nat
    ghost var list: seq<Item<U, T>>
    ghost var stamps: seq<nat>

    ghost predicate Valid()
      reads this
    {
      && Represents(entries, orderIndex, list, stamps)
      && (forall s :: s in stamps ==> s <= accessCounter)
      && currentSize == Total(list) <= maxSize
    }

    constructor (maxSize: nat)
      ensures Valid() && list == [] && this.maxSize == maxSize
    {
      this.maxSize := maxSize;
      entries, orderIndex, currentSize, accessCounter := map[], map[], 0, 0;
      list, stamps := [], [];
    }

    /** Drop the entry at position `i` of the recency list from both indexes. The size
        subtraction saturates in the engine; it is exact here. */
    method Drop(url: U, ghost i: nat)
      requires Valid() && i < |list| && list[i].url == url && url in entries
      modifies this
      ensures Valid() && list == RemoveAt(old(list), i) && accessCounter == old(accessCounter)
      ensures currentSize + old(list)[i].size == old(currentSize) && url !in entries
    {
      hide Represents, Reads, Total;
      var entry := entries[url];
      ReadsAt(entries, orderIndex, list, stamps, i);
      ReadsGives(entries, orderIndex, list[i], stamps[i]);
      RepresentsRemove(entries, orderIndex, list, stamps, i);
      TotalRemoveAt(list, i);
      assert forall s :: s in RemoveAt(stamps, i) ==> s in stamps;
      entries := entries - {url};
      currentSize := SaturatingSub(currentSize, entry.sizeBytes);
      orderIndex := orderIndex - {entry.accessOrder};
      list, stamps := RemoveAt(list, i), RemoveAt(stamps, i);
    }

    /** Record `url` as the most recent entry. */
    method Append(url: U, audio: T, sizeBytes: nat)
      requires Valid() && url !in entries && currentSize + sizeBytes <= maxSize
      modifies this
      ensures Valid() && list == old(list) + [Item(url, audio, sizeBytes)] && accessCounter == old(accessCounter) + 1
    {
      hide Represents;
      accessCounter := accessCounter + 1;
      RepresentsAppend(entries, orderIndex, list, stamps, Item(url, audio, sizeBytes), accessCounter);
      TotalAppend(list, [Item(url, audio, sizeBytes)]);
      entries := entries[url := Entry(audio, sizeBytes, accessCounter)];
      orderIndex := orderIndex[accessCounter := url];
      currentSize := currentSize + sizeBytes;
      list, stamps := list + [Item(url, audio, sizeBytes)], stamps + [accessCounter];
    }

    method Get(url: U) returns (r: Option<T>)
      requires Valid()
      modifies this
      ensures Valid() && list == Touched(old(list), url)
      ensures var i := Find(old(list), url);
              r == if i < |old(list)| then Some(old(list)[i].audio) else None
    {
      FoundAt(entries, orderIndex, list, stamps, url);
      if url in entries {
        ghost var i := Find(list, url);
        var entry := entries[url];
        Drop(url, i);
        Append(url, entry.audio, entry.sizeBytes);
        r := Some(entry.audio);
      } else {
        r := None;
      }
    }

    /** Evict the entry with the smallest stamp, if there is one. */
    method EvictLru()
      requires Valid()
      modifies this
      ensures Valid() && accessCounter == old(accessCounter)
      ensures list == if old(list) == [] then [] else old(list)[1..]
    {
      EmptyTogether(entries, orderIndex, list, stamps);
      if |orderIndex| != 0 {
        assert Reads(entries, orderIndex, list[0], stamps[0]) && forall s :: s in orderIndex ==> stamps[0] <= s;
        var order :| order in orderIndex && forall s :: s in orderIndex ==> order <= s;
        var url := orderIndex[order];
        assert RemoveAt(list, 0) == list[1..];
        Drop(url, 0);
      }
    }

    method Insert(url: U, audio: T, sizeBytes: nat) returns (r: T)
      requires Valid()
      modifies this
      ensures Valid() && list == Inserted(old(list), Item(url, audio, sizeBytes), maxSize) && r == audio
    {
      r := audio;
      if sizeBytes > maxSize {
        return;
      }
      while currentSize + sizeBytes > maxSize && |entries| != 0
        invariant Valid()
        invariant MakeRoom(list, sizeBytes, maxSize) == MakeRoom(old(list), sizeBytes, maxSize)
        decreases |list|
      {
        EvictLru();
      }
      FoundAt(entries, orderIndex, list, stamps, url);
      if url in entries {
        Drop(url, Find(list, url));
      }
      Append(url, audio, sizeBytes);
    }

    method Remove(url: U)
      requires Valid()
      modifies this
      ensures Valid() && list == Removed(old(list), url)
    {
      FoundAt(entries, orderIndex, list, stamps, url);
      if url in entries {
        Drop(url, Find(list, url));
      }
    }

    method Clear()
      requires Valid()
      modifies this
      ensures Valid() && list == [] && currentSize == 0 && accessCounter == 0
    {
      entries, orderIndex, currentSize, accessCounter := map[], map[], 0, 0;
      list, stamps := [], [];
    }
  }
}
