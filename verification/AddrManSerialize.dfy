/** The loops of `Serialize` and `Unserialize` (src/addrman.h) on the objects. */
module AddrManSerialize {
  import opened AddrManState
  import opened AddrMan
  import opened AddrManFile

  /** The loop that writes the new entries and numbers them. */
  method WriteNews(a: CAddrMan) returns (news: seq<Saved>, mapUnkIds: map<int, int>)
    requires a.nIdCount >= 0
    ensures forall i :: 0 <= i < |NewList(a.mapInfo, a.nIdCount)| ==> NewList(a.mapInfo, a.nIdCount)[i] in a.mapInfo
    ensures news == SaveAll(a.mapInfo, NewList(a.mapInfo, a.nIdCount))
    ensures forall id :: id in a.mapInfo && 0 <= id < a.nIdCount ==> id in mapUnkIds && mapUnkIds[id] == Rank(a.mapInfo, id)
  {
    news, mapUnkIds := [], map[];
    ListsInMap(a.mapInfo, a.nIdCount);
    for id := 0 to a.nIdCount
      invariant forall i :: 0 <= i < |NewList(a.mapInfo, id)| ==> NewList(a.mapInfo, id)[i] in a.mapInfo
      invariant news == SaveAll(a.mapInfo, NewList(a.mapInfo, id))
      invariant forall k :: k in a.mapInfo && 0 <= k < id ==> k in mapUnkIds && mapUnkIds[k] == Rank(a.mapInfo, k)
    {
      ListsInMap(a.mapInfo, id + 1);
      if id in a.mapInfo {
        mapUnkIds := mapUnkIds[id := |news|];
        if a.mapInfo[id].nRefCount != 0 {
          news := news + [Save(a.mapInfo[id])];
        }
      }
    }
  }

  method WriteTrieds(a: CAddrMan) returns (trieds: seq<Saved>)
    requires a.nIdCount >= 0
    ensures forall i :: 0 <= i < |TriedList(a.mapInfo, a.nIdCount)| ==> TriedList(a.mapInfo, a.nIdCount)[i] in a.mapInfo
    ensures trieds == SaveAll(a.mapInfo, TriedList(a.mapInfo, a.nIdCount))
  {
    trieds := [];
    for id := 0 to a.nIdCount
      invariant forall i :: 0 <= i < |TriedList(a.mapInfo, id)| ==> TriedList(a.mapInfo, id)[i] in a.mapInfo
      invariant trieds == SaveAll(a.mapInfo, TriedList(a.mapInfo, id))
    {
      ListsInMap(a.mapInfo, id + 1);
      if id in a.mapInfo && a.mapInfo[id].fInTried {
        trieds := trieds + [Save(a.mapInfo[id])];
      }
    }
  }

  /** The numbers of all the entries that the new table holds. */
  ghost predicate Numbered(s: State, mapUnkIds: map<int, int>) {
    forall sl :: sl in s.vvNew ==> s.vvNew[sl] in mapUnkIds && mapUnkIds[s.vvNew[sl]] == Rank(s.mapInfo, s.vvNew[sl])
  }

  lemma NumberOf(s: State, mapUnkIds: map<int, int>, sl: Slot)
    requires Numbered(s, mapUnkIds) && sl in s.vvNew
    ensures s.vvNew[sl] in mapUnkIds && mapUnkIds[s.vvNew[sl]] == Rank(s.mapInfo, s.vvNew[sl])
  {
  }

  /** The turn of position `i`. */
  lemma BucketTurn(s: State, bucket: int, i: nat)
    requires i < BUCKET_SIZE
    ensures (bucket, i) in s.vvNew ==>
      BucketFrom(s, bucket, i) == [Rank(s.mapInfo, s.vvNew[(bucket, i)])] + BucketFrom(s, bucket, i + 1)
    ensures (bucket, i) !in s.vvNew ==> BucketFrom(s, bucket, i) == BucketFrom(s, bucket, i + 1)
  {
  }

  lemma BucketEnds(s: State, bucket: int)
    ensures BucketFrom(s, bucket, BUCKET_SIZE) == []
  {
  }

  /** One bucket of the new table. */
  method WriteBucket(a: CAddrMan, bucket: int, mapUnkIds: map<int, int>) returns (indexes: seq<int>)
    requires a.Shaped() && 0 <= bucket < NEW_BUCKET_COUNT && Numbered(a.View(), mapUnkIds)
    ensures indexes == BucketFrom(a.View(), bucket, 0)
  {
    hide TableOf, Rank, Numbered, BucketFrom;
    indexes := [];
    ghost var s := a.View();
    for i := 0 to BUCKET_SIZE
      invariant BucketFrom(s, bucket, 0) == indexes + BucketFrom(s, bucket, i)
    {
      BucketTurn(s, bucket, i);
      var id := a.NewAt(bucket, i);
      if id != -1 {
        NumberOf(s, mapUnkIds, (bucket, i));
        ghost var rest := BucketFrom(s, bucket, i + 1);
        assert indexes + ([mapUnkIds[id]] + rest) == (indexes + [mapUnkIds[id]]) + rest;
        indexes := indexes + [mapUnkIds[id]];
      }
    }
    BucketEnds(s, bucket);
  }

  /** `Serialize`; neither of its assertions fails, because the counts are right. */
  method Serialize(a: CAddrMan) returns (f: File)
    requires a.Valid()
    ensures a.nIdCount >= 0 && f == Written(a.View())
    ensures |f.news| == f.nNew && |f.trieds| == f.nTried
  {
    hide TableOf, Inv, NewList, TriedList, Rank, BucketFrom, Numbered;
    ghost var s := a.View();
    ListCounts(a.bk, s);
    TableRange(a.bk, s);
    NewHaveReferences(a.bk, s);
    var news, mapUnkIds := WriteNews(a);
    var trieds := WriteTrieds(a);
    AllNumbered(a.bk, s, mapUnkIds);
    var buckets := [];
    for bucket := 0 to NEW_BUCKET_COUNT
      invariant buckets == Written(s).buckets[..bucket]
    {
      var indexes := WriteBucket(a, bucket, mapUnkIds);
      buckets := buckets + [indexes];
    }
    f := File(1, 32, a.nKey, a.nNew, a.nTried, Flip(NEW_BUCKET_COUNT), news, trieds, buckets);
  }

  ghost predicate AllRanked(m: map<int, AddrInfo>, mapUnkIds: map<int, int>) {
    forall id :: id in m ==> id in mapUnkIds && mapUnkIds[id] == Rank(m, id)
  }

  lemma AllNumbered(bk: Buckets, s: State, mapUnkIds: map<int, int>)
    requires Consistent(bk, s) && AllRanked(s.mapInfo, mapUnkIds)
    ensures Numbered(s, mapUnkIds)
  {
    forall sl | sl in s.vvNew
      ensures s.vvNew[sl] in mapUnkIds && mapUnkIds[s.vvNew[sl]] == Rank(s.mapInfo, s.vvNew[sl])
    {
      SlotFacts(bk, s, sl);
      RankedAt(s.mapInfo, mapUnkIds, s.vvNew[sl]);
    }
  }

  lemma RankedAt(m: map<int, AddrInfo>, mapUnkIds: map<int, int>, id: int)
    requires AllRanked(m, mapUnkIds) && id in m
    ensures id in mapUnkIds && mapUnkIds[id] == Rank(m, id)
  {
  }

  // ----- reading

  /** The first loop of `Unserialize`. */
  method ReadNews(a: CAddrMan, nNew: int, news: seq<Saved>, rebucket: bool)
    requires a.Shaped() && nNew <= |news|
    modifies a, a.vvNew
    ensures nNew >= 0 ==> a.View() == LoadNews(a.bk, old(a.View()), news[..nNew], rebucket)
    ensures nNew < 0 ==> a.View() == old(a.View())
  {
    hide TableOf, LoadNew;
    ghost var s := a.View();
    var n := 0;
    while n < nNew
      invariant 0 <= n && (nNew >= 0 ==> n <= nNew) && (nNew < 0 ==> n == 0) && n <= |news|
      invariant a.View() == LoadNews(a.bk, s, news[..n], rebucket)
    {
      assert news[..n + 1][..n] == news[..n] && news[..n + 1][n] == news[n];
      ReadNew(a, news[n], n, rebucket);
      n := n + 1;
    }
  }

  method ReadNew(a: CAddrMan, e: Saved, n: nat, rebucket: bool)
    requires a.Shaped()
    modifies a, a.vvNew
    ensures a.View() == LoadNew(a.bk, old(a.View()), e, n, rebucket)
  {
    hide TableOf;
    ghost var s := a.View();
    a.mapInfo := a.mapInfo[n := Loaded(e)];
    a.mapAddr := a.mapAddr[e.address.service.ip := n];
    a.mapInfo := a.mapInfo[n := a.mapInfo[n].(nRandomPos := |a.vRandom|)];
    a.vRandom := a.vRandom + [n];
    ghost var s1 := s.(mapInfo := s.mapInfo[n := Loaded(e).(nRandomPos := |s.vRandom|)],
                       mapAddr := s.mapAddr[e.address.service.ip := n], vRandom := s.vRandom + [n]);
    assert a.View() == s1;
    if rebucket {
      hide Ref;
      var nUBucket := a.bk.fresh_(a.nKey, e.address.service, e.source);
      var nUBucketPos := a.bk.position(a.nKey, e.address.service, true, nUBucket);
      var held := a.NewAt(nUBucket, nUBucketPos);
      assert NewSlot(a.bk, s.nKey, s1.mapInfo[n], nUBucket) == (nUBucket, nUBucketPos);
      if held == -1 {
        a.RefSlot(nUBucket, nUBucketPos, n);
        assert a.View() == Ref(s1, (nUBucket, nUBucketPos), n);
      }
    }
  }

  /** One turn of the second loop; the count of tried entries is put right after it. */
  method ReadTried(a: CAddrMan, e: Saved, ghost s: State) returns (lost: bool)
    requires a.Shaped() && a.nIdCount >= 0 && a.View() == s.(nTried := a.nTried)
    modifies a, a.vvTried
    ensures a.View() == LoadTried(a.bk, s, e).(nTried := old(a.nTried)) && a.nTried == old(a.nTried)
    ensures LoadTried(a.bk, s, e).nTried == s.nTried + (if lost then 0 else 1) && a.nIdCount >= 0
  {
    hide TableOf;
    var nKBucket := a.bk.tried(a.nKey, e.address.service);
    var nKBucketPos := a.bk.position(a.nKey, e.address.service, false, nKBucket);
    var held := a.TriedAt(nKBucket, nKBucketPos);
    lost := held != -1;
    if !lost {
      var info := Loaded(e).(nRandomPos := |a.vRandom|, fInTried := true);
      a.vRandom := a.vRandom + [a.nIdCount];
      a.mapInfo := a.mapInfo[a.nIdCount := info];
      a.mapAddr := a.mapAddr[e.address.service.ip := a.nIdCount];
      Write(a.vvTried, nKBucket, nKBucketPos, a.nIdCount);
      a.nIdCount := a.nIdCount + 1;
    }
  }

  /** The second loop; what it leaves as the count is what was not lost. */
  method ReadTrieds(a: CAddrMan, trieds: seq<Saved>, ghost s: State)
    requires a.Shaped() && a.nIdCount >= 0 && a.View() == s.(nTried := |trieds|) && s.nTried == 0
    modifies a, a.vvTried
    ensures a.View() == LoadTrieds(a.bk, s, trieds) && a.nIdCount >= 0
  {
    hide TableOf, LoadTried;
    var nLost := 0;
    for n := 0 to |trieds|
      invariant a.View() == LoadTrieds(a.bk, s, trieds[..n]).(nTried := |trieds|) && a.nTried == |trieds| && a.nIdCount >= 0
      invariant LoadTrieds(a.bk, s, trieds[..n]).nTried == n - nLost
    {
      assert trieds[..n + 1][..n] == trieds[..n] && trieds[..n + 1][n] == trieds[n];
      var lost := ReadTried(a, trieds[n], LoadTrieds(a.bk, s, trieds[..n]));
      if lost {
        nLost := nLost + 1;
      }
    }
    assert trieds[..|trieds|] == trieds;
    a.nTried := a.nTried - nLost;
  }

  /** One number of bucket `bucket`, in the third loop. */
  method ReadIndex(a: CAddrMan, bucket: int, nIndex: int)
    requires a.Shaped() && 0 <= bucket < NEW_BUCKET_COUNT
    modifies a, a.vvNew
    ensures a.View() == LoadIndex(a.bk, old(a.View()), bucket, nIndex) && a.nNew == old(a.nNew)
  {
    hide TableOf;
    if 0 <= nIndex < a.nNew && nIndex in a.mapInfo {
      var nUBucketPos := a.bk.position(a.nKey, a.mapInfo[nIndex].address.service, true, bucket);
      var held := a.NewAt(bucket, nUBucketPos);
      if held == -1 && a.mapInfo[nIndex].nRefCount < NEW_BUCKETS_PER_ADDRESS {
        a.RefSlot(bucket, nUBucketPos, nIndex);
      }
    }
  }

  method ReadBucket(a: CAddrMan, bucket: int, indexes: seq<int>)
    requires a.Shaped() && 0 <= bucket < NEW_BUCKET_COUNT
    modifies a, a.vvNew
    ensures a.View() == LoadBucket(a.bk, old(a.View()), bucket, indexes)
  {
    hide TableOf, LoadIndex;
    ghost var s := a.View();
    assert indexes[0..] == indexes;
    for n := 0 to |indexes|
      invariant LoadBucket(a.bk, s, bucket, indexes) == LoadBucket(a.bk, a.View(), bucket, indexes[n..])
    {
      assert indexes[n..][0] == indexes[n] && indexes[n..][1..] == indexes[n + 1..];
      ReadIndex(a, bucket, indexes[n]);
    }
  }

  method ReadBuckets(a: CAddrMan, buckets: seq<seq<int>>)
    requires a.Shaped() && |buckets| == NEW_BUCKET_COUNT
    modifies a, a.vvNew
    ensures a.View() == LoadBuckets(a.bk, old(a.View()), buckets, 0)
  {
    hide TableOf, LoadBucket;
    ghost var s := a.View();
    for bucket := 0 to NEW_BUCKET_COUNT
      invariant LoadBuckets(a.bk, s, buckets, 0) == LoadBuckets(a.bk, a.View(), buckets, bucket)
    {
      ReadBucket(a, bucket, buckets[bucket]);
    }
  }

  // ----- `mapInfo` and `vRandom` stay in step, whatever is read

  ghost predicate Listing(s: State, limit: int) {
    && (forall n :: n in s.mapInfo ==>
          0 <= n < limit && 0 <= s.mapInfo[n].nRandomPos < |s.vRandom| && s.vRandom[s.mapInfo[n].nRandomPos] == n)
    && (forall i :: 0 <= i < |s.vRandom| ==> s.vRandom[i] in s.mapInfo && s.mapInfo[s.vRandom[i]].nRandomPos == i)
  }

  lemma ListingRef(s: State, limit: int, sl: Slot, id: int)
    requires Listing(s, limit) && id in s.mapInfo
    ensures Listing(Ref(s, sl, id), limit)
  {
  }

  lemma {:induction false} ListingNews(bk: Buckets, nKey: nat, nNew: int, news: seq<Saved>, rebucket: bool)
    ensures Listing(LoadNews(bk, Empty(nKey).(nNew := nNew), news, rebucket), |news|)
  {
    if news != [] {
      var k := |news| - 1;
      ListingNews(bk, nKey, nNew, news[..k], rebucket);
    }
  }

  lemma {:induction false} ListingTrieds(bk: Buckets, s: State, trieds: seq<Saved>)
    requires Listing(s, s.nIdCount) && s.nIdCount >= 0
    ensures var r := LoadTrieds(bk, s, trieds); Listing(r, r.nIdCount) && r.nIdCount >= 0
  {
    if trieds != [] {
      ListingTrieds(bk, s, trieds[..|trieds| - 1]);
    }
  }

  lemma {:induction false} ListingBucket(bk: Buckets, s: State, b: int, indexes: seq<int>)
    requires Listing(s, s.nIdCount)
    ensures var r := LoadBucket(bk, s, b, indexes); Listing(r, r.nIdCount) && r.nIdCount == s.nIdCount
    decreases |indexes|
  {
    if indexes != [] {
      var s1 := LoadIndex(bk, s, b, indexes[0]);
      if s1 != s {
        ListingRef(s, s.nIdCount, NewSlot(bk, s.nKey, s.mapInfo[indexes[0]], b), indexes[0]);
      }
      ListingBucket(bk, s1, b, indexes[1..]);
    }
  }

  lemma {:induction false} ListingBuckets(bk: Buckets, s: State, buckets: seq<seq<int>>, b: nat)
    requires Listing(s, s.nIdCount) && b <= |buckets|
    ensures var r := LoadBuckets(bk, s, buckets, b); Listing(r, r.nIdCount) && r.nIdCount == s.nIdCount
    decreases |buckets| - b
  {
    if b < |buckets| {
      ListingBucket(bk, s, b, buckets[b]);
      ListingBuckets(bk, LoadBucket(bk, s, b, buckets[b]), buckets, b + 1);
    }
  }

  /** An entry may be deleted, and the two stay in step. */
  lemma ListingDelete(s: State, limit: int, id: int)
    requires Listing(s, limit) && id in s.mapInfo
    ensures CanDelete(s, id) && Listing(Delete(s, id), limit)
  {
    hide SwapRandom, DropLast;
    assert s.vRandom != [];
    ListingSwap(s, limit, s.mapInfo[id].nRandomPos, |s.vRandom| - 1);
    ListingDrop(SwapRandom(s, s.mapInfo[id].nRandomPos, |s.vRandom| - 1), limit, id);
  }

  lemma ListingSwap(s: State, limit: int, i: int, j: int)
    requires Listing(s, limit) && 0 <= i < |s.vRandom| && 0 <= j < |s.vRandom|
    ensures var r := SwapRandom(s, i, j); Listing(r, limit) && r.mapInfo.Keys == s.mapInfo.Keys && r.mapInfo[s.vRandom[i]].nRandomPos == j
    ensures |SwapRandom(s, i, j).vRandom| == |s.vRandom|
  {
    SwapRandomAt(s, i, j);
    SwapRandomLists(s, i, j);
    hide SwapRandom;
  }

  lemma ListingDrop(s: State, limit: int, id: int)
    requires Listing(s, limit) && id in s.mapInfo && s.vRandom != [] && s.mapInfo[id].nRandomPos == |s.vRandom| - 1
    ensures Listing(DropLast(s, id), limit)
  {
  }

  /** The last loop: entries that no bucket refers to are dropped. */
  method DropUnreferenced(a: CAddrMan)
    requires a.Shaped() && a.nIdCount >= 0 && Listing(a.View(), a.nIdCount)
    modifies a
    ensures a.View() == Purge(old(a.View()), 0, old(a.nIdCount))
  {
    hide TableOf, Listing, AddrManState.Delete;
    ghost var s := a.View();
    var end := a.nIdCount;
    for id := 0 to end
      invariant Purge(s, 0, end) == Purge(a.View(), id, end) && Listing(a.View(), end)
    {
      if id in a.mapInfo && !a.mapInfo[id].fInTried && a.mapInfo[id].nRefCount == 0 {
        ListingDelete(a.View(), end, id);
        a.Delete(id);
      }
    }
  }

  lemma ReadIs(bk: Buckets, f: File, own: bool, s1: State, s2: State, s3: State)
    requires own == OwnFormat(f)
    requires s1 == LoadNews(bk, Empty(f.nKey).(nNew := |f.news|), f.news, !own).(nIdCount := |f.news|)
    requires s2 == LoadTrieds(bk, s1, f.trieds) && s3 == (if own then LoadBuckets(bk, s2, f.buckets, 0) else s2)
    ensures Read(bk, f) == Purge(s3, 0, s3.nIdCount)
  {
  }

  /** `Unserialize` into an object just constructed.  A file whose lists are not as long as its counts
      say stands for a stream that ends early or is out of step. */
  method Unserialize(a: CAddrMan, f: File) returns (ok: bool)
    requires a.Shaped() && a.View() == Empty(a.nKey)
    modifies a, a.vvTried, a.vvNew
    ensures ok <==> f.nKeySize == 32 && f.nNew == |f.news| && f.nTried == |f.trieds|
                    && |f.buckets| == if f.nVersion != 0 then Flip(f.nUBuckets) else f.nUBuckets
    ensures ok ==> a.View() == Read(a.bk, f)
  {
    hide TableOf, LoadNews, LoadTrieds, LoadBuckets, Purge, Listing, Flip, Read;
    if f.nKeySize != 32 {
      return false;
    }
    var nUBuckets := f.nUBuckets;
    if f.nVersion != 0 {
      nUBuckets := Flip(nUBuckets);
    }
    if f.nNew != |f.news| || f.nTried != |f.trieds| || nUBuckets != |f.buckets| {
      return false;
    }
    a.nKey, a.nNew, a.nTried := f.nKey, f.nNew, 0;
    var own := f.nVersion == 1 && nUBuckets == NEW_BUCKET_COUNT;
    ghost var s1 := LoadNews(a.bk, a.View(), f.news, !own).(nIdCount := |f.news|);
    LoadEntries(a, f, !own);
    ghost var s2 := a.View();
    if own {
      ReadBuckets(a, f.buckets);
      ListingBuckets(a.bk, s2, f.buckets, 0);
    }
    ReadIs(a.bk, f, own, s1, s2, a.View());
    DropUnreferenced(a);
    ok := true;
  }

  /** Its first two loops: the entries, new and tried. */
  method LoadEntries(a: CAddrMan, f: File, rebucket: bool)
    requires a.Shaped() && a.View() == Empty(f.nKey).(nNew := f.nNew) && f.nNew == |f.news| && f.nTried == |f.trieds|
    modifies a, a.vvTried, a.vvNew
    ensures a.View() == LoadTrieds(a.bk, LoadNews(a.bk, old(a.View()), f.news, rebucket).(nIdCount := |f.news|), f.trieds)
    ensures Listing(a.View(), a.nIdCount) && a.nIdCount >= 0
  {
    hide TableOf, LoadNews, LoadTrieds, Listing;
    ghost var s := a.View();
    ReadNews(a, f.nNew, f.news, rebucket);
    assert f.news[..f.nNew] == f.news;
    ListingNews(a.bk, f.nKey, f.nNew, f.news, rebucket);
    a.nIdCount := f.nNew;
    ghost var s1 := a.View();
    NewsKeepTried(a.bk, s, f.news, rebucket);
    a.nTried := f.nTried;
    ReadTrieds(a, f.trieds, s1);
    SameListing(LoadNews(a.bk, s, f.news, rebucket), s1, |f.news|);
    ListingTrieds(a.bk, s1, f.trieds);
  }

  lemma SameListing(s: State, s': State, limit: int)
    requires Listing(s, limit) && s'.mapInfo == s.mapInfo && s'.vRandom == s.vRandom
    ensures Listing(s', limit)
  {
  }

  lemma {:induction false} NewsKeepTried(bk: Buckets, s: State, news: seq<Saved>, rebucket: bool)
    ensures LoadNews(bk, s, news, rebucket).nTried == s.nTried
  {
    if news != [] {
      NewsKeepTried(bk, s, news[..|news| - 1], rebucket);
    }
  }
}
