/** The address manager as an object (`CAddrMan`, src/addrman.h and src/addrman.cpp): the bucket
    tables are arrays in which -1 marks a free slot, the indexes are fields, and every method is tied
    to the operation on values that describes it. */
module AddrMan {
  import opened Basics
  import opened AddrManState
  import Ops = AddrManOps

  /** The occupied slots of a bucket array. */
  ghost function TableOf(a: array2<int>): Table
    reads a
  {
    map b: int, p: int | 0 <= b < a.Length0 && 0 <= p < a.Length1 && a[b, p] != -1 :: (b, p) := a[b, p]
  }

  method Write(a: array2<int>, b: int, p: int, x: int)
    requires 0 <= b < a.Length0 && 0 <= p < a.Length1
    modifies a
    ensures TableOf(a) == if x == -1 then old(TableOf(a)) - {(b, p)} else old(TableOf(a))[(b, p) := x]
  {
    a[b, p] := x;
  }

  class CAddrMan {
    const bk: Buckets
    const vvTried: array2<int>
    const vvNew: array2<int>
    var nKey: nat
    var nIdCount: int
    var mapInfo: map<int, AddrInfo>
    var mapAddr: map<NetAddr, int>
    var vRandom: seq<int>
    var nTried: int
    var nNew: int

    ghost predicate Shaped() {
      && vvTried.Length0 == TRIED_BUCKET_COUNT && vvTried.Length1 == BUCKET_SIZE
      && vvNew.Length0 == NEW_BUCKET_COUNT && vvNew.Length1 == BUCKET_SIZE
      && vvTried != vvNew
    }

    ghost function View(): State
      reads this, vvTried, vvNew
    {
      State(nKey, nIdCount, mapInfo, mapAddr, vRandom, nTried, TableOf(vvTried), nNew, TableOf(vvNew))
    }

    ghost predicate Valid()
      reads this, vvTried, vvNew
    {
      Shaped() && Consistent(bk, View())
    }

    /** `Clear` on a fresh object; the key is drawn at random. */
    constructor (bk: Buckets, key: nat)
      requires key != 0
      ensures Valid() && fresh(vvTried) && fresh(vvNew) && this.bk == bk
      ensures View() == State(key, 0, map[], map[], [], 0, map[], 0, map[])
    {
      this.bk := bk;
      vvTried := new int[TRIED_BUCKET_COUNT, BUCKET_SIZE]((_, _) => -1);
      vvNew := new int[NEW_BUCKET_COUNT, BUCKET_SIZE]((_, _) => -1);
      nKey, nIdCount, mapInfo, mapAddr, vRandom, nTried, nNew := key, 0, map[], map[], [], 0, 0;
      new;
      assert View() == State(key, 0, map[], map[], [], 0, map[], 0, map[]);
      assert NewIds(View()) == {} && TriedIds(View()) == {};
    }

    method Find(ip: NetAddr) returns (nId: int)
      ensures nId == AddrManState.Find(View(), ip)
    {
      nId := if ip in mapAddr && mapAddr[ip] in mapInfo then mapAddr[ip] else -1;
    }

    method FindExact(service: Service) returns (nId: int)
      ensures nId == Ops.FindExact(View(), service)
    {
      nId := Find(service.ip);
      if nId != -1 && mapInfo[nId].address.service != service {
        nId := -1;
      }
    }

    method Create(addr: Address, source: NetAddr) returns (nId: int)
      modifies this
      ensures View() == AddrManState.Create(old(View()), addr, source) && nId == old(nIdCount)
    {
      nId := nIdCount;
      nIdCount := nIdCount + 1;
      mapInfo := mapInfo[nId := AddrInfo(addr, source, 0, 0, 0, 0, false, -1)];
      mapAddr := mapAddr[addr.service.ip := nId];
      mapInfo := mapInfo[nId := mapInfo[nId].(nRandomPos := |vRandom|)];
      vRandom := vRandom + [nId];
    }

    method SwapRandom(nRndPos1: int, nRndPos2: int)
      requires 0 <= nRndPos1 < |vRandom| && 0 <= nRndPos2 < |vRandom|
      requires vRandom[nRndPos1] in mapInfo && vRandom[nRndPos2] in mapInfo
      modifies this
      ensures View() == AddrManState.SwapRandom(old(View()), nRndPos1, nRndPos2)
    {
      if nRndPos1 == nRndPos2 {
        return;
      }
      var nId1, nId2 := vRandom[nRndPos1], vRandom[nRndPos2];
      mapInfo := mapInfo[nId1 := mapInfo[nId1].(nRandomPos := nRndPos2)];
      mapInfo := mapInfo[nId2 := mapInfo[nId2].(nRandomPos := nRndPos1)];
      vRandom := vRandom[nRndPos1 := nId2];
      vRandom := vRandom[nRndPos2 := nId1];
    }

    method Delete(nId: int)
      requires CanDelete(View(), nId) && !mapInfo[nId].fInTried && mapInfo[nId].nRefCount == 0
      modifies this
      ensures View() == AddrManState.Delete(old(View()), nId)
    {
      var ip := mapInfo[nId].address.service.ip;
      SwapRandom(mapInfo[nId].nRandomPos, |vRandom| - 1);
      vRandom := vRandom[..|vRandom| - 1];
      mapAddr := mapAddr - {ip};
      mapInfo := mapInfo - {nId};
      nNew := nNew - 1;
    }

    method ClearNew(nUBucket: int, nUBucketPos: int)
      requires Shaped() && 0 <= nUBucket < NEW_BUCKET_COUNT && 0 <= nUBucketPos < BUCKET_SIZE
      requires CanClear(View(), (nUBucket, nUBucketPos))
      requires var sl := (nUBucket, nUBucketPos);
        sl in View().vvNew && mapInfo[View().vvNew[sl]].nRefCount == 1 ==> !mapInfo[View().vvNew[sl]].fInTried
      modifies this, vvNew
      ensures View() == AddrManState.ClearNew(old(View()), (nUBucket, nUBucketPos))
      ensures vvNew[nUBucket, nUBucketPos] == -1
    {
      ghost var sl, s := (nUBucket, nUBucketPos), View();
      if vvNew[nUBucket, nUBucketPos] != -1 {
        var nIdDelete := vvNew[nUBucket, nUBucketPos];
        assert sl in s.vvNew && s.vvNew[sl] == nIdDelete;
        var infoDelete := mapInfo[nIdDelete];
        assert infoDelete.nRefCount > 0;
        mapInfo := mapInfo[nIdDelete := infoDelete.(nRefCount := infoDelete.nRefCount - 1)];
        Write(vvNew, nUBucket, nUBucketPos, -1);
        assert View() == Unref(s, sl);
        if mapInfo[nIdDelete].nRefCount == 0 {
          Delete(nIdDelete);
        }
      }
    }

    /** One turn of the first loop of `MakeTried`. */
    method ReleaseAt(nId: int, bucket: int)
      requires Shaped() && nId in mapInfo && nId != -1 && 0 <= bucket < NEW_BUCKET_COUNT
      modifies this`mapInfo, vvNew
      ensures var sl, t := NewSlot(bk, nKey, old(mapInfo)[nId], bucket), old(TableOf(vvNew));
        if sl in t && t[sl] == nId
        then TableOf(vvNew) == t - {sl} && mapInfo == old(mapInfo)[nId := old(mapInfo)[nId].(nRefCount := old(mapInfo)[nId].nRefCount - 1)]
        else TableOf(vvNew) == t && mapInfo == old(mapInfo)
    {
      var pos := bk.position(nKey, mapInfo[nId].address.service, true, bucket);
      if vvNew[bucket, pos] == nId {
        Write(vvNew, bucket, pos, -1);
        mapInfo := mapInfo[nId := mapInfo[nId].(nRefCount := mapInfo[nId].nRefCount - 1)];
      }
    }

    /** The first loop of `MakeTried`: the entry gives up each slot it holds. */
    method ReleaseAll(nId: int)
      requires Shaped() && nId in mapInfo && nId != -1
      requires mapInfo[nId].nRefCount == |SlotsOf(TableOf(vvNew), nId)|
      requires InOrder(bk, nKey, mapInfo[nId], TableOf(vvNew), nId)
      modifies this`mapInfo, vvNew
      ensures TableOf(vvNew) == WithoutId(old(TableOf(vvNew)), nId)
      ensures mapInfo == old(mapInfo)[nId := old(mapInfo)[nId].(nRefCount := 0)]
    {
      hide TableOf;
      ghost var t, info := TableOf(vvNew), mapInfo[nId];
      PartlyEnds(bk, nKey, info, t, nId);
      for bucket := 0 to NEW_BUCKET_COUNT
        invariant nId in mapInfo && mapInfo == old(mapInfo)[nId := info.(nRefCount := mapInfo[nId].nRefCount)]
        invariant mapInfo[nId].nRefCount == |SlotsOf(TableOf(vvNew), nId)|
        invariant TableOf(vvNew) == Partly(t, nId, bucket)
      {
        PartlyStep(bk, nKey, info, t, nId, bucket);
        ReleaseAt(nId, bucket);
      }
    }

    method EvictSlot(nKBucket: int, nKBucketPos: int)
      requires Shaped() && 0 <= nKBucket < TRIED_BUCKET_COUNT && 0 <= nKBucketPos < BUCKET_SIZE
      requires vvTried[nKBucket, nKBucketPos] in mapInfo && vvTried[nKBucket, nKBucketPos] != -1
      modifies this, vvTried
      ensures var sl := (nKBucket, nKBucketPos);
        && sl in old(View()).vvTried && old(View()).vvTried[sl] == old(vvTried[nKBucket, nKBucketPos])
        && View() == Evict(old(View()), sl)
    {
      var nIdEvict := vvTried[nKBucket, nKBucketPos];
      mapInfo := mapInfo[nIdEvict := mapInfo[nIdEvict].(fInTried := false)];
      Write(vvTried, nKBucket, nKBucketPos, -1);
      nTried := nTried - 1;
    }

    /** Takes a free new slot for an entry. */
    method RefSlot(nUBucket: int, nUBucketPos: int, nId: int)
      requires Shaped() && 0 <= nUBucket < NEW_BUCKET_COUNT && 0 <= nUBucketPos < BUCKET_SIZE
      requires nId in mapInfo && nId != -1
      modifies this, vvNew
      ensures View() == Ref(old(View()), (nUBucket, nUBucketPos), nId)
    {
      mapInfo := mapInfo[nId := mapInfo[nId].(nRefCount := mapInfo[nId].nRefCount + 1)];
      Write(vvNew, nUBucket, nUBucketPos, nId);
    }

    method PutTriedSlot(nKBucket: int, nKBucketPos: int, nId: int)
      requires Shaped() && 0 <= nKBucket < TRIED_BUCKET_COUNT && 0 <= nKBucketPos < BUCKET_SIZE
      requires nId in mapInfo && nId != -1
      modifies this, vvTried
      ensures View() == PutTried(old(View()), (nKBucket, nKBucketPos), nId)
    {
      Write(vvTried, nKBucket, nKBucketPos, nId);
      nTried := nTried + 1;
      mapInfo := mapInfo[nId := mapInfo[nId].(fInTried := true)];
    }

    method TriedAt(b: int, p: int) returns (nId: int)
      requires Shaped() && 0 <= b < TRIED_BUCKET_COUNT && 0 <= p < BUCKET_SIZE
      ensures nId == vvTried[b, p]
      ensures (nId != -1 <==> (b, p) in View().vvTried) && (nId != -1 ==> View().vvTried[(b, p)] == nId)
    {
      nId := vvTried[b, p];
    }

    /** The middle of `MakeTried`: the entry that holds the wanted tried slot goes back to the new table. */
    method Displace(nKBucket: int, nKBucketPos: int, ghost nId: int)
      requires Shaped() && Inv(bk, View(), {nId}, 1)
      requires 0 <= nKBucket < TRIED_BUCKET_COUNT && 0 <= nKBucketPos < BUCKET_SIZE && vvTried[nKBucket, nKBucketPos] != -1
      modifies this, vvTried, vvNew
      ensures (nKBucket, nKBucketPos) in old(View()).vvTried && old(View()).vvTried[(nKBucket, nKBucketPos)] in old(mapInfo)
      ensures View() == Ops.Displace(bk, old(View()), (nKBucket, nKBucketPos))
    {
      hide Inv, Evict, Ref, AddrManState.ClearNew, TableOf;
      ghost var sl, s := (nKBucket, nKBucketPos), View();
      var nIdEvict := TriedAt(nKBucket, nKBucketPos);
      EvictKeeps(bk, s, sl, {nId}, 1);
      var infoOld := mapInfo[nIdEvict];
      EvictSlot(nKBucket, nKBucketPos);
      var nUBucket := bk.fresh_(nKey, infoOld.address.service, infoOld.source);
      var nUBucketPos := bk.position(nKey, infoOld.address.service, true, nUBucket);
      ghost var s1, usl, loose := View(), (nUBucket, nUBucketPos), {nId} + {nIdEvict};
      EvictKey(s, sl);
      ClearNewReady(bk, s1, usl, loose, 2);
      ClearNew(nUBucket, nUBucketPos);
      assert vvNew[nUBucket, nUBucketPos] == -1;
      LooseUnreferenced(bk, View(), nIdEvict, loose, 2);
      assert mapInfo[nIdEvict].nRefCount + 1 == 1;
      RefSlot(nUBucket, nUBucketPos, nIdEvict);
      nNew := nNew + 1;
    }

    /** `MakeTried`. */
    method MakeTried(nId: int)
      requires Valid() && nId in mapInfo && !mapInfo[nId].fInTried && mapInfo[nId].nLastSuccess != 0
      modifies this, vvTried, vvNew
      ensures Valid() && View() == Ops.MakeTried(bk, old(View()), nId)
    {
      ghost var s := View();
      hide Inv, Ops.Displace, TableOf;
      IdsAreNatural(bk, s, nId);
      ReleaseAll(nId);
      nNew := nNew - 1;
      assert mapInfo[nId].nRefCount == 0;
      assert View() == Release(s, nId);
      ReleaseKeeps(bk, s, nId, {}, 0);
      assert {} + {nId} == {nId};
      Ops.MakeTriedKeeps(bk, s, nId);
      hide Release;
      var nKBucket := bk.tried(nKey, mapInfo[nId].address.service);
      var nKBucketPos := bk.position(nKey, mapInfo[nId].address.service, false, nKBucket);
      ghost var sl := (nKBucket, nKBucketPos);
      var nIdOld := TriedAt(nKBucket, nKBucketPos);
      if nIdOld != -1 {
        Ops.DisplaceKeeps(bk, View(), sl, nId);
        Displace(nKBucket, nKBucketPos, nId);
      }
      PutTriedSlot(nKBucket, nKBucketPos, nId);
    }

    /** `Good_`: the search for a bucket that holds the entry starts anywhere. */
    method Good(service: Service, nTime: int, nRnd: nat)
      requires Valid() && nTime > 0
      modifies this, vvTried, vvNew
      ensures Valid() && View() == Ops.Good(bk, old(View()), service, nTime)
    {
      ghost var s := View();
      hide Inv, TableOf, Ops.MakeTried;
      Ops.GoodKeeps(bk, s, service, nTime);
      var nId := FindExact(service);
      if nId == -1 {
        return;
      }
      var info := mapInfo[nId].(nLastSuccess := nTime, nLastTry := nTime, nAttempts := 0);
      Ops.InvEntries(bk, s);
      Ops.SetInfoKeeps(bk, s, nId, info, {}, 0);
      mapInfo := mapInfo[nId := info];
      if info.fInTried {
        return;
      }
      ghost var b := Ops.NewEntryHasBucket(bk, View(), nId);
      var nUBucket := FindBucket(nId, nRnd, b);
      assert nUBucket != -1;
      MakeTried(nId);
    }

    /** The search of `Good_` for a bucket that holds the entry, from a random one on. */
    method FindBucket(nId: int, nRnd: nat, ghost b: int) returns (nUBucket: int)
      requires Shaped() && nId in mapInfo && 0 <= b < NEW_BUCKET_COUNT
      requires var sl := NewSlot(bk, nKey, mapInfo[nId], b); sl in View().vvNew && View().vvNew[sl] == nId
      ensures 0 <= nUBucket < NEW_BUCKET_COUNT
      ensures vvNew[nUBucket, bk.position(nKey, mapInfo[nId].address.service, true, nUBucket)] == nId
    {
      hide Probe;
      ProbeHits(b, nRnd);
      var n := 0;
      while n < NEW_BUCKET_COUNT
        invariant 0 <= n <= NEW_BUCKET_COUNT && exists k :: n <= k < NEW_BUCKET_COUNT && Probe(k, nRnd) == b
      {
        nUBucket := Probe(n, nRnd);
        var nBpos := bk.position(nKey, mapInfo[nId].address.service, true, nUBucket);
        if vvNew[nUBucket, nBpos] == nId {
          return;
        }
        n := n + 1;
      }
    }

    /** `Attempt_`. */
    method Attempt(service: Service, nTime: int)
      requires Valid() && nTime >= 0
      modifies this
      ensures Valid() && View() == Ops.Attempt(old(View()), service, nTime)
    {
      hide Inv, TableOf;
      Ops.AttemptKeeps(bk, View(), service, nTime);
      var nId := FindExact(service);
      if nId != -1 {
        mapInfo := mapInfo[nId := mapInfo[nId].(nLastTry := nTime, nAttempts := mapInfo[nId].nAttempts + 1)];
      }
    }

    /** `Connected_`. */
    method Connected(service: Service, nTime: int)
      requires Valid()
      modifies this
      ensures Valid() && View() == Ops.Connected(old(View()), service, nTime)
    {
      hide Inv, TableOf;
      Ops.ConnectedKeeps(bk, View(), service, nTime);
      var nId := FindExact(service);
      if nId != -1 {
        var nUpdateInterval := 20 * 60;
        if nTime - mapInfo[nId].address.nTime > nUpdateInterval {
          mapInfo := mapInfo[nId := mapInfo[nId].(address := mapInfo[nId].address.(nTime := nTime))];
        }
      }
    }

    method NewAt(b: int, p: int) returns (nId: int)
      requires Shaped() && 0 <= b < NEW_BUCKET_COUNT && 0 <= p < BUCKET_SIZE
      ensures nId == vvNew[b, p]
      ensures (nId != -1 <==> (b, p) in View().vvNew) && (nId != -1 ==> View().vvNew[(b, p)] == nId)
    {
      nId := vvNew[b, p];
    }

    /** The end of `Add_`. */
    method Insert(nId: int, source: NetAddr, nNow: int, ghost loose: set<int>)
      requires Shaped() && Inv(bk, View(), loose, 0) && nId in mapInfo && !mapInfo[nId].fInTried
      requires loose == (if mapInfo[nId].nRefCount == 0 then {nId} else {}) && mapInfo[nId].nRefCount < NEW_BUCKETS_PER_ADDRESS
      modifies this, vvNew
      ensures View() == Ops.Insert(bk, old(View()), nId, source, nNow)
    {
      ghost var s := View();
      hide Inv, Ref, AddrManState.ClearNew, AddrManState.Delete, TableOf;
      var nUBucket := bk.fresh_(nKey, mapInfo[nId].address.service, source);
      var nUBucketPos := bk.position(nKey, mapInfo[nId].address.service, true, nUBucket);
      ghost var sl := (nUBucket, nUBucketPos);
      ClearNewReady(bk, s, sl, loose, 0);
      var nIdHeld := NewAt(nUBucket, nUBucketPos);
      if nIdHeld != nId {
        var fInsert := nIdHeld == -1;
        if !fInsert {
          var infoExisting := mapInfo[nIdHeld];
          if infoExisting.IsTerrible(nNow) || (infoExisting.nRefCount > 1 && mapInfo[nId].nRefCount == 0) {
            fInsert := true;
          }
        }
        InsertReady(bk, s, sl, nId, loose);
        if fInsert {
          ClearNew(nUBucket, nUBucketPos);
          RefSlot(nUBucket, nUBucketPos, nId);
        } else if mapInfo[nId].nRefCount == 0 {
          Delete(nId);
        }
      } else {
        HasId(bk, s, nId, loose);
      }
    }

    /** `Add_`; `nRnd` is the number drawn if the entry already has references. */
    method Add(routable: bool, addr: Address, source: NetAddr, nTimePenalty: int, nNow: int, nRnd: int) returns (fNew: bool)
      requires Valid()
      modifies this, vvNew
      ensures Valid() && (View(), fNew) == Ops.Add(bk, old(View()), routable, addr, source, nTimePenalty, nNow, nRnd)
    {
      ghost var s := View();
      hide Inv, Ops.Insert, Ops.Refresh, TableOf;
      Ops.AddKeeps(bk, s, routable, addr, source, nTimePenalty, nNow, nRnd);
      if !routable {
        return false;
      }
      fNew := false;
      var nId := Find(addr.service.ip);
      if nId != -1 {
        var info := Ops.Refresh(mapInfo[nId], addr, nTimePenalty, nNow);
        Ops.RefreshDetails(mapInfo[nId], addr, nTimePenalty, nNow);
        Ops.InvEntries(bk, s);
        Ops.SetInfoKeeps(bk, s, nId, info, {}, 0);
        mapInfo := mapInfo[nId := info];
        if addr.nTime == 0 || (info.address.nTime != 0 && addr.nTime <= info.address.nTime) {
          return;
        }
        if info.fInTried {
          return;
        }
        if info.nRefCount == NEW_BUCKETS_PER_ADDRESS {
          return;
        }
        var nFactor := 1;
        for n := 0 to info.nRefCount
          invariant nFactor >= 1 && (n > 0 ==> nFactor > 1)
        {
          nFactor := nFactor * 2;
        }
        if nFactor > 1 && nRnd != 0 {
          return;
        }
        Insert(nId, source, nNow, {});
      } else {
        UnknownAddress(bk, s, addr.service.ip);
        Ops.EnterKeeps(bk, s, addr, source, nTimePenalty);
        nId := Create(addr, source);
        mapInfo := mapInfo[nId := mapInfo[nId].(address := addr.(nTime := Max(0, mapInfo[nId].address.nTime - nTimePenalty)))];
        nNew := nNew + 1;
        fNew := true;
        Insert(nId, source, nNow, {nId});
      }
    }

    /** What a draw finds in the table that is searched, or -1. */
    lemma LookUp(tried: bool, draw: (int, int))
      requires Valid() && 0 <= draw.0 < NEW_BUCKET_COUNT && 0 <= draw.1 < BUCKET_SIZE
      ensures var useTried := nTried > 0 && (nNew == 0 || tried);
        var nId := if useTried then vvTried[draw.0 % TRIED_BUCKET_COUNT, draw.1] else vvNew[draw.0, draw.1];
        && nId == Ops.Drawn(View(), tried, draw)
        && (nId != -1 ==> nId in mapInfo && mapInfo[nId].fInTried == useTried)
    {
      Ops.DrawnEntry(bk, View(), tried, draw);
      hide Inv;
    }

    /** `Select_` with its draws listed; it stops when they run out, and never looks in an empty table. */
    method Select(tried: bool, draws: seq<(int, int)>, accept: AddrInfo -> bool) returns (r: seq<Address>, ghost n: nat)
      requires Valid()
      requires forall i :: 0 <= i < |draws| ==> 0 <= draws[i].0 < NEW_BUCKET_COUNT && 0 <= draws[i].1 < BUCKET_SIZE
      ensures Ops.Selected(View(), tried, draws, accept, r, n)
      ensures |vRandom| > 0 ==> if nTried > 0 && (nNew == 0 || tried) then View().vvTried != map[] else View().vvNew != map[]
    {
      ghost var s := View();
      Ops.SelectFinds(bk, s);
      hide Consistent, TableOf, Ops.Drawn, Ops.Hits;
      r, n := [], 0;
      if |vRandom| == 0 {
        return;
      }
      var useTried := nTried > 0 && (nNew == 0 || tried);
      for i := 0 to |draws|
        invariant r == [] && n == i && Ops.Missed(s, tried, draws, accept, n)
      {
        LookUp(tried, draws[i]);
        var nId := -1;
        if useTried {
          nId := vvTried[draws[i].0 % TRIED_BUCKET_COUNT, draws[i].1];
        } else {
          nId := vvNew[draws[i].0, draws[i].1];
        }
        Ops.SelectedBy(s, tried, draws, accept, i, nId);
        if nId != -1 && accept(mapInfo[nId]) {
          return [mapInfo[nId].address], n;
        }
        n := n + 1;
      }
    }

    /** `GetAddr_`: shuffles the front of `vRandom` and reports it; no address twice, none that is
        terrible, and no more than the limit, short of which it stops only with all entries seen. */
    method GetAddr(nNow: int, picks: nat -> nat) returns (vAddr: seq<Address>, ghost n: nat)
      requires Valid()
      modifies this
      ensures Valid() && Reordered(old(View()), View())
      ensures Listed(View()) && n <= |vRandom| && vAddr == Ops.Reported(View(), vRandom[..n], nNow)
      ensures |vAddr| <= ReportLimit(|vRandom|) && (n == |vRandom| || |vAddr| == ReportLimit(|vRandom|))
      ensures forall i, j :: 0 <= i < j < |vAddr| ==> vAddr[i].service.ip != vAddr[j].service.ip
    {
      hide Inv, TableOf, Reordered, Ops.Reported, ReportLimit;
      ghost var first := View();
      StartShuffle(bk, first, nNow);
      var nNodes := ReportLimit(|vRandom|);
      vAddr := [];
      var k := 0;
      while k < |vRandom|
        invariant 0 <= k <= |vRandom| && nNodes == ReportLimit(|vRandom|)
        invariant Shaped() && Shuffled(bk, first, View(), k, vAddr, nNow) && |vAddr| <= nNodes
        decreases |vRandom| - k
      {
        if |vAddr| >= nNodes {
          break;
        }
        vAddr := Draw(k, picks(k) % (|vRandom| - k) + k, vAddr, nNow, first);
        k := k + 1;
      }
      n := k;
      EndShuffle(bk, first, View(), k, vAddr, nNow);
    }

    /** One turn of the loop of `GetAddr_`. */
    method Draw(k: nat, nRndPos: nat, vAddr: seq<Address>, nNow: int, ghost first: State) returns (r: seq<Address>)
      requires k <= nRndPos < |vRandom| && Shuffled(bk, first, View(), k, vAddr, nNow)
      modifies this
      ensures Shuffled(bk, first, View(), k + 1, r, nNow) && |vRandom| == old(|vRandom|) && |r| <= |vAddr| + 1
    {
      hide Inv, TableOf, Reordered, Ops.Reported, AddrManState.SwapRandom;
      ShuffleOne(bk, first, View(), k, nRndPos, nNow, vAddr);
      SwapRandom(k, nRndPos);
      r := vAddr;
      var ai := mapInfo[vRandom[k]];
      if !ai.IsTerrible(nNow) {
        r := r + [ai.address];
      }
    }
  }

  /** At most 23 percent of the addresses are given out, and at most 2500 of them. */
  function ReportLimit(size: nat): nat {
    if 23 * size / 100 > 2500 then 2500 else 23 * size / 100
  }

  lemma LimitExactly(size: nat)
    ensures var n := ReportLimit(size); n <= 2500 && 100 * n <= 23 * size && (n < 2500 ==> 23 * size < 100 * (n + 1))
  {
  }

  ghost predicate Listed(s: State) {
    forall i :: 0 <= i < |s.vRandom| ==> s.vRandom[i] in s.mapInfo
  }

  /** `k` turns into the shuffle: nothing but the order has changed, and the front is reported. */
  ghost predicate Shuffled(bk: Buckets, first: State, s: State, k: nat, vAddr: seq<Address>, nNow: int) {
    && Consistent(bk, s) && Reordered(first, s) && Listed(s) && k <= |s.vRandom|
    && vAddr == Ops.Reported(s, s.vRandom[..k], nNow)
  }

  lemma StartShuffle(bk: Buckets, s: State, nNow: int)
    requires Consistent(bk, s)
    ensures Shuffled(bk, s, s, 0, [], nNow)
  {
    InvIndexed(bk, s);
  }

  lemma EndShuffle(bk: Buckets, first: State, s: State, k: nat, vAddr: seq<Address>, nNow: int)
    requires Shuffled(bk, first, s, k, vAddr, nNow)
    ensures Consistent(bk, s) && Reordered(first, s) && Listed(s) && k <= |s.vRandom| && vAddr == Ops.Reported(s, s.vRandom[..k], nNow)
    ensures forall i, j :: 0 <= i < j < |vAddr| ==> vAddr[i].service.ip != vAddr[j].service.ip
  {
    InvIndexed(bk, s);
    Ops.ReportedDistinct(s, k, nNow);
  }

  lemma InvIndexed(bk: Buckets, s: State)
    requires Consistent(bk, s)
    ensures Indexed(s) && Listed(s)
  {
  }

  /** One swap of the shuffle: the front already reported stays, and one entry more is settled. */
  lemma ShuffleOne(bk: Buckets, first: State, s: State, k: int, j: int, nNow: int, vAddr: seq<Address>)
    requires 0 <= k <= j < |s.vRandom| && Shuffled(bk, first, s, k, vAddr, nNow)
    ensures Listed(s)
    ensures var s' := AddrManState.SwapRandom(s, k, j);
      && |s'.vRandom| == |s.vRandom| && s'.vRandom[k] in s'.mapInfo
      && Shuffled(bk, first, s', k + 1, if s'.mapInfo[s'.vRandom[k]].IsTerrible(nNow) then vAddr else vAddr + [s'.mapInfo[s'.vRandom[k]].address], nNow)
  {
    hide Inv, Reordered, Indexed, AddrManState.SwapRandom;
    var s' := AddrManState.SwapRandom(s, k, j);
    InvIndexed(bk, s);
    SwapRandomKeeps(bk, s, {}, 0, k, j);
    ReorderedTwice(first, s, s');
    SwapReports(s, k, j, nNow);
    InvIndexed(bk, s');
    assert s'.vRandom[..k + 1][..k] == s.vRandom[..k];
  }

  lemma ReorderedTwice(a: State, b: State, c: State)
    requires Reordered(a, b) && Reordered(b, c)
    ensures Reordered(a, c)
  {
    forall n | n in a.mapInfo ensures SameButPos(a.mapInfo[n], c.mapInfo[n]) {
      assert SameButPos(a.mapInfo[n], b.mapInfo[n]) && SameButPos(b.mapInfo[n], c.mapInfo[n]);
    }
  }

  /** A swap behind the front leaves what the front reports. */
  lemma SwapReports(s: State, k: int, j: int, nNow: int)
    requires Indexed(s) && 0 <= k <= j < |s.vRandom|
    ensures forall i :: 0 <= i < k ==> s.vRandom[i] in AddrManState.SwapRandom(s, k, j).mapInfo
    ensures |AddrManState.SwapRandom(s, k, j).vRandom| == |s.vRandom| && AddrManState.SwapRandom(s, k, j).vRandom[..k] == s.vRandom[..k]
    ensures Ops.Reported(AddrManState.SwapRandom(s, k, j), s.vRandom[..k], nNow) == Ops.Reported(s, s.vRandom[..k], nNow)
  {
    SwapRandomReorders(s, k, j);
    ReportSame(s, AddrManState.SwapRandom(s, k, j), s.vRandom[..k], nNow);
  }

  lemma {:induction false} ReportSame(s: State, s': State, ids: seq<int>, nNow: int)
    requires Reordered(s, s') && forall i :: 0 <= i < |ids| ==> ids[i] in s.mapInfo
    ensures Ops.Reported(s', ids, nNow) == Ops.Reported(s, ids, nNow)
  {
    if ids != [] {
      var last := ids[|ids| - 1];
      assert last in s.mapInfo;
      assert SameButPos(s.mapInfo[last], s'.mapInfo[last]);
      ReportSame(s, s', ids[..|ids| - 1], nNow);
    }
  }

  /** What the end of `Add_` relies on. */
  lemma InsertReady(bk: Buckets, s: State, sl: Slot, id: int, loose: set<int>)
    requires Inv(bk, s, loose, 0) && id in s.mapInfo && (sl in s.vvNew ==> s.vvNew[sl] != id)
    requires loose == (if s.mapInfo[id].nRefCount == 0 then {id} else {})
    ensures id in ClearNew(s, sl).mapInfo && id != -1
    ensures s.mapInfo[id].nRefCount == 0 ==> CanDelete(s, id) && !s.mapInfo[id].fInTried
    ensures sl in s.vvNew ==> s.vvNew[sl] in s.mapInfo
  {
    ClearNewKeeps(bk, s, sl, loose, 0);
    if s.mapInfo[id].nRefCount == 0 {
      DeleteKeeps(bk, s, id, loose, 0);
    }
  }

  lemma HasId(bk: Buckets, s: State, id: int, loose: set<int>)
    requires Inv(bk, s, loose, 0) && id in s.mapInfo
    ensures id != -1
  {
  }

  lemma UnknownAddress(bk: Buckets, s: State, ip: NetAddr)
    requires Consistent(bk, s) && AddrManState.Find(s, ip) == -1
    ensures ip !in s.mapAddr && s.nIdCount != -1
  {
  }

  /** The bucket looked at in turn `n` of a search that starts at `nRnd`. */
  function Probe(n: nat, nRnd: nat): NewBucket {
    (n + nRnd) % NEW_BUCKET_COUNT
  }

  /** A search of all the buckets meets each of them. */
  lemma ProbeHits(b: int, nRnd: nat)
    requires 0 <= b < NEW_BUCKET_COUNT
    ensures exists n :: 0 <= n < NEW_BUCKET_COUNT && Probe(n, nRnd) == b
  {
    assert Probe((b - nRnd) % NEW_BUCKET_COUNT, nRnd) == b;
  }

  /** What a caller of `ClearNew` must know. */
  lemma ClearNewReady(bk: Buckets, s: State, sl: Slot, loose: set<int>, off: int)
    requires Inv(bk, s, loose, off)
    ensures CanClear(s, sl) && Inv(bk, ClearNew(s, sl), loose, off)
    ensures ClearNew(s, sl).vvTried == s.vvTried && ClearNew(s, sl).nKey == s.nKey && sl !in ClearNew(s, sl).vvNew
    ensures forall n :: n in loose ==> n in ClearNew(s, sl).mapInfo
    ensures sl in s.vvNew ==> s.vvNew[sl] in s.mapInfo && !s.mapInfo[s.vvNew[sl]].fInTried
  {
    ClearNewKeeps(bk, s, sl, loose, off);
  }

  lemma EvictKey(s: State, sl: Slot)
    requires sl in s.vvTried && s.vvTried[sl] in s.mapInfo
    ensures Evict(s, sl).nKey == s.nKey
  {
  }

  /** Every slot of an entry is one its hash allows. */
  ghost predicate InOrder(bk: Buckets, nKey: nat, info: AddrInfo, t: Table, id: int) {
    forall sl :: sl in t && t[sl] == id ==> sl == NewSlot(bk, nKey, info, sl.0) && 0 <= sl.0 < NEW_BUCKET_COUNT
  }

  /** A table once an entry has given up its slots in the buckets below `k`. */
  ghost function Partly(t: Table, id: int, k: int): Table {
    map sl | sl in t && (t[sl] != id || sl.0 >= k) :: t[sl]
  }

  lemma PartlyStep(bk: Buckets, nKey: nat, info: AddrInfo, t: Table, id: int, k: int)
    requires InOrder(bk, nKey, info, t, id)
    ensures var sl, p := NewSlot(bk, nKey, info, k), Partly(t, id, k);
      if sl in p && p[sl] == id
      then Partly(t, id, k + 1) == p - {sl} && |SlotsOf(p - {sl}, id)| == |SlotsOf(p, id)| - 1
      else Partly(t, id, k + 1) == p
  {
    var sl, p := NewSlot(bk, nKey, info, k), Partly(t, id, k);
    if sl in p && p[sl] == id {
      SlotsRemove(p, sl);
    }
  }

  lemma PartlyEnds(bk: Buckets, nKey: nat, info: AddrInfo, t: Table, id: int)
    requires InOrder(bk, nKey, info, t, id)
    ensures Partly(t, id, 0) == t && Partly(t, id, NEW_BUCKET_COUNT) == WithoutId(t, id)
    ensures |SlotsOf(WithoutId(t, id), id)| == 0
  {
    SlotsWithout(t, id);
  }

  lemma IdsAreNatural(bk: Buckets, s: State, id: int)
    requires Consistent(bk, s) && id in s.mapInfo
    ensures id >= 0 && s.mapInfo[id].nRefCount == |SlotsOf(s.vvNew, id)|
    ensures InOrder(bk, s.nKey, s.mapInfo[id], s.vvNew, id)
  {
  }

  lemma LooseUnreferenced(bk: Buckets, s: State, id: int, loose: set<int>, off: int)
    requires Inv(bk, s, loose, off) && id in loose
    ensures id in s.mapInfo && s.mapInfo[id].nRefCount == 0 && !s.mapInfo[id].fInTried && id >= 0
  {
  }
}
