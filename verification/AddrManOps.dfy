/** The operations of the address manager on values (src/addrman.cpp), each shown to keep the
    tables consistent.  Random numbers and the clock are arguments. */
module AddrManOps {
  import opened Basics
  import opened AddrManState

  // ----- an entry's own data

  function SetInfo(s: State, id: int, info: AddrInfo): State {
    s.(mapInfo := s.mapInfo[id := info])
  }

  lemma SetInfoKeeps(bk: Buckets, s: State, id: int, info: AddrInfo, loose: set<int>, off: int)
    requires Inv(bk, s, loose, off) && id in s.mapInfo
    requires info.address.service == s.mapInfo[id].address.service && info.nRandomPos == s.mapInfo[id].nRandomPos
    requires info.fInTried == s.mapInfo[id].fInTried && info.nRefCount == s.mapInfo[id].nRefCount
    requires info.nLastTry >= 0 && info.nLastSuccess >= 0 && (info.fInTried ==> info.nLastSuccess != 0)
    ensures Inv(bk, SetInfo(s, id, info), loose, off)
  {
    hide Indexed, Placed, NewIds, TriedIds;
    DetailsPlaced(bk, s, SetInfo(s, id, info), id);
    OneEntryKeeps(bk, s, SetInfo(s, id, info), id, loose, off, id in loose, off);
    assert (if id in loose then loose + {id} else loose - {id}) == loose;
  }

  lemma InvEntries(bk: Buckets, s: State)
    requires Consistent(bk, s)
    ensures forall n :: n in s.mapInfo ==> EntryOk(s.mapInfo[n], false)
  {
  }

  /** The entry of exactly this address and port. */
  function FindExact(s: State, service: Service): (id: int)
    ensures id != -1 ==> id in s.mapInfo && s.mapInfo[id].address.service == service
  {
    var id := Find(s, service.ip);
    if id != -1 && s.mapInfo[id].address.service == service then id else -1
  }

  /** Every entry is found under its own address. */
  lemma FoundExactly(bk: Buckets, s: State, service: Service)
    requires Consistent(bk, s)
    ensures forall id :: id in s.mapInfo && s.mapInfo[id].address.service == service ==> FindExact(s, service) == id && id != -1
  {
    InvEntries(bk, s);
  }

  function Attempt(s: State, service: Service, nTime: int): State {
    var id := FindExact(s, service);
    if id == -1 then s
    else SetInfo(s, id, s.mapInfo[id].(nLastTry := nTime, nAttempts := s.mapInfo[id].nAttempts + 1))
  }

  lemma AttemptKeeps(bk: Buckets, s: State, service: Service, nTime: int)
    requires Consistent(bk, s) && nTime >= 0
    ensures Consistent(bk, Attempt(s, service, nTime))
    ensures var s' := Attempt(s, service, nTime);
      && s'.(mapInfo := s.mapInfo) == s && s'.mapInfo.Keys == s.mapInfo.Keys
      && forall id :: id in s.mapInfo ==>
           if s.mapInfo[id].address.service != service then s'.mapInfo[id] == s.mapInfo[id]
           else s'.mapInfo[id].nLastTry == nTime && s'.mapInfo[id].nAttempts == s.mapInfo[id].nAttempts + 1
  {
    hide Inv;
    InvEntries(bk, s);
    FoundExactly(bk, s, service);
    var id := FindExact(s, service);
    if id != -1 {
      SetInfoKeeps(bk, s, id, s.mapInfo[id].(nLastTry := nTime, nAttempts := s.mapInfo[id].nAttempts + 1), {}, 0);
    }
  }

  function Connected(s: State, service: Service, nTime: int): State {
    var id := FindExact(s, service);
    if id == -1 || nTime - s.mapInfo[id].address.nTime <= 20 * 60 then s
    else SetInfo(s, id, s.mapInfo[id].(address := s.mapInfo[id].address.(nTime := nTime)))
  }

  lemma ConnectedKeeps(bk: Buckets, s: State, service: Service, nTime: int)
    requires Consistent(bk, s)
    ensures Consistent(bk, Connected(s, service, nTime))
    ensures var s' := Connected(s, service, nTime);
      && s'.(mapInfo := s.mapInfo) == s && s'.mapInfo.Keys == s.mapInfo.Keys
      && forall id :: id in s.mapInfo ==>
           if s.mapInfo[id].address.service != service then s'.mapInfo[id] == s.mapInfo[id]
           else
             var before, after := s.mapInfo[id].address.nTime, s'.mapInfo[id].address.nTime;
             && SameRecord(s'.mapInfo[id].(address := s.mapInfo[id].address), s.mapInfo[id])
             && s'.mapInfo[id].address.nServices == s.mapInfo[id].address.nServices
             && after == if before < nTime - 20 * 60 then nTime else before
  {
    hide Inv;
    InvEntries(bk, s);
    FoundExactly(bk, s, service);
    var id := FindExact(s, service);
    if id != -1 {
      SetInfoKeeps(bk, s, id, s.mapInfo[id].(address := s.mapInfo[id].address.(nTime := nTime)), {}, 0);
    }
  }

  // ----- what is known of an entry, wherever it is moved

  /** The same but for where the entry is listed. */
  predicate SameRecord(a: AddrInfo, b: AddrInfo) {
    a.(nRandomPos := 0, nRefCount := 0, fInTried := false) == b.(nRandomPos := 0, nRefCount := 0, fInTried := false)
  }

  /** No entry is new, and what is known of those that are left, but for some, is what was known. */
  ghost predicate RecordsKept(s: State, s': State, changed: set<int>) {
    && s'.mapInfo.Keys <= s.mapInfo.Keys && s'.nKey == s.nKey && s'.nIdCount == s.nIdCount
    && forall n :: n in s'.mapInfo && n !in changed ==> SameRecord(s'.mapInfo[n], s.mapInfo[n])
  }

  lemma RecordsTwice(s: State, mid: State, s': State, changed: set<int>)
    requires RecordsKept(s, mid, changed) && RecordsKept(mid, s', {})
    ensures RecordsKept(s, s', changed)
  {
    forall n | n in s'.mapInfo && n !in changed ensures SameRecord(s'.mapInfo[n], s.mapInfo[n]) {
      assert SameRecord(s'.mapInfo[n], mid.mapInfo[n]) && SameRecord(mid.mapInfo[n], s.mapInfo[n]);
    }
  }

  lemma DeleteRecords(s: State, id: int)
    requires CanDelete(s, id)
    ensures RecordsKept(s, Delete(s, id), {})
  {
  }

  lemma ClearRecords(s: State, sl: Slot)
    requires CanClear(s, sl)
    ensures RecordsKept(s, ClearNew(s, sl), {})
  {
    hide Delete;
    if sl in s.vvNew && s.mapInfo[s.vvNew[sl]].nRefCount == 1 {
      DeleteRecords(Unref(s, sl), s.vvNew[sl]);
      RecordsTwice(s, Unref(s, sl), ClearNew(s, sl), {});
    }
  }

  lemma RefRecords(s: State, sl: Slot, id: int)
    requires id in s.mapInfo
    ensures RecordsKept(s, Ref(s, sl, id), {})
  {
  }

  lemma DisplaceRecords(bk: Buckets, s: State, sl: Slot)
    requires sl in s.vvTried && s.vvTried[sl] in s.mapInfo
    ensures RecordsKept(s, Displace(bk, s, sl), {})
  {
    hide ClearNew, Ref, CanClear;
    var old_, s1 := s.vvTried[sl], Evict(s, sl);
    assert RecordsKept(s, s1, {});
    var usl := ReturnSlot(bk, s.nKey, s.mapInfo[old_]);
    hide RecordsKept;
    if CanClear(s1, usl) && old_ in ClearNew(s1, usl).mapInfo {
      ClearRecords(s1, usl);
      RefRecords(ClearNew(s1, usl), usl, old_);
      RecordsTwice(s, s1, ClearNew(s1, usl), {});
      RecordsTwice(s, ClearNew(s1, usl), Ref(ClearNew(s1, usl), usl, old_), {});
      CountedRecords(s, Ref(ClearNew(s1, usl), usl, old_));
    } else {
      CountedRecords(s, s);
    }
  }

  lemma CountedRecords(s: State, s': State)
    ensures RecordsKept(s, s, {})
    ensures RecordsKept(s, s', {}) ==> RecordsKept(s, s'.(nNew := s'.nNew + 1), {})
  {
  }

  lemma MakeTriedRecords(bk: Buckets, s: State, id: int)
    requires id in s.mapInfo
    ensures RecordsKept(s, MakeTried(bk, s, id), {})
  {
    hide Displace;
    var s1 := Release(s, id);
    var sl := TriedSlot(bk, s.nKey, s.mapInfo[id]);
    if sl in s1.vvTried && s1.vvTried[sl] in s1.mapInfo {
      DisplaceRecords(bk, s1, sl);
    }
    var s2 := if sl in s1.vvTried && s1.vvTried[sl] in s1.mapInfo then Displace(bk, s1, sl) else s1;
    RecordsTwice(s, s1, s2, {});
    if id in s2.mapInfo {
      RecordsTwice(s, s2, PutTried(s2, sl, id), {});
    }
  }

  lemma InsertRecords(bk: Buckets, s: State, id: int, source: NetAddr, nNow: int)
    requires id in s.mapInfo
    ensures RecordsKept(s, Insert(bk, s, id, source, nNow), {})
  {
    hide ClearNew, Ref, CanClear, Delete, CanDelete, RecordsKept, MayDisplace;
    var sl := AddSlot(bk, s.nKey, s.mapInfo[id], source);
    CountedRecords(s, s);
    if CanDelete(s, id) {
      DeleteRecords(s, id);
    }
    if CanClear(s, sl) && id in ClearNew(s, sl).mapInfo {
      ClearRecords(s, sl);
      RefRecords(ClearNew(s, sl), sl, id);
      RecordsTwice(s, ClearNew(s, sl), Ref(ClearNew(s, sl), sl, id), {});
    }
  }

  // ----- into the tried table

  /** The slot an evicted entry returns to. */
  function ReturnSlot(bk: Buckets, nKey: nat, info: AddrInfo): Slot {
    NewSlot(bk, nKey, info, bk.fresh_(nKey, info.address.service, info.source))
  }

  /** Puts the entry of a tried slot back among the new ones.  Like the other composite operations
      it stops where an assertion of the source would fail; `DisplaceKeeps` shows that none does. */
  function Displace(bk: Buckets, s: State, sl: Slot): State
    requires sl in s.vvTried && s.vvTried[sl] in s.mapInfo
  {
    var old_, s1 := s.vvTried[sl], Evict(s, sl);
    var usl := ReturnSlot(bk, s.nKey, s.mapInfo[old_]);
    if !CanClear(s1, usl) || old_ !in ClearNew(s1, usl).mapInfo then s else
      var s2 := Ref(ClearNew(s1, usl), usl, old_);
      s2.(nNew := s2.nNew + 1)
  }

  /** The evicted entry is a new one again, with one reference, in the slot its hash gives it. */
  lemma DisplaceKeeps(bk: Buckets, s: State, sl: Slot, id: int)
    requires Inv(bk, s, {id}, 1) && sl in s.vvTried
    ensures s.vvTried[sl] in s.mapInfo && s.vvTried[sl] != id
    ensures var s', old_ := Displace(bk, s, sl), s.vvTried[sl];
      && Inv(bk, s', {id}, 1) && SameButPos(s.mapInfo[id], s'.mapInfo[id])
      && s'.vvTried == s.vvTried - {sl} && s'.nKey == s.nKey
      && old_ in s'.mapInfo && !s'.mapInfo[old_].fInTried && s'.mapInfo[old_].nRefCount == 1
      && s'.vvNew == s.vvNew[ReturnSlot(bk, s.nKey, s.mapInfo[old_]) := old_]
  {
    hide Indexed, Placed, Evict, ClearNew, Ref, Displace;
    EvictKeeps(bk, s, sl, {id}, 1);
    DisplaceRest(bk, s, Evict(s, sl), sl, id);
  }

  lemma DisplaceRest(bk: Buckets, s: State, s1: State, sl: Slot, id: int)
    requires sl in s.vvTried && s.vvTried[sl] in s.mapInfo && s1 == Evict(s, sl) && s.vvTried[sl] != id && id in s.mapInfo
    requires Inv(bk, s1, {id} + {s.vvTried[sl]}, 2)
    ensures var s', old_ := Displace(bk, s, sl), s.vvTried[sl];
      && Inv(bk, s', {id}, 1) && SameButPos(s.mapInfo[id], s'.mapInfo[id])
      && s'.vvTried == s.vvTried - {sl} && s'.nKey == s.nKey
      && old_ in s'.mapInfo && !s'.mapInfo[old_].fInTried && s'.mapInfo[old_].nRefCount == 1
      && s'.vvNew == s.vvNew[ReturnSlot(bk, s.nKey, s.mapInfo[old_]) := old_]
  {
    hide Indexed, Placed, ClearNew;
    var old_ := s.vvTried[sl];
    var usl := ReturnSlot(bk, s.nKey, s.mapInfo[old_]);
    var loose := {id} + {old_};
    ClearNewKeeps(bk, s1, usl, loose, 2);
    var s2 := ClearNew(s1, usl);
    assert SameButPos(s1.mapInfo[old_], s2.mapInfo[old_]) && SameButPos(s1.mapInfo[id], s2.mapInfo[id]);
    RefKeeps(bk, s2, usl, old_, loose, 2);
    assert loose - {old_} == {id};
    assert (s1.vvNew - {usl})[usl := old_] == s1.vvNew[usl := old_];
    CountBack(bk, Ref(s2, usl, old_), {id}, 2);
  }

  /** Counting one entry more as new. */
  lemma CountBack(bk: Buckets, s: State, loose: set<int>, off: int)
    requires Inv(bk, s, loose, off)
    ensures Inv(bk, s.(nNew := s.nNew + 1), loose, off - 1)
  {
  }

  function MakeTried(bk: Buckets, s: State, id: int): State
    requires id in s.mapInfo
  {
    var s1 := Release(s, id);
    var sl := TriedSlot(bk, s.nKey, s.mapInfo[id]);
    var s2 := if sl in s1.vvTried && s1.vvTried[sl] in s1.mapInfo then Displace(bk, s1, sl) else s1;
    if id in s2.mapInfo then PutTried(s2, sl, id) else s
  }

  /** The new table once an entry has moved to a tried slot: its own slots are free, and the entry that
      held the tried slot, if any, has the slot its hash gives it. */
  ghost predicate MovedToTried(bk: Buckets, s: State, s': State, id: int)
    requires id in s.mapInfo
  {
    var sl, without := TriedSlot(bk, s.nKey, s.mapInfo[id]), WithoutId(s.vvNew, id);
    && s'.vvTried == s.vvTried[sl := id]
    && (sl !in s.vvTried || s.vvTried[sl] == id ==> s'.vvNew == without)
    && (sl in s.vvTried && s.vvTried[sl] != id ==>
          var old_ := s.vvTried[sl];
          && old_ in s.mapInfo && s'.vvNew == without[ReturnSlot(bk, s.nKey, s.mapInfo[old_]) := old_]
          && old_ in s'.mapInfo && !s'.mapInfo[old_].fInTried && s'.mapInfo[old_].nRefCount == 1)
  }

  /** The stages of `MakeTried`, none of which trips an assertion. */
  lemma MakeTriedStages(bk: Buckets, s: State, id: int) returns (s1: State, s2: State)
    requires Consistent(bk, s) && id in s.mapInfo && !s.mapInfo[id].fInTried && s.mapInfo[id].nLastSuccess != 0
    ensures s1 == Release(s, id) && id in s2.mapInfo && SameButPos(s1.mapInfo[id], s2.mapInfo[id])
    ensures Displaced(bk, s, s1, s2, id) && s2.nKey == s.nKey
    ensures Inv(bk, s2, {id}, 1)
    ensures MakeTried(bk, s, id) == PutTried(s2, TriedSlot(bk, s.nKey, s.mapInfo[id]), id)
  {
    hide Indexed, Placed, Displace, WithoutId;
    ReleaseKeeps(bk, s, id, {}, 0);
    s1 := Release(s, id);
    assert {} + {id} == {id};
    var sl := TriedSlot(bk, s.nKey, s.mapInfo[id]);
    if sl in s1.vvTried {
      DisplaceKeeps(bk, s1, sl, id);
      s2 := Displace(bk, s1, sl);
    } else {
      s2 := s1;
    }
  }

  /** The tried slot is free, its holder, if there was one, being a new entry again. */
  ghost predicate Displaced(bk: Buckets, s: State, s1: State, s2: State, id: int)
    requires id in s.mapInfo
  {
    var sl := TriedSlot(bk, s.nKey, s.mapInfo[id]);
    && s1.vvTried == s.vvTried && s1.nKey == s.nKey
    && (sl !in s.vvTried ==> s2 == s1)
    && (sl in s.vvTried ==>
          var old_ := s.vvTried[sl];
          && old_ in s1.mapInfo && old_ != id && s2.vvTried == s1.vvTried - {sl}
          && s2.vvNew == s1.vvNew[ReturnSlot(bk, s1.nKey, s1.mapInfo[old_]) := old_]
          && old_ in s2.mapInfo && !s2.mapInfo[old_].fInTried && s2.mapInfo[old_].nRefCount == 1)
  }

  /** `MakeTried` trips no assertion, also when the tried slot is taken, and the entry ends up there,
      with all that was known about it and about the others. */
  lemma MakeTriedKeeps(bk: Buckets, s: State, id: int)
    requires Consistent(bk, s) && id in s.mapInfo && !s.mapInfo[id].fInTried && s.mapInfo[id].nLastSuccess != 0
    ensures var s' := MakeTried(bk, s, id);
      && Consistent(bk, s') && id in s'.mapInfo
      && SameButPos(s'.mapInfo[id], s.mapInfo[id].(fInTried := true, nRefCount := 0))
      && MovedToTried(bk, s, s', id) && RecordsKept(s, s', {})
  {
    MakeTriedRecords(bk, s, id);
    var s1, s2 := MakeTriedStages(bk, s, id);
    hide Inv, RecordsKept, MovedToTried, MakeTried;
    MoveIs(bk, s, s1, s2, id);
    TriedSlotFree(bk, s, s1, s2, id);
    hide Displaced;
    PutTriedKeeps(bk, s2, id, {id}, 1);
    assert {id} - {id} == {};
  }

  lemma TriedSlotFree(bk: Buckets, s: State, s1: State, s2: State, id: int)
    requires id in s.mapInfo && id in s2.mapInfo && s1 == Release(s, id) && s2.nKey == s.nKey
    requires Displaced(bk, s, s1, s2, id) && SameButPos(s1.mapInfo[id], s2.mapInfo[id])
    ensures TriedSlot(bk, s2.nKey, s2.mapInfo[id]) == TriedSlot(bk, s.nKey, s.mapInfo[id])
    ensures TriedSlot(bk, s.nKey, s.mapInfo[id]) !in s2.vvTried
  {
  }

  lemma MoveIs(bk: Buckets, s: State, s1: State, s2: State, id: int)
    requires id in s.mapInfo && s1 == Release(s, id) && id in s2.mapInfo && Displaced(bk, s, s1, s2, id)
    ensures MovedToTried(bk, s, PutTried(s2, TriedSlot(bk, s.nKey, s.mapInfo[id]), id), id)
  {
    hide WithoutId, NewSlot;
    var sl := TriedSlot(bk, s.nKey, s.mapInfo[id]);
    assert (s.vvTried - {sl})[sl := id] == s.vvTried[sl := id];
  }

  function Good(bk: Buckets, s: State, service: Service, nTime: int): State {
    var id := FindExact(s, service);
    if id == -1 then s else
      var info := s.mapInfo[id].(nLastSuccess := nTime, nLastTry := nTime, nAttempts := 0);
      var s1 := SetInfo(s, id, info);
      if info.fInTried then s1 else MakeTried(bk, s1, id)
  }

  /** A good address that is known is in the tried table afterwards, and its success recorded. */
  lemma GoodKeeps(bk: Buckets, s: State, service: Service, nTime: int)
    requires Consistent(bk, s) && nTime > 0
    ensures Consistent(bk, Good(bk, s, service, nTime))
    ensures var id, s' := FindExact(s, service), Good(bk, s, service, nTime);
      if id == -1 then s' == s
      else && id in s'.mapInfo && s'.mapInfo[id].address == s.mapInfo[id].address && s'.mapInfo[id].fInTried
           && s'.mapInfo[id].nLastSuccess == s'.mapInfo[id].nLastTry == nTime && s'.mapInfo[id].nAttempts == 0
           && s'.mapInfo[id].source == s.mapInfo[id].source
           && (var sl := TriedSlot(bk, s.nKey, s.mapInfo[id]); sl in s'.vvTried && s'.vvTried[sl] == id)
           && RecordsKept(s, s', {id})
           && (if s.mapInfo[id].fInTried then s'.vvNew == s.vvNew && s'.vvTried == s.vvTried else MovedToTried(bk, s, s', id))
  {
    var id := FindExact(s, service);
    if id != -1 {
      var info := s.mapInfo[id].(nLastSuccess := nTime, nLastTry := nTime, nAttempts := 0);
      InvEntries(bk, s);
      SetInfoKeeps(bk, s, id, info, {}, 0);
      var s1 := SetInfo(s, id, info);
      if info.fInTried {
        TriedIsSeated(bk, s1, id);
      } else {
        hide Inv, MakeTried, RecordsKept, MovedToTried;
        MakeTriedKeeps(bk, s1, id);
        UpdatedFirst(bk, s, s1, MakeTried(bk, s1, id), id);
      }
    }
  }

  lemma UpdatedFirst(bk: Buckets, s: State, s1: State, s': State, id: int)
    requires id in s.mapInfo && id in s1.mapInfo && s1 == SetInfo(s, id, s1.mapInfo[id])
    requires s1.mapInfo[id].address == s.mapInfo[id].address
    requires RecordsKept(s1, s', {}) && MovedToTried(bk, s1, s', id)
    ensures RecordsKept(s, s', {id}) && MovedToTried(bk, s, s', id)
    ensures var sl := TriedSlot(bk, s.nKey, s.mapInfo[id]); sl in s'.vvTried && s'.vvTried[sl] == id
    ensures id in s'.mapInfo ==> SameRecord(s'.mapInfo[id], s1.mapInfo[id])
  {
    hide WithoutId;
  }

  lemma TriedIsSeated(bk: Buckets, s: State, id: int)
    requires Consistent(bk, s) && id in s.mapInfo && s.mapInfo[id].fInTried
    ensures var sl := TriedSlot(bk, s.nKey, s.mapInfo[id]); sl in s.vvTried && s.vvTried[sl] == id
  {
  }

  /** The search of `Good_` for a bucket that holds the entry cannot fail. */
  lemma NewEntryHasBucket(bk: Buckets, s: State, id: int) returns (b: NewBucket)
    requires Consistent(bk, s) && id in s.mapInfo && !s.mapInfo[id].fInTried
    ensures var sl := NewSlot(bk, s.nKey, s.mapInfo[id], b); sl in s.vvNew && s.vvNew[sl] == id
  {
    assert |SlotsOf(s.vvNew, id)| >= 1;
    var sl :| sl in SlotsOf(s.vvNew, id);
    b := sl.0;
    assert sl == NewSlot(bk, s.nKey, s.mapInfo[id], b);
  }

  // ----- into the new table

  /** The slot `Add_` tries to give an entry. */
  function AddSlot(bk: Buckets, nKey: nat, info: AddrInfo, source: NetAddr): Slot {
    NewSlot(bk, nKey, info, bk.fresh_(nKey, info.address.service, source))
  }

  /** The end of `Add_`: the entry takes the slot if it is free or its holder may be displaced; an
      entry that has no slot at all is forgotten. */
  function Insert(bk: Buckets, s: State, id: int, source: NetAddr, nNow: int): State
    requires id in s.mapInfo
  {
    var sl := AddSlot(bk, s.nKey, s.mapInfo[id], source);
    if sl in s.vvNew && s.vvNew[sl] == id then s
    else if sl !in s.vvNew || (s.vvNew[sl] in s.mapInfo && MayDisplace(s.mapInfo[s.vvNew[sl]], s.mapInfo[id], nNow)) then
      if CanClear(s, sl) && id in ClearNew(s, sl).mapInfo then Ref(ClearNew(s, sl), sl, id) else s
    else if s.mapInfo[id].nRefCount == 0 && CanDelete(s, id) then Delete(s, id)
    else s
  }

  /** What makes an entry terrible, unless it was tried within the last minute: it is from the future, has
      not been heard of for a month, never answered in three attempts, or has not answered for a week in
      ten. */
  lemma TerribleExactly(info: AddrInfo, nNow: int)
    ensures info.IsTerrible(nNow) <==>
      && (info.nLastTry == 0 || nNow - info.nLastTry > 60)
      && (|| info.address.nTime - nNow > 600
          || info.address.nTime == 0 || nNow - info.address.nTime > 2592000
          || (info.nLastSuccess == 0 && info.nAttempts >= 3)
          || (nNow - info.nLastSuccess > 604800 && info.nAttempts >= 10))
  {
  }

  predicate MayDisplace(infoExisting: AddrInfo, info: AddrInfo, nNow: int) {
    infoExisting.IsTerrible(nNow) || (infoExisting.nRefCount > 1 && info.nRefCount == 0)
  }

  /** The same but for its place in `vRandom` and the number of its references. */
  predicate SameButSlots(a: AddrInfo, b: AddrInfo) {
    a.(nRandomPos := 0, nRefCount := 0) == b.(nRandomPos := 0, nRefCount := 0)
  }

  lemma InsertKeeps(bk: Buckets, s: State, id: int, source: NetAddr, nNow: int, loose: set<int>)
    requires Inv(bk, s, loose, 0) && id in s.mapInfo && !s.mapInfo[id].fInTried
    requires loose == (if s.mapInfo[id].nRefCount == 0 then {id} else {}) && s.mapInfo[id].nRefCount < NEW_BUCKETS_PER_ADDRESS
    ensures var s', sl := Insert(bk, s, id, source, nNow), AddSlot(bk, s.nKey, s.mapInfo[id], source);
      && Consistent(bk, s') && s'.vvTried == s.vvTried && s'.nKey == s.nKey
      && s'.vvNew == (if sl !in s.vvNew || (s.vvNew[sl] in s.mapInfo && MayDisplace(s.mapInfo[s.vvNew[sl]], s.mapInfo[id], nNow))
                      then s.vvNew[sl := id] else s.vvNew)
      && (id in s'.mapInfo <==> loose == {} || (sl in s'.vvNew && s'.vvNew[sl] == id))
      && (id in s'.mapInfo ==> SameButSlots(s'.mapInfo[id], s.mapInfo[id]))
  {
    hide Indexed, Placed, ClearNew, Delete;
    var sl := AddSlot(bk, s.nKey, s.mapInfo[id], source);
    if sl in s.vvNew && s.vvNew[sl] == id {
      UnrefKeeps(bk, s, sl, loose, 0);
      assert s.vvNew[sl := id] == s.vvNew;
    } else if sl !in s.vvNew || (s.vvNew[sl] in s.mapInfo && MayDisplace(s.mapInfo[s.vvNew[sl]], s.mapInfo[id], nNow)) {
      ClearNewKeeps(bk, s, sl, loose, 0);
      var s1 := ClearNew(s, sl);
      assert SameButPos(s.mapInfo[id], s1.mapInfo[id]);
      RefKeeps(bk, s1, sl, id, loose, 0);
      assert loose - {id} == {};
      assert (s.vvNew - {sl})[sl := id] == s.vvNew[sl := id];
    } else if s.mapInfo[id].nRefCount == 0 {
      DeleteKeeps(bk, s, id, loose, 0);
      assert loose - {id} == {};
    }
  }

  /** What `Add_` does first to an entry it already has: bring its time and services up to date. */
  function Refresh(info: AddrInfo, addr: Address, nTimePenalty: int, nNow: int): AddrInfo {
    var nUpdateInterval := if nNow - addr.nTime < 24 * 60 * 60 then 60 * 60 else 24 * 60 * 60;
    var nTime := if addr.nTime != 0 && (info.address.nTime == 0 || info.address.nTime < addr.nTime - nUpdateInterval - nTimePenalty)
                 then Max(0, addr.nTime - nTimePenalty) else info.address.nTime;
    info.(address := Address(info.address.service, info.address.nServices + addr.nServices, nTime))
  }

  lemma RefreshDetails(info: AddrInfo, addr: Address, nTimePenalty: int, nNow: int)
    ensures var r := Refresh(info, addr, nTimePenalty, nNow);
      SameButPos(r, info.(address := r.address)) && r.nRandomPos == info.nRandomPos && r.address.service == info.address.service
  {
  }

  /** The time recorded stays what it was or becomes the time heard less the penalty, whichever is not too
      far behind; the services heard are added to those known. */
  predicate Refreshed(info: AddrInfo, before: AddrInfo, addr: Address, nTimePenalty: int, nNow: int) {
    var nUpdateInterval := if nNow - addr.nTime < 24 * 60 * 60 then 60 * 60 else 24 * 60 * 60;
    var nTime := info.address.nTime;
    && SameButSlots(info, before.(address := info.address)) && info.address.service == before.address.service
    && info.address.nServices == before.address.nServices + addr.nServices
    && (nTime == before.address.nTime || (addr.nTime != 0 && nTime == Max(0, addr.nTime - nTimePenalty)))
    && (addr.nTime == 0 ==> nTime == before.address.nTime)
    && (addr.nTime != 0 && before.address.nTime != 0 ==> nTime >= addr.nTime - nUpdateInterval - nTimePenalty)
    && (addr.nTime != 0 && before.address.nTime == 0 ==> nTime == Max(0, addr.nTime - nTimePenalty))
    && (before.address.nTime != 0 && before.address.nTime >= addr.nTime - nUpdateInterval - nTimePenalty ==> nTime == before.address.nTime)
  }

  lemma RefreshIs(info: AddrInfo, addr: Address, nTimePenalty: int, nNow: int)
    ensures Refreshed(Refresh(info, addr, nTimePenalty, nNow), info, addr, nTimePenalty, nNow)
  {
  }

  /** Whether an entry already known is given another slot; `nRnd` is the number drawn below
      two to the power of its references. */
  predicate WantsAnotherSlot(info: AddrInfo, addr: Address, nRnd: int)
  {
    && addr.nTime != 0 && !(info.address.nTime != 0 && addr.nTime <= info.address.nTime)
    && !info.fInTried
    && info.nRefCount != NEW_BUCKETS_PER_ADDRESS
    && (info.nRefCount > 0 ==> nRnd == 0)
  }

  /** `Add_`; the second part of the result is its return value. */
  function Add(bk: Buckets, s: State, routable: bool, addr: Address, source: NetAddr, nTimePenalty: int, nNow: int, nRnd: int)
    : (State, bool)
  {
    if !routable then (s, false) else
      var id := Find(s, addr.service.ip);
      if id != -1 then
        var info := Refresh(s.mapInfo[id], addr, nTimePenalty, nNow);
        var s1 := SetInfo(s, id, info);
        (if WantsAnotherSlot(info, addr, nRnd) then Insert(bk, s1, id, source, nNow) else s1, false)
      else
        (Insert(bk, Enter(s, addr, source, nTimePenalty), s.nIdCount, source, nNow), true)
  }

  /** A slot goes to a newcomer if it is free, or its holder is terrible, or, when the newcomer has no
      slot yet, its holder has others. */
  ghost predicate Yields(s: State, sl: Slot, hasSlot: bool, nNow: int) {
    sl in s.vvNew ==>
      && s.vvNew[sl] in s.mapInfo
      && (s.mapInfo[s.vvNew[sl]].IsTerrible(nNow) || (s.mapInfo[s.vvNew[sl]].nRefCount > 1 && !hasSlot))
  }

  /** An unknown address gets an entry, with its time penalized, exactly when the slot its hash gives it
      yields; the slot is then its own, and nothing else is put anywhere. */
  ghost predicate AddedFresh(bk: Buckets, s: State, s': State, addr: Address, source: NetAddr, nTimePenalty: int, nNow: int) {
    var id, info := s.nIdCount, AddrInfo(addr.(nTime := Max(0, addr.nTime - nTimePenalty)), source, 0, 0, 0, 0, false, 0);
    var sl := AddSlot(bk, s.nKey, info, source);
    && s'.nIdCount == s.nIdCount + 1 && s'.nKey == s.nKey
    && (id in s'.mapInfo <==> Yields(s, sl, false, nNow))
    && s'.vvNew == (if Yields(s, sl, false, nNow) then s.vvNew[sl := id] else s.vvNew)
    && (id in s'.mapInfo ==> SameButSlots(s'.mapInfo[id], info))
    && (forall n :: n in s'.mapInfo && n != id ==> n in s.mapInfo && SameRecord(s'.mapInfo[n], s.mapInfo[n]))
  }

  /** A known address keeps its entry, brought up to date.  If it was heard of more recently than is
      recorded, is not tried, has fewer than eight slots, and the draw says so, it gets the slot its hash
      gives it, provided that yields. */
  ghost predicate AddedKnown(bk: Buckets, s: State, s': State, id: int, addr: Address, source: NetAddr, nTimePenalty: int, nNow: int, nRnd: int)
  {
    && id in s.mapInfo && id in s'.mapInfo
    && Refreshed(s'.mapInfo[id], s.mapInfo[id], addr, nTimePenalty, nNow)
    && RecordsKept(s, s', {id})
    && var before, sl := s.mapInfo[id], AddSlot(bk, s.nKey, s.mapInfo[id], source);
       var nTime := s'.mapInfo[id].address.nTime;
       s'.vvNew == if && addr.nTime != 0 && (nTime == 0 || nTime < addr.nTime)
                      && !before.fInTried && before.nRefCount < NEW_BUCKETS_PER_ADDRESS && (before.nRefCount > 0 ==> nRnd == 0)
                      && Yields(s, sl, true, nNow)
                   then s.vvNew[sl := id] else s.vvNew
  }

  /** A new entry, counted as new, with its time penalized. */
  function Enter(s: State, addr: Address, source: NetAddr, nTimePenalty: int): State {
    var info := Create(s, addr, source).mapInfo[s.nIdCount];
    SetInfo(Create(s, addr, source), s.nIdCount, info.(address := addr.(nTime := Max(0, addr.nTime - nTimePenalty)))).(nNew := s.nNew + 1)
  }

  lemma EnterKeeps(bk: Buckets, s: State, addr: Address, source: NetAddr, nTimePenalty: int)
    requires Consistent(bk, s) && addr.service.ip !in s.mapAddr
    ensures Inv(bk, Enter(s, addr, source, nTimePenalty), {s.nIdCount}, 0)
  {
    hide Indexed, Placed;
    CreateKeeps(bk, s, addr, source, {}, 0);
    assert {} + {s.nIdCount} == {s.nIdCount};
    var s1 := Create(s, addr, source);
    var info := s1.mapInfo[s.nIdCount].(address := addr.(nTime := Max(0, addr.nTime - nTimePenalty)));
    SetInfoKeeps(bk, s1, s.nIdCount, info, {s.nIdCount}, 1);
    CountBack(bk, SetInfo(s1, s.nIdCount, info), {s.nIdCount}, 1);
  }

  /** `Add_` keeps the tables consistent and leaves the tried one alone; it reports a new address
      exactly when the address was routable and unknown. */
  lemma AddKeeps(bk: Buckets, s: State, routable: bool, addr: Address, source: NetAddr, nTimePenalty: int, nNow: int, nRnd: int)
    requires Consistent(bk, s)
    ensures var (s', fNew) := Add(bk, s, routable, addr, source, nTimePenalty, nNow, nRnd);
      && Consistent(bk, s') && s'.vvTried == s.vvTried
      && (fNew <==> routable && addr.service.ip !in s.mapAddr)
      && (!routable ==> s' == s)
      && (routable && !fNew ==> AddedKnown(bk, s, s', s.mapAddr[addr.service.ip], addr, source, nTimePenalty, nNow, nRnd))
      && (fNew ==> AddedFresh(bk, s, s', addr, source, nTimePenalty, nNow))
  {
    hide Placed, Insert, Enter, Refresh, AddedKnown, AddedFresh;
    if routable {
      var id := Find(s, addr.service.ip);
      if id != -1 {
        AddKnownKeeps(bk, s, id, addr, source, nTimePenalty, nNow, nRnd);
      } else {
        EnterKeeps(bk, s, addr, source, nTimePenalty);
        AddFreshKeeps(bk, s, addr, source, nTimePenalty, nNow);
      }
    }
  }

  lemma AddKnownKeeps(bk: Buckets, s: State, id: int, addr: Address, source: NetAddr, nTimePenalty: int, nNow: int, nRnd: int)
    requires Consistent(bk, s) && id in s.mapInfo
    ensures var info := Refresh(s.mapInfo[id], addr, nTimePenalty, nNow);
      var s1 := SetInfo(s, id, info);
      var s' := if WantsAnotherSlot(info, addr, nRnd) then Insert(bk, s1, id, source, nNow) else s1;
      && Consistent(bk, s') && s'.vvTried == s.vvTried
      && AddedKnown(bk, s, s', id, addr, source, nTimePenalty, nNow, nRnd)
  {
    hide Inv, Insert, AddedKnown, Refreshed;
    InvEntries(bk, s);
    var info := Refresh(s.mapInfo[id], addr, nTimePenalty, nNow);
    var s1 := SetInfo(s, id, info);
    RefreshIs(s.mapInfo[id], addr, nTimePenalty, nNow);
    RefreshDetails(s.mapInfo[id], addr, nTimePenalty, nNow);
    SetInfoKeeps(bk, s, id, info, {}, 0);
    if WantsAnotherSlot(info, addr, nRnd) {
      InsertKeeps(bk, s1, id, source, nNow, {});
      InsertRecords(bk, s1, id, source, nNow);
      KnownInserted(bk, s, s1, Insert(bk, s1, id, source, nNow), id, addr, source, nTimePenalty, nNow, nRnd);
    } else {
      KnownNotInserted(bk, s, s1, id, addr, source, nTimePenalty, nNow, nRnd);
    }
  }

  lemma KnownInserted(bk: Buckets, s: State, s1: State, s': State, id: int, addr: Address, source: NetAddr, nTimePenalty: int, nNow: int, nRnd: int)
    requires id in s.mapInfo && id in s1.mapInfo && id in s'.mapInfo && s1 == SetInfo(s, id, s1.mapInfo[id])
    requires Refreshed(s1.mapInfo[id], s.mapInfo[id], addr, nTimePenalty, nNow) && SameButPos(s1.mapInfo[id], s.mapInfo[id].(address := s1.mapInfo[id].address))
    requires WantsAnotherSlot(s1.mapInfo[id], addr, nRnd) && s1.mapInfo[id].nRefCount > 0 && s1.mapInfo[id].nRefCount <= NEW_BUCKETS_PER_ADDRESS
    requires SameButSlots(s'.mapInfo[id], s1.mapInfo[id]) && RecordsKept(s1, s', {})
    requires var sl := AddSlot(bk, s1.nKey, s1.mapInfo[id], source);
      s'.vvNew == if sl !in s1.vvNew || (s1.vvNew[sl] in s1.mapInfo && MayDisplace(s1.mapInfo[s1.vvNew[sl]], s1.mapInfo[id], nNow))
                  then s1.vvNew[sl := id] else s1.vvNew
    ensures AddedKnown(bk, s, s', id, addr, source, nTimePenalty, nNow, nRnd)
  {
    hide AddrInfo.IsTerrible;
    var sl := AddSlot(bk, s.nKey, s.mapInfo[id], source);
    assert sl in s.vvNew && s.vvNew[sl] == id ==> s.vvNew[sl := id] == s.vvNew;
  }

  lemma KnownNotInserted(bk: Buckets, s: State, s1: State, id: int, addr: Address, source: NetAddr, nTimePenalty: int, nNow: int, nRnd: int)
    requires id in s.mapInfo && id in s1.mapInfo && s1 == SetInfo(s, id, s1.mapInfo[id])
    requires Refreshed(s1.mapInfo[id], s.mapInfo[id], addr, nTimePenalty, nNow) && SameButPos(s1.mapInfo[id], s.mapInfo[id].(address := s1.mapInfo[id].address))
    requires !WantsAnotherSlot(s1.mapInfo[id], addr, nRnd)
    ensures AddedKnown(bk, s, s1, id, addr, source, nTimePenalty, nNow, nRnd)
  {
  }

  lemma AddFreshKeeps(bk: Buckets, s: State, addr: Address, source: NetAddr, nTimePenalty: int, nNow: int)
    requires Consistent(bk, s) && addr.service.ip !in s.mapAddr
    requires Inv(bk, Enter(s, addr, source, nTimePenalty), {s.nIdCount}, 0)
    ensures var s' := Insert(bk, Enter(s, addr, source, nTimePenalty), s.nIdCount, source, nNow);
      && Consistent(bk, s') && s'.vvTried == s.vvTried
      && AddedFresh(bk, s, s', addr, source, nTimePenalty, nNow)
  {
    var s1 := Enter(s, addr, source, nTimePenalty);
    CreateIndexed(s, addr, source);
    NewIdUnused(bk, s);
    hide Inv, Insert;
    InsertKeeps(bk, s1, s.nIdCount, source, nNow, {s.nIdCount});
    InsertRecords(bk, s1, s.nIdCount, source, nNow);
    FreshInserted(bk, s, s1, Insert(bk, s1, s.nIdCount, source, nNow), addr, source, nTimePenalty, nNow);
  }

  /** No entry has the next id. */
  lemma NewIdUnused(bk: Buckets, s: State)
    requires Consistent(bk, s)
    ensures s.nIdCount !in s.mapInfo
    ensures forall sl :: sl in s.vvNew ==> s.vvNew[sl] in s.mapInfo && s.vvNew[sl] != s.nIdCount
  {
  }

  lemma FreshInserted(bk: Buckets, s: State, s1: State, s': State, addr: Address, source: NetAddr, nTimePenalty: int, nNow: int)
    requires s1 == Enter(s, addr, source, nTimePenalty) && s.nIdCount in s1.mapInfo && s.nIdCount !in s.mapInfo
    requires forall sl :: sl in s.vvNew ==> s.vvNew[sl] in s.mapInfo && s.vvNew[sl] != s.nIdCount
    requires RecordsKept(s1, s', {}) && (s.nIdCount in s'.mapInfo ==> SameButSlots(s'.mapInfo[s.nIdCount], s1.mapInfo[s.nIdCount]))
    requires var sl := AddSlot(bk, s1.nKey, s1.mapInfo[s.nIdCount], source);
      && s'.vvNew == (if sl !in s1.vvNew || (s1.vvNew[sl] in s1.mapInfo && MayDisplace(s1.mapInfo[s1.vvNew[sl]], s1.mapInfo[s.nIdCount], nNow))
                      then s1.vvNew[sl := s.nIdCount] else s1.vvNew)
      && (s.nIdCount in s'.mapInfo <==> sl in s'.vvNew && s'.vvNew[sl] == s.nIdCount)
    ensures AddedFresh(bk, s, s', addr, source, nTimePenalty, nNow)
  {
    hide AddrInfo.IsTerrible;
  }

  // ----- reading addresses out

  /** The addresses of the listed entries that are not terrible. */
  function Reported(s: State, ids: seq<int>, nNow: int): (r: seq<Address>)
    requires forall i :: 0 <= i < |ids| ==> ids[i] in s.mapInfo
    ensures |r| <= |ids|
  {
    if ids == [] then [] else
      var rest := Reported(s, ids[..|ids| - 1], nNow);
      var info := s.mapInfo[ids[|ids| - 1]];
      if info.IsTerrible(nNow) then rest else rest + [info.address]
  }

  lemma DistinctAddresses(s: State, i: nat, j: nat)
    requires Indexed(s) && i < j < |s.vRandom|
    ensures s.mapInfo[s.vRandom[i]].address.service.ip != s.mapInfo[s.vRandom[j]].address.service.ip
  {
    var a, b := s.vRandom[i], s.vRandom[j];
    assert a in s.mapInfo && b in s.mapInfo && s.mapInfo[a].nRandomPos == i && s.mapInfo[b].nRandomPos == j;
  }

  /** No address is reported twice. */
  lemma {:induction false} ReportedDistinct(s: State, n: nat, nNow: int)
    requires Indexed(s) && n <= |s.vRandom|
    ensures var r := Reported(s, s.vRandom[..n], nNow);
      && (forall i, j :: 0 <= i < j < |r| ==> r[i].service.ip != r[j].service.ip)
      && (forall i :: 0 <= i < |r| ==> exists k :: 0 <= k < n && s.mapInfo[s.vRandom[k]].address == r[i])
  {
    if n > 0 {
      ReportedDistinct(s, n - 1, nNow);
      var ids := s.vRandom[..n];
      assert ids[..n - 1] == s.vRandom[..n - 1];
      var before, r := Reported(s, ids[..n - 1], nNow), Reported(s, ids, nNow);
      assert before == Reported(s, s.vRandom[..n - 1], nNow);
      var last := s.mapInfo[s.vRandom[n - 1]];
      forall i | 0 <= i < |before| ensures before[i].service.ip != last.address.service.ip {
        var k :| 0 <= k < n - 1 && s.mapInfo[s.vRandom[k]].address == before[i];
        DistinctAddresses(s, k, n - 1);
      }
    }
  }

  /** A table that the counters call non-empty has an occupied slot, so `Select_` can find one. */
  lemma SelectFinds(bk: Buckets, s: State)
    requires Consistent(bk, s)
    ensures s.nTried > 0 ==> s.vvTried != map[]
    ensures s.nNew > 0 ==> s.vvNew != map[]
    ensures |s.vRandom| == s.nTried + s.nNew && s.nTried >= 0 && s.nNew >= 0
  {
    hide Indexed, Placed, NewIds, TriedIds;
    if s.nTried > 0 {
      var n := Any(TriedIds(s));
      TriedHasSlot(bk, s, n);
    }
    if s.nNew > 0 {
      var n := Any(NewIds(s));
      NewHasSlot(bk, s, n);
    }
    SplitIds(s);
    IndexSize(s);
  }

  /** The id in the slot that a draw means, or -1: of a tried table if that is the one searched. */
  function Drawn(s: State, tried: bool, draw: Slot): int {
    if s.nTried > 0 && (s.nNew == 0 || tried) then
      var sl := (draw.0 % TRIED_BUCKET_COUNT, draw.1);
      if sl in s.vvTried then s.vvTried[sl] else -1
    else if draw in s.vvNew then s.vvNew[draw] else -1
  }

  /** The draw finds an entry, and it is accepted. */
  predicate Hits(s: State, tried: bool, draw: Slot, accept: AddrInfo -> bool) {
    var nId := Drawn(s, tried, draw);
    nId != -1 && nId in s.mapInfo && accept(s.mapInfo[nId])
  }

  lemma DrawnEntry(bk: Buckets, s: State, tried: bool, draw: Slot)
    requires Consistent(bk, s)
    ensures var nId := Drawn(s, tried, draw);
      nId != -1 ==> nId in s.mapInfo && s.mapInfo[nId].fInTried == (s.nTried > 0 && (s.nNew == 0 || tried))
  {
  }

  ghost predicate Missed(s: State, tried: bool, draws: seq<Slot>, accept: AddrInfo -> bool, n: nat) {
    n <= |draws| && forall j :: 0 <= j < n ==> !Hits(s, tried, draws[j], accept)
  }

  /** The first draw that hits gives the answer, an entry of the table searched; there is none only if
      no draw hits or there are no entries. */
  ghost predicate Selected(s: State, tried: bool, draws: seq<Slot>, accept: AddrInfo -> bool, r: seq<Address>, n: nat) {
    && Missed(s, tried, draws, accept, n)
    && (r == [] <==> |s.vRandom| == 0 || n == |draws|)
    && (r != [] ==> Hits(s, tried, draws[n], accept))
    && (r != [] ==>
          var info := s.mapInfo[Drawn(s, tried, draws[n])];
          r == [info.address] && info.fInTried == (s.nTried > 0 && (s.nNew == 0 || tried)))
  }

  lemma SelectedBy(s: State, tried: bool, draws: seq<Slot>, accept: AddrInfo -> bool, n: nat, nId: int)
    requires n < |draws| && Missed(s, tried, draws, accept, n) && s.vRandom != []
    requires nId == Drawn(s, tried, draws[n])
    requires nId != -1 ==> nId in s.mapInfo && s.mapInfo[nId].fInTried == (s.nTried > 0 && (s.nNew == 0 || tried))
    ensures if nId != -1 && accept(s.mapInfo[nId]) then Selected(s, tried, draws, accept, [s.mapInfo[nId].address], n)
            else Missed(s, tried, draws, accept, n + 1)
  {
  }

  lemma Any(ids: set<int>) returns (n: int)
    requires |ids| > 0
    ensures n in ids
  {
    assert (forall n :: n !in ids) ==> ids == {};
    n :| n in ids;
  }

  lemma TriedHasSlot(bk: Buckets, s: State, n: int)
    requires Consistent(bk, s) && n in TriedIds(s)
    ensures s.vvTried != map[]
  {
    TriedIsSeated(bk, s, n);
  }

  lemma NewHasSlot(bk: Buckets, s: State, n: int)
    requires Consistent(bk, s) && n in NewIds(s)
    ensures s.vvNew != map[]
  {
    var b := NewEntryHasBucket(bk, s, n);
  }

  lemma SplitIds(s: State)
    ensures |s.mapInfo.Keys| == |NewIds(s)| + |TriedIds(s)|
  {
    assert s.mapInfo.Keys == NewIds(s) + TriedIds(s);
  }

  lemma IndexSize(s: State)
    requires Indexed(s)
    ensures |s.vRandom| == |s.mapInfo.Keys|
  {
    var ids := set i | 0 <= i < |s.vRandom| :: s.vRandom[i];
    assert ids == s.mapInfo.Keys by {
      forall n | n in s.mapInfo ensures n in ids {
        assert s.vRandom[s.mapInfo[n].nRandomPos] == n;
      }
    }
    DistinctSize(s.vRandom);
  }

  lemma {:induction false} DistinctSize(v: seq<int>)
    requires forall i, j :: 0 <= i < j < |v| ==> v[i] != v[j]
    ensures |set i | 0 <= i < |v| :: v[i]| == |v|
  {
    if v != [] {
      var k := |v| - 1;
      DistinctSize(v[..k]);
      assert (set i | 0 <= i < |v| :: v[i]) == (set i | 0 <= i < k :: v[..k][i]) + {v[k]};
    }
  }
}
