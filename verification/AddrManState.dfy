/** The address manager as a value: the four indexes of `CAddrMan` (src/addrman.h), what each
    operation of src/addrman.cpp does to them, and the consistency that all of them keep. */
module AddrManState {

  const TRIED_BUCKET_COUNT := 256
  const NEW_BUCKET_COUNT := 1024
  const BUCKET_SIZE := 64
  const NEW_BUCKETS_PER_ADDRESS := 8
  const HORIZON_DAYS := 30
  const RETRIES := 3
  const MAX_FAILURES := 10
  const MIN_FAIL_DAYS := 7

  type TriedBucket = b: int | 0 <= b < TRIED_BUCKET_COUNT
  type NewBucket = b: int | 0 <= b < NEW_BUCKET_COUNT
  type Position = p: int | 0 <= p < BUCKET_SIZE

  /** A CNetAddr. */
  type NetAddr = nat

  /** A CService: an address and a port. */
  datatype Service = Service(ip: NetAddr, port: nat)

  /** A CAddress; the service bits are kept as the set of their numbers. */
  datatype Address = Address(service: Service, nServices: set<nat>, nTime: int)

  datatype AddrInfo = AddrInfo(address: Address, source: NetAddr, nLastSuccess: int, nLastTry: int, nAttempts: int,
                               nRefCount: int, fInTried: bool, nRandomPos: int) {

    predicate IsTerrible(nNow: int) {
      if nLastTry != 0 && nLastTry >= nNow - 60 then false
      else if address.nTime > nNow + 10 * 60 then true
      else if address.nTime == 0 || nNow - address.nTime > HORIZON_DAYS * 24 * 60 * 60 then true
      else if nLastSuccess == 0 && nAttempts >= RETRIES then true
      else nNow - nLastSuccess > MIN_FAIL_DAYS * 24 * 60 * 60 && nAttempts >= MAX_FAILURES
    }
  }

  /** The hashes that place an address, under the secret key. */
  datatype Buckets = Buckets(tried: (nat, Service) -> TriedBucket,
                             fresh_: (nat, Service, NetAddr) -> NewBucket,
                             position: (nat, Service, bool, int) -> Position)

  /** A bucket and a position in it. */
  type Slot = (int, int)

  /** A bucket table without its empty (-1) slots. */
  type Table = map<Slot, int>

  datatype State = State(nKey: nat, nIdCount: int, mapInfo: map<int, AddrInfo>, mapAddr: map<NetAddr, int>, vRandom: seq<int>,
                         nTried: int, vvTried: Table, nNew: int, vvNew: Table)

  // ----- tables

  function SlotsOf(t: Table, id: int): set<Slot> {
    set sl | sl in t && t[sl] == id
  }

  lemma SlotsPut(t: Table, sl: Slot, id: int)
    requires sl !in t
    ensures SlotsOf(t[sl := id], id) == SlotsOf(t, id) + {sl}
    ensures |SlotsOf(t[sl := id], id)| == |SlotsOf(t, id)| + 1
    ensures forall n :: n != id ==> SlotsOf(t[sl := id], n) == SlotsOf(t, n)
  {
    assert SlotsOf(t[sl := id], id) == SlotsOf(t, id) + {sl};
  }

  lemma SlotsRemove(t: Table, sl: Slot)
    requires sl in t
    ensures |SlotsOf(t - {sl}, t[sl])| == |SlotsOf(t, t[sl])| - 1
    ensures forall n :: n != t[sl] ==> SlotsOf(t - {sl}, n) == SlotsOf(t, n)
  {
    assert SlotsOf(t, t[sl]) == SlotsOf(t - {sl}, t[sl]) + {sl};
  }

  function WithoutId(t: Table, id: int): Table {
    map sl | sl in t && t[sl] != id :: t[sl]
  }

  lemma SlotsWithout(t: Table, id: int)
    ensures SlotsOf(WithoutId(t, id), id) == {}
    ensures forall n :: n != id ==> SlotsOf(WithoutId(t, id), n) == SlotsOf(t, n)
  {
  }

  // ----- where an entry belongs

  function TriedSlot(bk: Buckets, nKey: nat, info: AddrInfo): Slot {
    var b := bk.tried(nKey, info.address.service);
    (b, bk.position(nKey, info.address.service, false, b))
  }

  function NewSlot(bk: Buckets, nKey: nat, info: AddrInfo, bucket: int): Slot {
    (bucket, bk.position(nKey, info.address.service, true, bucket))
  }

  // ----- the invariant

  function NewIds(s: State): set<int> {
    set n | n in s.mapInfo && !s.mapInfo[n].fInTried
  }

  function TriedIds(s: State): set<int> {
    set n | n in s.mapInfo && s.mapInfo[n].fInTried
  }

  /** `mapInfo`, `mapAddr` and `vRandom` index the same entries. */
  ghost predicate Indexed(s: State) {
    && (forall n :: n in s.mapInfo ==>
          var info := s.mapInfo[n];
          && 0 <= n < s.nIdCount
          && 0 <= info.nRandomPos < |s.vRandom| && s.vRandom[info.nRandomPos] == n
          && info.address.service.ip in s.mapAddr && s.mapAddr[info.address.service.ip] == n)
    && (forall i :: 0 <= i < |s.vRandom| ==> s.vRandom[i] in s.mapInfo && s.mapInfo[s.vRandom[i]].nRandomPos == i)
    && (forall ip :: ip in s.mapAddr ==> s.mapAddr[ip] in s.mapInfo && s.mapInfo[s.mapAddr[ip]].address.service.ip == ip)
  }

  /** Each entry of a table is where its hash puts it, and the reference counts count. */
  ghost predicate Placed(bk: Buckets, s: State) {
    && (forall sl :: sl in s.vvNew ==>
          && 0 <= sl.0 < NEW_BUCKET_COUNT && s.vvNew[sl] in s.mapInfo && !s.mapInfo[s.vvNew[sl]].fInTried
          && sl == NewSlot(bk, s.nKey, s.mapInfo[s.vvNew[sl]], sl.0))
    && (forall sl :: sl in s.vvTried ==>
          && s.vvTried[sl] in s.mapInfo && s.mapInfo[s.vvTried[sl]].fInTried
          && sl == TriedSlot(bk, s.nKey, s.mapInfo[s.vvTried[sl]]))
    && (forall n :: n in s.mapInfo && s.mapInfo[n].fInTried ==>
          var sl := TriedSlot(bk, s.nKey, s.mapInfo[n]); sl in s.vvTried && s.vvTried[sl] == n)
    && (forall n :: n in s.mapInfo ==> s.mapInfo[n].nRefCount == |SlotsOf(s.vvNew, n)|)
  }

  /** What `Check_` asks of a single entry.  `loose` entries are on their way into a table. */
  ghost predicate EntryOk(info: AddrInfo, isLoose: bool) {
    && (info.fInTried ==> info.nLastSuccess != 0 && !isLoose)
    && info.nRefCount <= NEW_BUCKETS_PER_ADDRESS
    && (!info.fInTried && !isLoose ==> info.nRefCount >= 1)
    && (isLoose ==> info.nRefCount == 0)
    && info.nLastTry >= 0 && info.nLastSuccess >= 0
  }

  /** `off` is how far `nNew` runs behind. */
  ghost predicate Inv(bk: Buckets, s: State, loose: set<int>, off: int) {
    && Indexed(s)
    && Placed(bk, s)
    && (forall n :: n in s.mapInfo ==> EntryOk(s.mapInfo[n], n in loose))
    && loose <= s.mapInfo.Keys
    && s.nTried == |TriedIds(s)| && s.nNew + off == |NewIds(s)|
    && s.nKey != 0 && s.nIdCount >= 0
  }

  ghost predicate Consistent(bk: Buckets, s: State) {
    Inv(bk, s, {}, 0)
  }

  // ----- the small operations

  function Find(s: State, ip: NetAddr): (id: int)
    ensures id == -1 || (ip in s.mapAddr && id == s.mapAddr[ip] && id in s.mapInfo)
  {
    if ip in s.mapAddr && s.mapAddr[ip] in s.mapInfo then s.mapAddr[ip] else -1
  }

  function Create(s: State, addr: Address, source: NetAddr): State {
    var info := AddrInfo(addr, source, 0, 0, 0, 0, false, |s.vRandom|);
    s.(nIdCount := s.nIdCount + 1, mapInfo := s.mapInfo[s.nIdCount := info],
       mapAddr := s.mapAddr[addr.service.ip := s.nIdCount], vRandom := s.vRandom + [s.nIdCount])
  }

  function SwapRandom(s: State, i: int, j: int): State
    requires 0 <= i < |s.vRandom| && 0 <= j < |s.vRandom|
    requires s.vRandom[i] in s.mapInfo && s.vRandom[j] in s.mapInfo
  {
    if i == j then s else
      var id1, id2 := s.vRandom[i], s.vRandom[j];
      var m1 := s.mapInfo[id1 := s.mapInfo[id1].(nRandomPos := j)];
      s.(mapInfo := m1[id2 := m1[id2].(nRandomPos := i)], vRandom := s.vRandom[i := id2][j := id1])
  }

  predicate CanDelete(s: State, id: int) {
    && id in s.mapInfo && s.vRandom != []
    && 0 <= s.mapInfo[id].nRandomPos < |s.vRandom| && s.vRandom[s.mapInfo[id].nRandomPos] in s.mapInfo
    && s.vRandom[|s.vRandom| - 1] in s.mapInfo
  }

  /** Forgets an entry that `vRandom` lists last. */
  function DropLast(s: State, id: int): State
    requires id in s.mapInfo && s.vRandom != []
  {
    s.(vRandom := s.vRandom[..|s.vRandom| - 1], mapAddr := s.mapAddr - {s.mapInfo[id].address.service.ip},
       mapInfo := s.mapInfo - {id}, nNew := s.nNew - 1)
  }

  function Delete(s: State, id: int): State
    requires CanDelete(s, id)
  {
    DropLast(SwapRandom(s, s.mapInfo[id].nRandomPos, |s.vRandom| - 1), id)
  }

  /** One reference less, from slot `sl`. */
  function Unref(s: State, sl: Slot): State
    requires sl in s.vvNew && s.vvNew[sl] in s.mapInfo
  {
    var id := s.vvNew[sl];
    s.(vvNew := s.vvNew - {sl}, mapInfo := s.mapInfo[id := s.mapInfo[id].(nRefCount := s.mapInfo[id].nRefCount - 1)])
  }

  predicate CanClear(s: State, sl: Slot) {
    sl in s.vvNew ==> s.vvNew[sl] in s.mapInfo && s.mapInfo[s.vvNew[sl]].nRefCount > 0 && CanDelete(Unref(s, sl), s.vvNew[sl])
  }

  function ClearNew(s: State, sl: Slot): State
    requires CanClear(s, sl)
  {
    if sl !in s.vvNew then s else
      var id, s1 := s.vvNew[sl], Unref(s, sl);
      if s1.mapInfo[id].nRefCount == 0 then Delete(s1, id) else s1
  }

  /** One reference more, in the free slot `sl`. */
  function Ref(s: State, sl: Slot, id: int): State
    requires id in s.mapInfo
  {
    s.(vvNew := s.vvNew[sl := id], mapInfo := s.mapInfo[id := s.mapInfo[id].(nRefCount := s.mapInfo[id].nRefCount + 1)])
  }

  /** All references gone, and the entry no longer counted as new. */
  function Release(s: State, id: int): State
    requires id in s.mapInfo
  {
    s.(vvNew := WithoutId(s.vvNew, id), nNew := s.nNew - 1, mapInfo := s.mapInfo[id := s.mapInfo[id].(nRefCount := 0)])
  }

  /** The entry of a tried slot put out of it. */
  function Evict(s: State, sl: Slot): State
    requires sl in s.vvTried && s.vvTried[sl] in s.mapInfo
  {
    var id := s.vvTried[sl];
    s.(vvTried := s.vvTried - {sl}, nTried := s.nTried - 1, mapInfo := s.mapInfo[id := s.mapInfo[id].(fInTried := false)])
  }

  function PutTried(s: State, sl: Slot, id: int): State
    requires id in s.mapInfo
  {
    s.(vvTried := s.vvTried[sl := id], nTried := s.nTried + 1, mapInfo := s.mapInfo[id := s.mapInfo[id].(fInTried := true)])
  }

  /** Two entries that differ at most in where `vRandom` lists them. */
  predicate SameButPos(a: AddrInfo, b: AddrInfo) {
    a.(nRandomPos := 0) == b.(nRandomPos := 0)
  }

  // ----- lemmas about them

  /** Moving entries about in `vRandom` only. */
  ghost predicate Reordered(s: State, s': State) {
    && s'.mapInfo.Keys == s.mapInfo.Keys && (forall n :: n in s.mapInfo ==> SameButPos(s.mapInfo[n], s'.mapInfo[n]))
    && s'.nKey == s.nKey && s'.nIdCount == s.nIdCount && s'.mapAddr == s.mapAddr
    && s'.nTried == s.nTried && s'.vvTried == s.vvTried && s'.nNew == s.nNew && s'.vvNew == s.vvNew
  }

  lemma ReorderedKeeps(bk: Buckets, s: State, s': State, loose: set<int>, off: int)
    requires Inv(bk, s, loose, off) && Reordered(s, s') && Indexed(s')
    ensures Inv(bk, s', loose, off)
  {
    hide Indexed, Placed;
    ReorderedPlaced(bk, s, s');
    forall n | n in s.mapInfo ensures s'.mapInfo[n].fInTried == s.mapInfo[n].fInTried && EntryOk(s'.mapInfo[n], n in loose) {
      assert SameButPos(s.mapInfo[n], s'.mapInfo[n]);
    }
    SameIds(s, s');
  }

  lemma SameIds(s: State, s': State)
    requires s'.mapInfo.Keys == s.mapInfo.Keys && forall n :: n in s.mapInfo ==> s'.mapInfo[n].fInTried == s.mapInfo[n].fInTried
    ensures NewIds(s') == NewIds(s) && TriedIds(s') == TriedIds(s)
  {
    assert forall n :: n in NewIds(s') <==> n in NewIds(s);
    assert forall n :: n in TriedIds(s') <==> n in TriedIds(s);
  }

  lemma ReorderedPlaced(bk: Buckets, s: State, s': State)
    requires Placed(bk, s) && Reordered(s, s')
    ensures Placed(bk, s')
  {
    forall n | n in s.mapInfo ensures s'.mapInfo[n].address == s.mapInfo[n].address && s'.mapInfo[n].fInTried == s.mapInfo[n].fInTried {
      assert SameButPos(s.mapInfo[n], s'.mapInfo[n]);
    }
  }

  lemma SwapRandomReorders(s: State, i: int, j: int)
    requires Indexed(s) && 0 <= i < |s.vRandom| && 0 <= j < |s.vRandom|
    ensures Reordered(s, SwapRandom(s, i, j))
  {
  }

  /** `vRandom` lists the entries where they say they are. */
  ghost predicate Lists(s: State) {
    && (forall n :: n in s.mapInfo ==> 0 <= s.mapInfo[n].nRandomPos < |s.vRandom| && s.vRandom[s.mapInfo[n].nRandomPos] == n)
    && (forall k :: 0 <= k < |s.vRandom| ==> s.vRandom[k] in s.mapInfo && s.mapInfo[s.vRandom[k]].nRandomPos == k)
  }

  /** Where everything is after a swap. */
  lemma SwapRandomAt(s: State, i: int, j: int)
    requires Lists(s) && 0 <= i < |s.vRandom| && 0 <= j < |s.vRandom|
    ensures var s', id1, id2 := SwapRandom(s, i, j), s.vRandom[i], s.vRandom[j];
      && |s'.vRandom| == |s.vRandom| && s'.mapInfo.Keys == s.mapInfo.Keys
      && (forall n :: n in s.mapInfo ==> s'.mapInfo[n].nRandomPos == if n == id1 then j else if n == id2 then i else s.mapInfo[n].nRandomPos)
      && (forall k :: 0 <= k < |s.vRandom| ==> s'.vRandom[k] == if k == j then id1 else if k == i then id2 else s.vRandom[k])
  {
  }

  lemma SwapRandomLists(s: State, i: int, j: int)
    requires Lists(s) && 0 <= i < |s.vRandom| && 0 <= j < |s.vRandom|
    ensures Lists(SwapRandom(s, i, j))
  {
    SwapRandomAt(s, i, j);
    hide SwapRandom;
    var s' := SwapRandom(s, i, j);
    forall n | n in s'.mapInfo ensures 0 <= s'.mapInfo[n].nRandomPos < |s'.vRandom| && s'.vRandom[s'.mapInfo[n].nRandomPos] == n {
      assert s.vRandom[s.mapInfo[n].nRandomPos] == n;
    }
    forall k | 0 <= k < |s'.vRandom| ensures s'.vRandom[k] in s'.mapInfo && s'.mapInfo[s'.vRandom[k]].nRandomPos == k {
      assert s.mapInfo[s.vRandom[k]].nRandomPos == k;
    }
  }

  lemma SwapRandomIndexed(s: State, i: int, j: int)
    requires Indexed(s) && 0 <= i < |s.vRandom| && 0 <= j < |s.vRandom|
    ensures Indexed(SwapRandom(s, i, j))
  {
    var s' := SwapRandom(s, i, j);
    SwapRandomReorders(s, i, j);
    SwapRandomLists(s, i, j);
    hide SwapRandom;
    forall n | n in s'.mapInfo ensures s'.mapInfo[n].address == s.mapInfo[n].address {
      assert SameButPos(s.mapInfo[n], s'.mapInfo[n]);
    }
  }

  lemma SwapRandomKeeps(bk: Buckets, s: State, loose: set<int>, off: int, i: int, j: int)
    requires Inv(bk, s, loose, off) && 0 <= i < |s.vRandom| && 0 <= j < |s.vRandom|
    ensures Inv(bk, SwapRandom(s, i, j), loose, off) && Reordered(s, SwapRandom(s, i, j))
  {
    SwapRandomIndexed(s, i, j);
    SwapRandomReorders(s, i, j);
    ReorderedKeeps(bk, s, SwapRandom(s, i, j), loose, off);
  }

  /** What `Delete` leaves alone. */
  ghost predicate DeletedOnly(s: State, s': State, id: int) {
    && s'.mapInfo.Keys == s.mapInfo.Keys - {id}
    && (forall n :: n in s'.mapInfo ==> SameButPos(s.mapInfo[n], s'.mapInfo[n]))
    && s'.nKey == s.nKey && s'.nIdCount == s.nIdCount
    && s'.nTried == s.nTried && s'.vvTried == s.vvTried && s'.vvNew == s.vvNew && s'.nNew == s.nNew - 1
  }

  lemma DropLastIndexed(s: State, id: int)
    requires Indexed(s) && id in s.mapInfo && s.mapInfo[id].nRandomPos == |s.vRandom| - 1
    ensures Indexed(DropLast(s, id)) && DeletedOnly(s, DropLast(s, id), id)
  {
    var s' := DropLast(s, id);
    forall i | 0 <= i < |s'.vRandom| ensures s'.vRandom[i] != id {
      assert s.mapInfo[s.vRandom[i]].nRandomPos == i;
    }
    forall n | n in s'.mapInfo ensures s.mapInfo[n].address.service.ip != s.mapInfo[id].address.service.ip && s.mapInfo[n].nRandomPos < |s'.vRandom| {
      assert s.vRandom[s.mapInfo[n].nRandomPos] == n;
    }
  }

  lemma DeletedKeeps(bk: Buckets, s: State, s': State, id: int, loose: set<int>, off: int)
    requires Inv(bk, s, loose, off) && id in loose && DeletedOnly(s, s', id) && Indexed(s')
    ensures Inv(bk, s', loose - {id}, off)
  {
    DeletedPlaced(bk, s, s', id);
    hide Indexed, Placed;
    forall n | n in s'.mapInfo
      ensures EntryOk(s'.mapInfo[n], n in loose - {id}) && s'.mapInfo[n].fInTried == s.mapInfo[n].fInTried
    {
      assert SameButPos(s.mapInfo[n], s'.mapInfo[n]);
    }
    OneMore(s', s, id);
  }

  lemma DeletedPlaced(bk: Buckets, s: State, s': State, id: int)
    requires Placed(bk, s) && id in s.mapInfo && s.mapInfo[id].nRefCount == 0 && !s.mapInfo[id].fInTried && DeletedOnly(s, s', id)
    ensures Placed(bk, s')
  {
    assert SlotsOf(s.vvNew, id) == {};
    forall n | n in s'.mapInfo ensures s'.mapInfo[n].address == s.mapInfo[n].address && s'.mapInfo[n].fInTried == s.mapInfo[n].fInTried {
      assert SameButPos(s.mapInfo[n], s'.mapInfo[n]);
    }
    forall sl | sl in s.vvNew ensures s.vvNew[sl] != id {
      assert s.vvNew[sl] == id ==> sl in SlotsOf(s.vvNew, id);
    }
  }

  /** Neither assertion of `Delete` fires for a loose entry, and it goes without a trace. */
  lemma DeleteKeeps(bk: Buckets, s: State, id: int, loose: set<int>, off: int)
    requires Inv(bk, s, loose, off) && id in loose
    ensures CanDelete(s, id) && !s.mapInfo[id].fInTried && s.mapInfo[id].nRefCount == 0
    ensures Inv(bk, Delete(s, id), loose - {id}, off) && DeletedOnly(s, Delete(s, id), id)
  {
    hide Indexed, Placed, SwapRandom;
    var i, j := s.mapInfo[id].nRandomPos, |s.vRandom| - 1;
    SwapToLast(s, id);
    SwapRandomKeeps(bk, s, loose, off, i, j);
    DeleteSwapped(bk, s, SwapRandom(s, i, j), id, loose, off);
  }

  lemma SwapToLast(s: State, id: int)
    requires Indexed(s) && id in s.mapInfo
    ensures CanDelete(s, id)
    ensures SwapRandom(s, s.mapInfo[id].nRandomPos, |s.vRandom| - 1).mapInfo[id].nRandomPos == |s.vRandom| - 1
    ensures |SwapRandom(s, s.mapInfo[id].nRandomPos, |s.vRandom| - 1).vRandom| == |s.vRandom|
  {
  }

  lemma DeleteSwapped(bk: Buckets, s: State, s1: State, id: int, loose: set<int>, off: int)
    requires Inv(bk, s1, loose, off) && id in loose && Reordered(s, s1)
    requires s1.mapInfo[id].nRandomPos == |s1.vRandom| - 1
    ensures s1.vRandom != [] && Inv(bk, DropLast(s1, id), loose - {id}, off) && DeletedOnly(s, DropLast(s1, id), id)
  {
    assert 0 <= s1.mapInfo[id].nRandomPos;
    DropLastIndexed(s1, id);
    DeletedKeeps(bk, s1, DropLast(s1, id), id, loose, off);
    ReorderedDeleted(s, s1, DropLast(s1, id), id);
  }

  lemma ReorderedDeleted(s: State, s1: State, s': State, id: int)
    requires Reordered(s, s1) && DeletedOnly(s1, s', id)
    ensures DeletedOnly(s, s', id)
  {
    forall n | n in s'.mapInfo ensures SameButPos(s.mapInfo[n], s'.mapInfo[n]) {
      assert SameButPos(s.mapInfo[n], s1.mapInfo[n]) && SameButPos(s1.mapInfo[n], s'.mapInfo[n]);
    }
  }

  // ----- changing one entry

  ghost predicate OneEntry(s: State, s': State, id: int) {
    && id in s.mapInfo && id in s'.mapInfo && s'.mapInfo == s.mapInfo[id := s'.mapInfo[id]]
    && s'.mapInfo[id].address.service == s.mapInfo[id].address.service && s'.mapInfo[id].nRandomPos == s.mapInfo[id].nRandomPos
    && s'.mapAddr == s.mapAddr && s'.vRandom == s.vRandom && s'.nIdCount == s.nIdCount && s'.nKey == s.nKey
  }

  lemma OneEntryIndexed(s: State, s': State, id: int)
    requires Indexed(s) && OneEntry(s, s', id)
    ensures Indexed(s')
  {
  }

  function NewCount(info: AddrInfo): int {
    if info.fInTried then 0 else 1
  }

  lemma Flipped(s: State, s': State, id: int)
    requires id in s.mapInfo && id in s'.mapInfo && s'.mapInfo == s.mapInfo[id := s'.mapInfo[id]]
    requires !s.mapInfo[id].fInTried && s'.mapInfo[id].fInTried
    ensures |NewIds(s)| == |NewIds(s')| + 1 && |TriedIds(s')| == |TriedIds(s)| + 1
  {
    assert NewIds(s) == NewIds(s') + {id};
    assert TriedIds(s') == TriedIds(s) + {id};
  }

  lemma OneEntryCounts(s: State, s': State, id: int)
    requires OneEntry(s, s', id)
    ensures |NewIds(s')| == |NewIds(s)| + NewCount(s'.mapInfo[id]) - NewCount(s.mapInfo[id])
    ensures |TriedIds(s')| == |TriedIds(s)| - NewCount(s'.mapInfo[id]) + NewCount(s.mapInfo[id])
  {
    if s'.mapInfo[id].fInTried == s.mapInfo[id].fInTried {
      assert NewIds(s') == NewIds(s) && TriedIds(s') == TriedIds(s);
    } else if s'.mapInfo[id].fInTried {
      Flipped(s, s', id);
    } else {
      Flipped(s', s, id);
    }
  }

  /** Changing one entry keeps the invariant if it keeps the tables in order. */
  lemma OneEntryKeeps(bk: Buckets, s: State, s': State, id: int, loose: set<int>, off: int, isLoose: bool, off': int)
    requires Inv(bk, s, loose, off) && OneEntry(s, s', id) && Placed(bk, s') && EntryOk(s'.mapInfo[id], isLoose)
    requires s'.nNew + off' == s.nNew + off + NewCount(s'.mapInfo[id]) - NewCount(s.mapInfo[id])
    requires s'.nTried == s.nTried - NewCount(s'.mapInfo[id]) + NewCount(s.mapInfo[id])
    ensures Inv(bk, s', if isLoose then loose + {id} else loose - {id}, off')
  {
    hide Indexed, Placed, NewIds, TriedIds;
    OneEntryIndexed(s, s', id);
    OneEntryCounts(s, s', id);
  }

  /** An entry's own data may change freely. */
  lemma DetailsPlaced(bk: Buckets, s: State, s': State, id: int)
    requires Placed(bk, s) && OneEntry(s, s', id) && s'.vvNew == s.vvNew && s'.vvTried == s.vvTried
    requires s'.mapInfo[id].fInTried == s.mapInfo[id].fInTried && s'.mapInfo[id].nRefCount == s.mapInfo[id].nRefCount
    ensures Placed(bk, s')
  {
  }

  lemma UnrefPlaced(bk: Buckets, s: State, sl: Slot)
    requires Placed(bk, s) && sl in s.vvNew
    ensures Placed(bk, Unref(s, sl)) && OneEntry(s, Unref(s, sl), s.vvNew[sl]) && s.mapInfo[s.vvNew[sl]].nRefCount >= 1
  {
    SlotsRemove(s.vvNew, sl);
    assert |SlotsOf(s.vvNew - {sl}, s.vvNew[sl])| >= 0;
  }

  lemma UnrefKeeps(bk: Buckets, s: State, sl: Slot, loose: set<int>, off: int)
    requires Inv(bk, s, loose, off) && sl in s.vvNew
    ensures s.vvNew[sl] in s.mapInfo
    ensures var id := s.vvNew[sl];
      && s.mapInfo[id].nRefCount > 0 && id !in loose
      && Inv(bk, Unref(s, sl), if s.mapInfo[id].nRefCount == 1 then loose + {id} else loose - {id}, off)
  {
    var id := s.vvNew[sl];
    UnrefPlaced(bk, s, sl);
    hide Indexed, Placed;
    OneEntryKeeps(bk, s, Unref(s, sl), id, loose, off, s.mapInfo[id].nRefCount == 1, off);
  }

  /** What `ClearNew` leaves alone: all but the entry of the slot it clears. */
  ghost predicate ClearedOnly(s: State, s': State, sl: Slot) {
    && s'.vvNew == s.vvNew - {sl} && s'.vvTried == s.vvTried && s'.nTried == s.nTried
    && s'.nKey == s.nKey && s'.nIdCount == s.nIdCount
    && s'.mapInfo.Keys <= s.mapInfo.Keys
    && (forall n :: n in s.mapInfo && (sl in s.vvNew ==> n != s.vvNew[sl]) ==> n in s'.mapInfo && SameButPos(s.mapInfo[n], s'.mapInfo[n]))
  }

  /** `ClearNew` frees the slot, trips no assertion, and drops the entry only with its last reference. */
  lemma ClearNewKeeps(bk: Buckets, s: State, sl: Slot, loose: set<int>, off: int)
    requires Inv(bk, s, loose, off)
    ensures CanClear(s, sl)
    ensures Inv(bk, ClearNew(s, sl), loose, off) && ClearedOnly(s, ClearNew(s, sl), sl)
    ensures forall n :: n in loose ==> n in ClearNew(s, sl).mapInfo && SameButPos(s.mapInfo[n], ClearNew(s, sl).mapInfo[n])
  {
    hide Indexed, Placed;
    if sl in s.vvNew {
      var id := s.vvNew[sl];
      UnrefKeeps(bk, s, sl, loose, off);
      UnrefDeletable(bk, s, sl, loose, off);
      if s.mapInfo[id].nRefCount == 1 {
        DeleteKeeps(bk, Unref(s, sl), id, loose + {id}, off);
        assert (loose + {id}) - {id} == loose;
      } else {
        assert loose - {id} == loose;
      }
    } else {
      assert s.vvNew - {sl} == s.vvNew;
    }
  }

  lemma UnrefDeletable(bk: Buckets, s: State, sl: Slot, loose: set<int>, off: int)
    requires Inv(bk, s, loose, off) && sl in s.vvNew
    ensures s.vvNew[sl] in s.mapInfo && CanDelete(Unref(s, sl), s.vvNew[sl])
  {
    UnrefPlaced(bk, s, sl);
    OneEntryIndexed(s, Unref(s, sl), s.vvNew[sl]);
    SwapToLast(Unref(s, sl), s.vvNew[sl]);
  }

  lemma RefPlaced(bk: Buckets, s: State, sl: Slot, id: int)
    requires Placed(bk, s) && id in s.mapInfo && sl !in s.vvNew && !s.mapInfo[id].fInTried
    requires 0 <= sl.0 < NEW_BUCKET_COUNT && sl == NewSlot(bk, s.nKey, s.mapInfo[id], sl.0)
    ensures Placed(bk, Ref(s, sl, id))
  {
    RefNewSlots(bk, s, sl, id);
    RefCounts(s, sl, id);
    hide NewSlot, SlotsOf;
    var s' := Ref(s, sl, id);
    assert forall n :: n in s.mapInfo ==>
      s'.mapInfo[n].address == s.mapInfo[n].address && s'.mapInfo[n].fInTried == s.mapInfo[n].fInTried;
  }

  lemma RefNewSlots(bk: Buckets, s: State, sl: Slot, id: int)
    requires Placed(bk, s) && id in s.mapInfo && sl !in s.vvNew && !s.mapInfo[id].fInTried
    requires 0 <= sl.0 < NEW_BUCKET_COUNT && sl == NewSlot(bk, s.nKey, s.mapInfo[id], sl.0)
    ensures var s' := Ref(s, sl, id);
      forall x :: x in s'.vvNew ==>
        && 0 <= x.0 < NEW_BUCKET_COUNT && s'.vvNew[x] in s'.mapInfo && !s'.mapInfo[s'.vvNew[x]].fInTried
        && x == NewSlot(bk, s'.nKey, s'.mapInfo[s'.vvNew[x]], x.0)
  {
    hide SlotsOf, TriedSlot;
    var s' := Ref(s, sl, id);
    forall x | x in s'.vvNew
      ensures 0 <= x.0 < NEW_BUCKET_COUNT && s'.vvNew[x] in s'.mapInfo && !s'.mapInfo[s'.vvNew[x]].fInTried
      ensures x == NewSlot(bk, s'.nKey, s'.mapInfo[s'.vvNew[x]], x.0)
    {
      assert x == sl || x in s.vvNew;
    }
  }

  lemma RefCounts(s: State, sl: Slot, id: int)
    requires id in s.mapInfo && sl !in s.vvNew && forall n :: n in s.mapInfo ==> s.mapInfo[n].nRefCount == |SlotsOf(s.vvNew, n)|
    ensures var s' := Ref(s, sl, id); forall n :: n in s'.mapInfo ==> s'.mapInfo[n].nRefCount == |SlotsOf(s'.vvNew, n)|
  {
    SlotsPut(s.vvNew, sl, id);
    hide SlotsOf;
  }

  lemma RefKeeps(bk: Buckets, s: State, sl: Slot, id: int, loose: set<int>, off: int)
    requires Inv(bk, s, loose, off) && id in s.mapInfo && sl !in s.vvNew
    requires !s.mapInfo[id].fInTried && s.mapInfo[id].nRefCount < NEW_BUCKETS_PER_ADDRESS
    requires 0 <= sl.0 < NEW_BUCKET_COUNT && sl == NewSlot(bk, s.nKey, s.mapInfo[id], sl.0)
    ensures Inv(bk, Ref(s, sl, id), loose - {id}, off)
  {
    RefPlaced(bk, s, sl, id);
    OneEntryKeeps(bk, s, Ref(s, sl, id), id, loose, off, false, off);
  }

  lemma CreateIndexed(s: State, addr: Address, source: NetAddr)
    requires Indexed(s) && addr.service.ip !in s.mapAddr && s.nIdCount >= 0
    ensures s.nIdCount !in s.mapInfo && Indexed(Create(s, addr, source))
  {
  }

  lemma CreatePlaced(bk: Buckets, s: State, addr: Address, source: NetAddr)
    requires Placed(bk, s) && s.nIdCount !in s.mapInfo
    ensures Placed(bk, Create(s, addr, source))
  {
    assert SlotsOf(s.vvNew, s.nIdCount) == {};
  }

  /** The counts when a new entry comes, or goes. */
  lemma OneMore(s: State, s': State, id: int)
    requires id !in s.mapInfo && s'.mapInfo.Keys == s.mapInfo.Keys + {id} && !s'.mapInfo[id].fInTried
    requires forall n :: n in s.mapInfo ==> s'.mapInfo[n].fInTried == s.mapInfo[n].fInTried
    ensures |NewIds(s')| == |NewIds(s)| + 1 && |TriedIds(s')| == |TriedIds(s)|
  {
    var before := s'.(mapInfo := s'.mapInfo - {id});
    SameIds(s, before);
    assert NewIds(s') == NewIds(before) + {id};
    assert TriedIds(s') == TriedIds(before);
  }

  lemma CreateKeeps(bk: Buckets, s: State, addr: Address, source: NetAddr, loose: set<int>, off: int)
    requires Inv(bk, s, loose, off) && addr.service.ip !in s.mapAddr
    ensures s.nIdCount !in s.mapInfo
    ensures Inv(bk, Create(s, addr, source), loose + {s.nIdCount}, off + 1)
  {
    hide Indexed, Placed;
    CreateIndexed(s, addr, source);
    CreatePlaced(bk, s, addr, source);
    OneMore(s, Create(s, addr, source), s.nIdCount);
  }

  lemma ReleasePlaced(bk: Buckets, s: State, id: int)
    requires Placed(bk, s) && id in s.mapInfo && !s.mapInfo[id].fInTried
    ensures Placed(bk, Release(s, id))
  {
    SlotsWithout(s.vvNew, id);
  }

  lemma ReleaseKeeps(bk: Buckets, s: State, id: int, loose: set<int>, off: int)
    requires Inv(bk, s, loose, off) && id in s.mapInfo && !s.mapInfo[id].fInTried
    ensures Inv(bk, Release(s, id), loose + {id}, off + 1)
  {
    ReleasePlaced(bk, s, id);
    OneEntryKeeps(bk, s, Release(s, id), id, loose, off, true, off + 1);
  }

  lemma NoSlots(bk: Buckets, s: State, id: int)
    requires Placed(bk, s) && id in s.mapInfo && s.mapInfo[id].nRefCount == 0
    ensures forall x :: x in s.vvNew ==> s.vvNew[x] != id
  {
    assert SlotsOf(s.vvNew, id) == {};
    forall x | x in s.vvNew ensures s.vvNew[x] != id {
      assert s.vvNew[x] == id ==> x in SlotsOf(s.vvNew, id);
    }
  }

  lemma EvictPlaced(bk: Buckets, s: State, sl: Slot)
    requires Placed(bk, s) && sl in s.vvTried && s.mapInfo[s.vvTried[sl]].nRefCount == 0
    ensures Placed(bk, Evict(s, sl))
  {
    NoSlots(bk, s, s.vvTried[sl]);
  }

  /** A tried entry has no references. */
  lemma TriedUnreferenced(bk: Buckets, s: State, id: int)
    requires Placed(bk, s) && id in s.mapInfo && s.mapInfo[id].fInTried
    ensures s.mapInfo[id].nRefCount == 0
  {
    assert forall x :: x in s.vvNew ==> s.vvNew[x] != id;
    assert SlotsOf(s.vvNew, id) == {};
  }

  lemma EvictKeeps(bk: Buckets, s: State, sl: Slot, loose: set<int>, off: int)
    requires Inv(bk, s, loose, off) && sl in s.vvTried
    ensures s.vvTried[sl] in s.mapInfo && s.vvTried[sl] !in loose
    ensures Inv(bk, Evict(s, sl), loose + {s.vvTried[sl]}, off + 1)
  {
    TriedUnreferenced(bk, s, s.vvTried[sl]);
    EvictPlaced(bk, s, sl);
    OneEntryKeeps(bk, s, Evict(s, sl), s.vvTried[sl], loose, off, true, off + 1);
  }

  lemma PutTriedPlaced(bk: Buckets, s: State, id: int)
    requires Placed(bk, s) && id in s.mapInfo && s.mapInfo[id].nRefCount == 0 && !s.mapInfo[id].fInTried
    requires TriedSlot(bk, s.nKey, s.mapInfo[id]) !in s.vvTried
    ensures Placed(bk, PutTried(s, TriedSlot(bk, s.nKey, s.mapInfo[id]), id))
  {
    NoSlots(bk, s, id);
  }

  lemma PutTriedKeeps(bk: Buckets, s: State, id: int, loose: set<int>, off: int)
    requires Inv(bk, s, loose, off) && id in loose && s.mapInfo[id].nLastSuccess != 0
    requires TriedSlot(bk, s.nKey, s.mapInfo[id]) !in s.vvTried
    ensures Inv(bk, PutTried(s, TriedSlot(bk, s.nKey, s.mapInfo[id]), id), loose - {id}, off - 1)
  {
    PutTriedPlaced(bk, s, id);
    OneEntryKeeps(bk, s, PutTried(s, TriedSlot(bk, s.nKey, s.mapInfo[id]), id), id, loose, off, false, off - 1);
  }
}
