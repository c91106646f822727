/** `Check_`, the address manager's own consistency check (src/addrman.cpp), and how much of the
    invariant it sees. */
module AddrManCheck {
  import opened AddrManState
  import opened AddrMan
  import Ops = AddrManOps

  /** `mapAddr[ip]`, which is 0 for an address that is not there. */
  function Lookup(mapAddr: map<NetAddr, int>, ip: NetAddr): int {
    if ip in mapAddr then mapAddr[ip] else 0
  }

  /** The test of one entry. */
  predicate EntryChecks(s: State, n: int)
    requires n in s.mapInfo
  {
    var info := s.mapInfo[n];
    && (if info.fInTried then info.nLastSuccess != 0 && info.nRefCount == 0 else 0 < info.nRefCount <= NEW_BUCKETS_PER_ADDRESS)
    && Lookup(s.mapAddr, info.address.service.ip) == n
    && 0 <= info.nRandomPos < |s.vRandom| && s.vRandom[info.nRandomPos] == n
    && info.nLastTry >= 0 && info.nLastSuccess >= 0
  }

  ghost predicate TriedChecks(bk: Buckets, s: State) {
    && (forall sl :: sl in s.vvTried ==> TriedSlotChecks(bk, s, sl))
    && (forall n :: n in TriedIds(s) ==> var sl := TriedSlot(bk, s.nKey, s.mapInfo[n]); sl in s.vvTried && s.vvTried[sl] == n)
  }

  ghost predicate TriedSlotChecks(bk: Buckets, s: State, sl: Slot)
    requires sl in s.vvTried
  {
    s.vvTried[sl] in TriedIds(s) && sl == TriedSlot(bk, s.nKey, s.mapInfo[s.vvTried[sl]])
  }

  ghost predicate NewChecks(bk: Buckets, s: State) {
    && (forall sl :: sl in s.vvNew ==> NewSlotChecks(bk, s, sl))
    && (forall n :: n in NewIds(s) ==> s.mapInfo[n].nRefCount == |SlotsOf(s.vvNew, n)|)
  }

  ghost predicate NewSlotChecks(bk: Buckets, s: State, sl: Slot)
    requires sl in s.vvNew
  {
    s.vvNew[sl] in NewIds(s) && sl == NewSlot(bk, s.nKey, s.mapInfo[s.vvNew[sl]], sl.0)
  }

  /** What `Check_` establishes when it returns 0. */
  ghost predicate Checked(bk: Buckets, s: State) {
    && |s.vRandom| == s.nTried + s.nNew
    && (forall n :: n in s.mapInfo ==> EntryChecks(s, n))
    && |TriedIds(s)| == s.nTried && |NewIds(s)| == s.nNew
    && TriedChecks(bk, s) && NewChecks(bk, s)
    && s.nKey != 0
  }

  /** What it does not look at: the range of the ids, and whether `mapAddr` lists anything else. */
  ghost predicate Unseen(s: State) {
    && s.nIdCount >= 0
    && (forall n :: n in s.mapInfo ==> 0 <= n < s.nIdCount && s.mapInfo[n].address.service.ip in s.mapAddr)
    && (forall ip :: ip in s.mapAddr ==> s.mapAddr[ip] in s.mapInfo && s.mapInfo[s.mapAddr[ip]].address.service.ip == ip)
    && (forall sl :: sl in s.vvNew ==> 0 <= sl.0 < NEW_BUCKET_COUNT)
  }

  /** Together they are the invariant: in particular no entry of `vRandom` can be stray, because the
      entries of `mapInfo` already take up all its places. */
  lemma CheckedIffConsistent(bk: Buckets, s: State)
    ensures Consistent(bk, s) <==> Checked(bk, s) && Unseen(s)
  {
    if Consistent(bk, s) {
      ConsistentIsChecked(bk, s);
    }
    if Checked(bk, s) && Unseen(s) {
      CheckedIsConsistent(bk, s);
    }
  }

  /** An address that `mapAddr` lists for no entry is never noticed. */
  lemma StrayIsUnseen(bk: Buckets, s: State, ip: NetAddr, id: int)
    requires Consistent(bk, s) && ip !in s.mapAddr
    ensures var stray := s.(mapAddr := s.mapAddr[ip := id]);
      Checked(bk, stray) && !Consistent(bk, stray)
  {
    ConsistentIsChecked(bk, s);
    var stray := s.(mapAddr := s.mapAddr[ip := id]);
    forall n | n in stray.mapInfo ensures EntryChecks(stray, n) {
      assert EntryChecks(s, n) && s.mapInfo[n].address.service.ip in s.mapAddr;
    }
    assert TriedIds(stray) == TriedIds(s) && NewIds(stray) == NewIds(s);
    StrayChecks(bk, s, stray);
    assert id in s.mapInfo ==> s.mapInfo[id].address.service.ip in s.mapAddr;
    assert stray.mapAddr[ip] == id;
  }

  lemma StrayChecks(bk: Buckets, s: State, stray: State)
    requires stray == s.(mapAddr := stray.mapAddr) && TriedChecks(bk, s) && NewChecks(bk, s)
    requires TriedIds(stray) == TriedIds(s) && NewIds(stray) == NewIds(s)
    ensures TriedChecks(bk, stray) && NewChecks(bk, stray)
  {
    assert forall sl :: sl in s.vvTried ==> TriedSlotChecks(bk, s, sl);
    assert forall sl :: sl in s.vvNew ==> NewSlotChecks(bk, s, sl);
  }

  /** The least such state: one address listed, and no entry. */
  lemma StrayAddress(bk: Buckets)
    ensures var s := State(1, 0, map[], map[5 := 3], [], 0, map[], 0, map[]);
      Checked(bk, s) && !Consistent(bk, s)
  {
    var s := State(1, 0, map[], map[], [], 0, map[], 0, map[]);
    assert TriedIds(s) == {} && NewIds(s) == {};
    assert Consistent(bk, s);
    StrayIsUnseen(bk, s, 5, 3);
  }

  lemma ConsistentIsChecked(bk: Buckets, s: State)
    requires Consistent(bk, s)
    ensures Checked(bk, s) && Unseen(s)
  {
    Ops.SelectFinds(bk, s);
    forall n | n in s.mapInfo ensures EntryChecks(s, n) {
      if s.mapInfo[n].fInTried {
        TriedUnreferenced(bk, s, n);
      }
    }
  }

  lemma CheckedIsConsistent(bk: Buckets, s: State)
    requires Checked(bk, s) && Unseen(s)
    ensures Consistent(bk, s)
  {
    hide Indexed, Placed;
    Ops.SplitIds(s);
    CheckedIndexed(s);
    CheckedPlaced(bk, s);
    forall n | n in s.mapInfo ensures EntryOk(s.mapInfo[n], false) {
      assert EntryChecks(s, n);
    }
  }

  lemma CheckedPlaced(bk: Buckets, s: State)
    requires TriedChecks(bk, s) && NewChecks(bk, s) && Unseen(s) && forall n :: n in s.mapInfo ==> EntryChecks(s, n)
    ensures Placed(bk, s)
  {
    forall sl | sl in s.vvNew
      ensures s.vvNew[sl] in s.mapInfo && !s.mapInfo[s.vvNew[sl]].fInTried && sl == NewSlot(bk, s.nKey, s.mapInfo[s.vvNew[sl]], sl.0)
    {
      assert NewSlotChecks(bk, s, sl);
    }
    forall sl | sl in s.vvTried
      ensures s.vvTried[sl] in s.mapInfo && s.mapInfo[s.vvTried[sl]].fInTried && sl == TriedSlot(bk, s.nKey, s.mapInfo[s.vvTried[sl]])
    {
      assert TriedSlotChecks(bk, s, sl);
    }
    forall n | n in s.mapInfo ensures s.mapInfo[n].nRefCount == |SlotsOf(s.vvNew, n)| {
      if s.mapInfo[n].fInTried {
        assert EntryChecks(s, n);
        assert forall sl :: sl in s.vvNew ==> s.vvNew[sl] != n;
        assert SlotsOf(s.vvNew, n) == {};
      } else {
        assert n in NewIds(s);
      }
    }
    forall n | n in s.mapInfo && s.mapInfo[n].fInTried
      ensures var sl := TriedSlot(bk, s.nKey, s.mapInfo[n]); sl in s.vvTried && s.vvTried[sl] == n
    {
      assert n in TriedIds(s);
    }
  }

  lemma CheckedIndexed(s: State)
    requires Unseen(s) && |s.vRandom| == |s.mapInfo.Keys| && forall n :: n in s.mapInfo ==> EntryChecks(s, n)
    ensures Indexed(s)
  {
    var places := set n | n in s.mapInfo :: s.mapInfo[n].nRandomPos;
    var all := Upto(|s.vRandom|);
    forall n, m | n in s.mapInfo && m in s.mapInfo && n != m ensures s.mapInfo[n].nRandomPos != s.mapInfo[m].nRandomPos {
      assert EntryChecks(s, n) && EntryChecks(s, m);
    }
    InjectiveSize(s.mapInfo.Keys, s.mapInfo);
    RangeSize(|s.vRandom|);
    assert places <= all by {
      forall n | n in s.mapInfo ensures 0 <= s.mapInfo[n].nRandomPos < |s.vRandom| {
        assert EntryChecks(s, n);
      }
    }
    FullSubset(places, all);
    forall i | 0 <= i < |s.vRandom| ensures s.vRandom[i] in s.mapInfo && s.mapInfo[s.vRandom[i]].nRandomPos == i {
      assert i in places;
      var n :| n in s.mapInfo && s.mapInfo[n].nRandomPos == i;
      assert EntryChecks(s, n);
    }
    forall n | n in s.mapInfo
      ensures 0 <= n < s.nIdCount && 0 <= s.mapInfo[n].nRandomPos < |s.vRandom| && s.vRandom[s.mapInfo[n].nRandomPos] == n
      ensures s.mapInfo[n].address.service.ip in s.mapAddr && s.mapAddr[s.mapInfo[n].address.service.ip] == n
    {
      assert EntryChecks(s, n);
    }
  }

  lemma {:induction false} InjectiveSize(ids: set<int>, m: map<int, AddrInfo>)
    requires ids <= m.Keys
    requires forall n, k :: n in ids && k in ids && n != k ==> m[n].nRandomPos != m[k].nRandomPos
    ensures |set n | n in ids :: m[n].nRandomPos| == |ids|
  {
    if ids != {} {
      var n := Ops.Any(ids);
      var rest := ids - {n};
      InjectiveSize(rest, m);
      var image := set k | k in rest :: m[k].nRandomPos;
      assert m[n].nRandomPos !in image;
      assert (set k | k in ids :: m[k].nRandomPos) == image + {m[n].nRandomPos};
    }
  }

  function Upto(n: nat): (r: set<int>)
    ensures forall i :: i in r <==> 0 <= i < n
  {
    if n == 0 then {} else Upto(n - 1) + {n - 1}
  }

  lemma {:induction false} RangeSize(n: nat)
    ensures |Upto(n)| == n
  {
    if n > 0 {
      RangeSize(n - 1);
    }
  }

  lemma FullSubset(a: set<int>, b: set<int>)
    requires a <= b && |a| == |b|
    ensures a == b
  {
    assert b == a + (b - a);
    assert |b - a| == 0;
  }

  // ----- the loops

  /** The slots that come before position `i` of bucket `n`. */
  function Before(t: Table, n: int, i: int): Table {
    map sl | sl in t && (sl.0 < n || (sl.0 == n && sl.1 < i)) :: t[sl]
  }

  lemma BeforeNext(t: Table, n: int, i: int)
    ensures Before(t, n, i + 1) == if (n, i) in t then Before(t, n, i)[(n, i) := t[(n, i)]] else Before(t, n, i)
    ensures (n, i) !in Before(t, n, i)
  {
  }

  lemma BeforeRow(t: Table, n: int, size: int)
    requires forall sl :: sl in t ==> 0 <= sl.1 < size
    ensures Before(t, n + 1, 0) == Before(t, n, size)
  {
  }

  lemma BeforeEnds(t: Table, count: int)
    requires forall sl :: sl in t ==> 0 <= sl.0 < count
    ensures Before(t, count, 0) == t
    requires forall sl :: sl in t ==> 0 <= sl.1
    ensures Before(t, 0, 0) == map[]
  {
  }

  /** The ids found in the slots looked at so far. */
  function Seen(t: Table): set<int> {
    set sl | sl in t :: t[sl]
  }

  lemma SeenNext(t: Table, sl: Slot, id: int)
    requires sl !in t
    ensures Seen(t[sl := id]) == Seen(t) + {id}
  {
    assert t[sl := id][sl] == id;
    forall x ensures x in Seen(t[sl := id]) <==> x in Seen(t) + {id} {
      if x in Seen(t) {
        var k :| k in t && t[k] == x;
        assert t[sl := id][k] == x;
      }
    }
  }

  /** The tried slots in `t` are as they should be, and `left` are the tried ids not met in them. */
  ghost predicate TriedSoFar(bk: Buckets, s: State, t: Table, left: set<int>) {
    && (forall sl :: sl in t ==> sl in s.vvTried && s.vvTried[sl] == t[sl] && TriedSlotChecks(bk, s, sl))
    && left == TriedIds(s) - Seen(t)
  }

  /** One more slot, found right. */
  lemma TriedStep(bk: Buckets, s: State, t: Table, left: set<int>, sl: Slot)
    requires TriedSoFar(bk, s, t, left) && sl in s.vvTried && sl !in t
    ensures TriedSlotChecks(bk, s, sl) ==> s.vvTried[sl] in left && TriedSoFar(bk, s, t[sl := s.vvTried[sl]], left - {s.vvTried[sl]})
    ensures s.vvTried[sl] in left ==> s.vvTried[sl] in TriedIds(s)
  {
    SeenNext(t, sl, s.vvTried[sl]);
    if TriedSlotChecks(bk, s, sl) {
      forall k | k in t ensures t[k] != s.vvTried[sl] {
        assert TriedSlotChecks(bk, s, k);
      }
    }
  }

  lemma TriedDone(bk: Buckets, s: State, left: set<int>)
    requires TriedSoFar(bk, s, s.vvTried, left)
    ensures left == {} <==> TriedChecks(bk, s)
  {
    if left == {} {
      forall n | n in TriedIds(s) ensures var sl := TriedSlot(bk, s.nKey, s.mapInfo[n]); sl in s.vvTried && s.vvTried[sl] == n {
        assert n !in left;
        assert n in Seen(s.vvTried);
        var k :| k in s.vvTried && s.vvTried[k] == n;
        assert TriedSlotChecks(bk, s, k);
      }
    } else {
      var n := Ops.Any(left);
      if TriedChecks(bk, s) {
        TriedIsSeen(bk, s, n);
      }
    }
  }

  lemma TriedIsSeen(bk: Buckets, s: State, n: int)
    requires TriedChecks(bk, s) && n in TriedIds(s)
    ensures n in Seen(s.vvTried)
  {
    var sl := TriedSlot(bk, s.nKey, s.mapInfo[n]);
    assert sl in s.vvTried && s.vvTried[sl] == n;
  }

  /** The new slots in `t` are as they should be, and `left` counts the references not met in them. */
  ghost predicate NewSoFar(bk: Buckets, s: State, t: Table, left: map<int, int>) {
    && (forall sl :: sl in t ==> sl in s.vvNew && s.vvNew[sl] == t[sl] && NewSlotChecks(bk, s, sl))
    && (forall n :: n in left ==> n in NewIds(s) && left[n] > 0 && left[n] == s.mapInfo[n].nRefCount - |SlotsOf(t, n)|)
    && (forall n :: n in NewIds(s) && n !in left ==> s.mapInfo[n].nRefCount == |SlotsOf(t, n)|)
  }

  lemma NewStep(bk: Buckets, s: State, t: Table, left: map<int, int>, sl: Slot)
    requires NewSoFar(bk, s, t, left) && sl in s.vvNew && sl !in t
    ensures s.vvNew[sl] in left && NewSlotChecks(bk, s, sl) ==>
      var id := s.vvNew[sl];
      NewSoFar(bk, s, t[sl := id], if left[id] == 1 then left - {id} else left[id := left[id] - 1])
  {
    SlotsPut(t, sl, s.vvNew[sl]);
  }

  /** A reference too many shows. */
  lemma NewExcess(bk: Buckets, s: State, t: Table, left: map<int, int>, sl: Slot)
    requires NewSoFar(bk, s, t, left) && sl in s.vvNew && sl !in t && s.vvNew[sl] !in left
    ensures !NewChecks(bk, s)
  {
    var id := s.vvNew[sl];
    if NewChecks(bk, s) {
      assert NewSlotChecks(bk, s, sl);
      assert SlotsOf(t, id) + {sl} <= SlotsOf(s.vvNew, id);
      SubsetLess(SlotsOf(t, id), sl, SlotsOf(s.vvNew, id));
    }
  }

  lemma SubsetLess(a: set<Slot>, x: Slot, b: set<Slot>)
    requires a + {x} <= b && x !in a
    ensures |a| < |b|
  {
    assert b == (a + {x}) + (b - (a + {x}));
    assert |a + {x}| == |a| + 1;
  }

  lemma NewDone(bk: Buckets, s: State, left: map<int, int>)
    requires NewSoFar(bk, s, s.vvNew, left)
    ensures |left| == 0 <==> NewChecks(bk, s)
  {
    if |left| == 0 {
      assert left == map[];
    } else {
      assert left.Keys != {};
      var n := Ops.Any(left.Keys);
      assert n in left && n in NewIds(s);
    }
  }

  /** The tests of one entry, after those on its counters. */
  method CheckEntry(a: CAddrMan, n: int, ghost s: State) returns (err: int)
    requires n in a.mapInfo && a.View() == s.(mapAddr := a.mapAddr) && SameLookup(s.mapAddr, a.mapAddr)
    modifies a`mapAddr
    ensures a.View() == s.(mapAddr := a.mapAddr) && SameLookup(s.mapAddr, a.mapAddr)
    ensures err == 0 <==> EntryChecks(s, n)
  {
    hide TableOf;
    var info := a.mapInfo[n];
    if info.fInTried {
      if info.nLastSuccess == 0 {
        return -1;
      }
      if info.nRefCount != 0 {
        return -2;
      }
    } else {
      if info.nRefCount < 0 || info.nRefCount > NEW_BUCKETS_PER_ADDRESS {
        return -3;
      }
      if info.nRefCount == 0 {
        return -4;
      }
    }
    var ip := info.address.service.ip;
    if ip !in a.mapAddr {
      a.mapAddr := a.mapAddr[ip := 0];
    }
    if a.mapAddr[ip] != n {
      return -5;
    }
    if info.nRandomPos < 0 || info.nRandomPos >= |a.vRandom| || a.vRandom[info.nRandomPos] != n {
      return -14;
    }
    if info.nLastTry < 0 {
      return -6;
    }
    if info.nLastSuccess < 0 {
      return -8;
    }
    err := 0;
  }

  /** The first loop: tests the entries, and sorts their ids. */
  method CheckEntries(a: CAddrMan) returns (err: int, setTried: set<int>, mapNew: map<int, int>)
    modifies a`mapAddr
    ensures a.View() == old(a.View()).(mapAddr := a.mapAddr) && SameLookup(old(a.mapAddr), a.mapAddr)
    ensures err == 0 <==> forall n :: n in a.mapInfo ==> EntryChecks(old(a.View()), n)
    ensures err == 0 ==> setTried == TriedIds(old(a.View())) && mapNew.Keys == NewIds(old(a.View()))
    ensures err == 0 ==> forall n :: n in mapNew ==> mapNew[n] == a.mapInfo[n].nRefCount
  {
    hide TableOf, EntryChecks, SameLookup;
    ghost var s := a.View();
    SameLookupSelf(s.mapAddr);
    setTried, mapNew, err := {}, map[], 0;
    var todo := a.mapInfo.Keys;
    while todo != {}
      invariant err == 0 && todo <= a.mapInfo.Keys && a.View() == s.(mapAddr := a.mapAddr) && SameLookup(s.mapAddr, a.mapAddr)
      invariant forall n :: n in a.mapInfo && n !in todo ==> EntryChecks(s, n)
      invariant setTried == TriedIds(s) - todo && mapNew.Keys == NewIds(s) - todo
      invariant forall n :: n in mapNew ==> mapNew[n] == a.mapInfo[n].nRefCount
      decreases |todo|
    {
      assert (forall n :: n !in todo) ==> todo == {};
      var n :| n in todo;
      todo := todo - {n};
      var info := a.mapInfo[n];
      err := CheckEntry(a, n, s);
      if err != 0 {
        return;
      }
      if info.fInTried {
        setTried := setTried + {n};
      } else {
        mapNew := mapNew[n := info.nRefCount];
      }
    }
  }

  lemma SameLookupSelf(m: map<NetAddr, int>)
    ensures SameLookup(m, m)
  {
  }

  ghost predicate SameLookup(a: map<NetAddr, int>, b: map<NetAddr, int>) {
    forall ip: NetAddr :: Lookup(a, ip) == Lookup(b, ip)
  }

  /** The ids and positions in a table's array are in range. */
  lemma TableRange(a: array2<int>)
    ensures forall sl :: sl in TableOf(a) ==> 0 <= sl.0 < a.Length0 && 0 <= sl.1 < a.Length1
  {
  }

  /** The second loop: the tried table. */
  method CheckTried(a: CAddrMan, ids: set<int>, ghost s: State) returns (err: int, setTried: set<int>)
    requires a.Shaped() && s == a.View().(mapAddr := s.mapAddr) && ids == TriedIds(s)
    ensures err == 0 ==> (setTried == {} <==> TriedChecks(a.bk, s))
    ensures err != 0 ==> !TriedChecks(a.bk, s)
  {
    hide TableOf, TriedSlotChecks, TriedIds, Before;
    ghost var t := TableOf(a.vvTried);
    TableRange(a.vvTried);
    BeforeEnds(t, TRIED_BUCKET_COUNT);
    setTried, err := ids, 0;
    for n := 0 to TRIED_BUCKET_COUNT
      invariant err == 0 && TriedSoFar(a.bk, s, Before(t, n, 0), setTried)
    {
      for i := 0 to BUCKET_SIZE
        invariant err == 0 && TriedSoFar(a.bk, s, Before(t, n, i), setTried)
      {
        BeforeNext(t, n, i);
        var id := a.TriedAt(n, i);
        if id != -1 {
          TriedStep(a.bk, s, Before(t, n, i), setTried, (n, i));
          if id !in setTried {
            return -11, setTried;
          }
          TriedSlotMeans(a.bk, s, (n, i));
          if a.bk.tried(a.nKey, a.mapInfo[id].address.service) != n {
            return -17, setTried;
          }
          if a.bk.position(a.nKey, a.mapInfo[id].address.service, false, n) != i {
            return -18, setTried;
          }
          setTried := setTried - {id};
        }
      }
      BeforeRow(t, n, BUCKET_SIZE);
    }
    TriedDone(a.bk, s, setTried);
  }

  lemma TriedSlotMeans(bk: Buckets, s: State, sl: Slot)
    requires sl in s.vvTried && s.vvTried[sl] in TriedIds(s)
    ensures s.vvTried[sl] in s.mapInfo
    ensures var service := s.mapInfo[s.vvTried[sl]].address.service;
      TriedSlotChecks(bk, s, sl) <==> bk.tried(s.nKey, service) == sl.0 && bk.position(s.nKey, service, false, sl.0) == sl.1
  {
  }

  /** The third loop: the new table. */
  method CheckNew(a: CAddrMan, counts: map<int, int>, ghost s: State) returns (err: int, mapNew: map<int, int>)
    requires a.Shaped() && s == a.View().(mapAddr := s.mapAddr) && counts.Keys == NewIds(s)
    requires forall n :: n in s.mapInfo ==> EntryChecks(s, n)
    requires forall n :: n in counts ==> counts[n] == s.mapInfo[n].nRefCount
    ensures err == 0 ==> (|mapNew| == 0 <==> NewChecks(a.bk, s))
    ensures err != 0 ==> !NewChecks(a.bk, s)
  {
    hide TableOf, NewSlotChecks, NewIds, Before, NewChecks, NewSoFar, EntryChecks;
    ghost var t := TableOf(a.vvNew);
    TableRange(a.vvNew);
    BeforeEnds(t, NEW_BUCKET_COUNT);
    mapNew, err := counts, 0;
    StartNew(a.bk, s, counts);
    for n := 0 to NEW_BUCKET_COUNT
      invariant err == 0 && NewSoFar(a.bk, s, Before(t, n, 0), mapNew)
    {
      for i := 0 to BUCKET_SIZE
        invariant err == 0 && NewSoFar(a.bk, s, Before(t, n, i), mapNew)
      {
        BeforeNext(t, n, i);
        var id := a.NewAt(n, i);
        if id != -1 {
          if id !in mapNew {
            NewExcess(a.bk, s, Before(t, n, i), mapNew, (n, i));
            return -12, mapNew;
          }
          LeftIsNew(a.bk, s, Before(t, n, i), mapNew, id);
          NewSlotMeans(a.bk, s, (n, i));
          if a.bk.position(a.nKey, a.mapInfo[id].address.service, true, n) != i {
            WrongNew(a.bk, s, (n, i));
            return -19, mapNew;
          }
          NewStep(a.bk, s, Before(t, n, i), mapNew, (n, i));
          RemoveUpdated(mapNew, id, mapNew[id] - 1);
          mapNew := mapNew[id := mapNew[id] - 1];
          if mapNew[id] == 0 {
            mapNew := mapNew - {id};
          }
        }
      }
      BeforeRow(t, n, BUCKET_SIZE);
    }
    NewDone(a.bk, s, mapNew);
  }

  lemma RemoveUpdated(m: map<int, int>, id: int, x: int)
    ensures m[id := x] - {id} == m - {id}
  {
  }

  lemma StartNew(bk: Buckets, s: State, counts: map<int, int>)
    requires counts.Keys == NewIds(s) && forall n :: n in counts ==> counts[n] == s.mapInfo[n].nRefCount
    requires forall n :: n in s.mapInfo ==> EntryChecks(s, n)
    ensures NewSoFar(bk, s, map[], counts)
  {
    forall n | n in counts ensures counts[n] > 0 && SlotsOf(map[], n) == {} {
      assert EntryChecks(s, n);
    }
  }

  lemma LeftIsNew(bk: Buckets, s: State, t: Table, left: map<int, int>, id: int)
    requires NewSoFar(bk, s, t, left) && id in left
    ensures id in NewIds(s) && id in s.mapInfo
  {
  }

  lemma NewSlotMeans(bk: Buckets, s: State, sl: Slot)
    requires sl in s.vvNew && s.vvNew[sl] in NewIds(s) && s.vvNew[sl] in s.mapInfo
    ensures NewSlotChecks(bk, s, sl) <==> bk.position(s.nKey, s.mapInfo[s.vvNew[sl]].address.service, true, sl.0) == sl.1
  {
  }

  lemma WrongNew(bk: Buckets, s: State, sl: Slot)
    requires sl in s.vvNew && !NewSlotChecks(bk, s, sl)
    ensures !NewChecks(bk, s)
  {
  }

  /** `Check_`: returns 0 exactly when everything that it looks at is in order. */
  method Check(a: CAddrMan) returns (err: int)
    requires a.Shaped()
    modifies a`mapAddr
    ensures err == 0 <==> Checked(a.bk, old(a.View()))
  {
    hide TableOf, EntryChecks, TriedChecks, NewChecks, SameLookup;
    ghost var s := a.View();
    if |a.vRandom| != a.nTried + a.nNew {
      return -7;
    }
    var setTried, mapNew;
    err, setTried, mapNew := CheckEntries(a);
    if err != 0 {
      return;
    }
    if |setTried| != a.nTried {
      return -9;
    }
    if |mapNew| != a.nNew {
      assert |mapNew| == |mapNew.Keys|;
      return -10;
    }
    err, setTried := CheckTried(a, setTried, s);
    if err != 0 {
      return;
    }
    err, mapNew := CheckNew(a, mapNew, s);
    if err != 0 {
      return;
    }
    if |setTried| != 0 {
      return -13;
    }
    if |mapNew| != 0 {
      return -15;
    }
    if a.nKey == 0 {
      return -16;
    }
  }
}
