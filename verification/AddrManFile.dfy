/** Saving the address manager and loading it again (`Serialize` and `Unserialize`,
    src/addrman.h), on values: what is written, what is rebuilt from it, and that a fresh object
    loaded from it has the same tables, under other ids. */
module AddrManFile {
  import opened AddrManState
  import Check = AddrManCheck
  import Ops = AddrManOps

  const BIT_30 := 0x4000_0000

  /** What is written of an entry. */
  datatype Saved = Saved(address: Address, source: NetAddr, nLastSuccess: int, nAttempts: int)

  function Save(info: AddrInfo): Saved {
    Saved(info.address, info.source, info.nLastSuccess, info.nAttempts)
  }

  /** An entry just read. */
  function Loaded(e: Saved): AddrInfo {
    AddrInfo(e.address, e.source, e.nLastSuccess, 0, e.nAttempts, 0, false, -1)
  }

  /** The stream, taken apart into what the two sides write and read one after the other. */
  datatype File = File(nVersion: nat, nKeySize: nat, nKey: nat, nNew: int, nTried: int, nUBuckets: int,
                       news: seq<Saved>, trieds: seq<Saved>, buckets: seq<seq<int>>)

  /** `n ^ (1 << 30)`. */
  function Flip(n: int): int {
    if n / BIT_30 % 2 == 1 then n - BIT_30 else n + BIT_30
  }

  /** Flipping the bit again gives the number back; a count of buckets written by the present version is
      out of all proportion to a version that does not flip it. */
  lemma FlipTwice(n: int)
    ensures Flip(Flip(n)) == n && (Flip(n) == n + BIT_30 || Flip(n) == n - BIT_30)
    ensures 0 <= n < BIT_30 ==> Flip(n) == n + BIT_30
  {
  }

  // ----- writing

  /** The ids below `n` that have references, in the order of the map. */
  function NewList(m: map<int, AddrInfo>, n: nat): seq<int> {
    if n == 0 then [] else NewList(m, n - 1) + (if n - 1 in m && m[n - 1].nRefCount != 0 then [n - 1] else [])
  }

  function TriedList(m: map<int, AddrInfo>, n: nat): seq<int> {
    if n == 0 then [] else TriedList(m, n - 1) + (if n - 1 in m && m[n - 1].fInTried then [n - 1] else [])
  }

  function SaveAll(m: map<int, AddrInfo>, ids: seq<int>): (r: seq<Saved>)
    requires forall i :: 0 <= i < |ids| ==> ids[i] in m
    ensures |r| == |ids|
  {
    seq(|ids|, i requires 0 <= i < |ids| => Save(m[ids[i]]))
  }

  /** `mapUnkIds`: the number an id is written under. */
  function Rank(m: map<int, AddrInfo>, id: int): nat {
    if id < 0 then 0 else |NewList(m, id)|
  }

  /** The numbers written for bucket `b`, from position `i` on. */
  function BucketFrom(s: State, b: int, i: nat): seq<int>
    requires i <= BUCKET_SIZE
    decreases BUCKET_SIZE - i
  {
    if i == BUCKET_SIZE then []
    else (if (b, i) in s.vvNew then [Rank(s.mapInfo, s.vvNew[(b, i)])] else []) + BucketFrom(s, b, i + 1)
  }

  lemma {:induction false} ListsInMap(m: map<int, AddrInfo>, n: nat)
    ensures forall i :: 0 <= i < |NewList(m, n)| ==> NewList(m, n)[i] in m && m[NewList(m, n)[i]].nRefCount != 0 && 0 <= NewList(m, n)[i] < n
    ensures forall i :: 0 <= i < |TriedList(m, n)| ==> TriedList(m, n)[i] in m && m[TriedList(m, n)[i]].fInTried && 0 <= TriedList(m, n)[i] < n
    ensures forall id :: 0 <= id < n && id in m && m[id].nRefCount != 0 ==> id in NewList(m, n)
    ensures forall id :: 0 <= id < n && id in m && m[id].fInTried ==> id in TriedList(m, n)
  {
    if n > 0 {
      ListsInMap(m, n - 1);
    }
  }

  function Written(s: State): File
    requires s.nIdCount >= 0
  {
    ListsInMap(s.mapInfo, s.nIdCount);
    File(1, 32, s.nKey, s.nNew, s.nTried, Flip(NEW_BUCKET_COUNT),
         SaveAll(s.mapInfo, NewList(s.mapInfo, s.nIdCount)), SaveAll(s.mapInfo, TriedList(s.mapInfo, s.nIdCount)),
         seq(NEW_BUCKET_COUNT, b requires 0 <= b < NEW_BUCKET_COUNT => BucketFrom(s, b, 0)))
  }

  // ----- reading

  /** Entry `n` of the new ones; a file of another format has its buckets worked out afresh. */
  function LoadNew(bk: Buckets, s: State, e: Saved, n: int, rebucket: bool): State {
    var s1 := s.(mapInfo := s.mapInfo[n := Loaded(e).(nRandomPos := |s.vRandom|)],
                 mapAddr := s.mapAddr[e.address.service.ip := n], vRandom := s.vRandom + [n]);
    var sl := NewSlot(bk, s.nKey, s1.mapInfo[n], bk.fresh_(s.nKey, e.address.service, e.source));
    if rebucket && sl !in s1.vvNew then Ref(s1, sl, n) else s1
  }

  function LoadNews(bk: Buckets, s: State, news: seq<Saved>, rebucket: bool): State {
    if news == [] then s
    else LoadNew(bk, LoadNews(bk, s, news[..|news| - 1], rebucket), news[|news| - 1], |news| - 1, rebucket)
  }

  /** A tried entry, which is lost if its slot is taken. */
  function LoadTried(bk: Buckets, s: State, e: Saved): State {
    var info := Loaded(e).(nRandomPos := |s.vRandom|, fInTried := true);
    var sl := TriedSlot(bk, s.nKey, info);
    if sl in s.vvTried then s
    else s.(mapInfo := s.mapInfo[s.nIdCount := info], mapAddr := s.mapAddr[e.address.service.ip := s.nIdCount],
            vRandom := s.vRandom + [s.nIdCount], vvTried := s.vvTried[sl := s.nIdCount], nIdCount := s.nIdCount + 1, nTried := s.nTried + 1)
  }

  function LoadTrieds(bk: Buckets, s: State, trieds: seq<Saved>): State {
    if trieds == [] then s else LoadTried(bk, LoadTrieds(bk, s, trieds[..|trieds| - 1]), trieds[|trieds| - 1])
  }

  /** One number in bucket `b`. */
  function LoadIndex(bk: Buckets, s: State, b: int, n: int): State {
    if 0 <= n < s.nNew && n in s.mapInfo && NewSlot(bk, s.nKey, s.mapInfo[n], b) !in s.vvNew
       && s.mapInfo[n].nRefCount < NEW_BUCKETS_PER_ADDRESS
    then Ref(s, NewSlot(bk, s.nKey, s.mapInfo[n], b), n) else s
  }

  function LoadBucket(bk: Buckets, s: State, b: int, indexes: seq<int>): State
    decreases |indexes|
  {
    if indexes == [] then s else LoadBucket(bk, LoadIndex(bk, s, b, indexes[0]), b, indexes[1..])
  }

  function LoadBuckets(bk: Buckets, s: State, buckets: seq<seq<int>>, b: nat): State
    requires b <= |buckets|
    decreases |buckets| - b
  {
    if b == |buckets| then s else LoadBuckets(bk, LoadBucket(bk, s, b, buckets[b]), buckets, b + 1)
  }

  /** Drops the new entries with no reference, among the ids from `id` on. */
  function Purge(s: State, id: nat, end: int): State
    decreases end - id
  {
    if id >= end then s
    else if id in s.mapInfo && !s.mapInfo[id].fInTried && s.mapInfo[id].nRefCount == 0 && CanDelete(s, id) then Purge(Delete(s, id), id + 1, end)
    else Purge(s, id + 1, end)
  }

  function Empty(nKey: nat): State {
    State(nKey, 0, map[], map[], [], 0, map[], 0, map[])
  }

  predicate OwnFormat(f: File) {
    f.nVersion == 1 && Flip(f.nUBuckets) == NEW_BUCKET_COUNT
  }

  /** What a fresh object holds once it has read a file whose lists are as long as it says. */
  function Read(bk: Buckets, f: File): State {
    var s1 := LoadNews(bk, Empty(f.nKey).(nNew := |f.news|), f.news, !OwnFormat(f)).(nIdCount := |f.news|);
    var s2 := LoadTrieds(bk, s1, f.trieds);
    var s3 := if OwnFormat(f) then LoadBuckets(bk, s2, f.buckets, 0) else s2;
    Purge(s3, 0, s3.nIdCount)
  }

  // ----- the same address manager under other ids

  /** The old ids in the order of the new ones. */
  function Order(s: State): seq<int>
    requires s.nIdCount >= 0
  {
    NewList(s.mapInfo, s.nIdCount) + TriedList(s.mapInfo, s.nIdCount)
  }

  /** Each entry once. */
  ghost predicate IsOrder(s: State, ids: seq<int>) {
    && |ids| == s.nNew + s.nTried && 0 <= s.nNew && 0 <= s.nTried
    && (forall k :: 0 <= k < |ids| ==> ids[k] in s.mapInfo && (s.mapInfo[ids[k]].fInTried <==> k >= s.nNew))
    && (forall j, k :: 0 <= j < k < |ids| ==> ids[j] != ids[k])
    && (forall n :: n in s.mapInfo ==> n in ids)
  }

  /** The place of an id. */
  function Place(ids: seq<int>, id: int): (k: nat)
    ensures k <= |ids| && (k < |ids| ==> ids[k] == id) && (id in ids ==> k < |ids|)
  {
    if ids == [] || ids[0] == id then 0 else Place(ids[1..], id) + 1
  }

  function Numbers(k: nat): (r: seq<int>)
    ensures |r| == k && forall i :: 0 <= i < k ==> r[i] == i
  {
    seq(k, j => j)
  }

  /** What loading makes of an entry. */
  function Renumbered(info: AddrInfo, k: int): AddrInfo {
    info.(nLastTry := 0, nRandomPos := k)
  }

  /** A map into ids, with the new numbers for the ids. */
  ghost function RenamedMap<K>(m: map<K, int>, ids: seq<int>): map<K, int> {
    map x | x in m :: Place(ids, m[x])
  }

  /** The state with entry `ids[k]` under id `k`. */
  ghost function Renamed(s: State, ids: seq<int>): State
    requires forall k :: 0 <= k < |ids| ==> ids[k] in s.mapInfo
  {
    State(s.nKey, |ids|, map k | 0 <= k < |ids| :: Renumbered(s.mapInfo[ids[k]], k), RenamedMap(s.mapAddr, ids), Numbers(|ids|),
          s.nTried, RenamedMap(s.vvTried, ids), s.nNew, RenamedMap(s.vvNew, ids))
  }

  // ----- the order in which entries are written

  ghost function NewBelow(m: map<int, AddrInfo>, n: nat): set<int> {
    set id | id in m && 0 <= id < n && m[id].nRefCount != 0
  }

  ghost function TriedBelow(m: map<int, AddrInfo>, n: nat): set<int> {
    set id | id in m && 0 <= id < n && m[id].fInTried
  }

  lemma {:induction false} NewListSize(m: map<int, AddrInfo>, n: nat)
    ensures |NewList(m, n)| == |NewBelow(m, n)|
  {
    if n > 0 {
      NewListSize(m, n - 1);
      if n - 1 in m && m[n - 1].nRefCount != 0 {
        assert NewBelow(m, n) == NewBelow(m, n - 1) + {n - 1};
      } else {
        assert NewBelow(m, n) == NewBelow(m, n - 1);
      }
    }
  }

  lemma {:induction false} TriedListSize(m: map<int, AddrInfo>, n: nat)
    ensures |TriedList(m, n)| == |TriedBelow(m, n)|
  {
    if n > 0 {
      TriedListSize(m, n - 1);
      if n - 1 in m && m[n - 1].fInTried {
        assert TriedBelow(m, n) == TriedBelow(m, n - 1) + {n - 1};
      } else {
        assert TriedBelow(m, n) == TriedBelow(m, n - 1);
      }
    }
  }

  lemma {:induction false} ListsAscend(m: map<int, AddrInfo>, n: nat)
    ensures forall i, j :: 0 <= i < j < |NewList(m, n)| ==> NewList(m, n)[i] < NewList(m, n)[j]
    ensures forall i, j :: 0 <= i < j < |TriedList(m, n)| ==> TriedList(m, n)[i] < TriedList(m, n)[j]
  {
    if n > 0 {
      ListsAscend(m, n - 1);
      ListsInMap(m, n - 1);
    }
  }

  /** The two assertions of `Serialize` hold: there are as many entries of each kind as are counted. */
  lemma ListCounts(bk: Buckets, s: State)
    requires Consistent(bk, s)
    ensures |NewList(s.mapInfo, s.nIdCount)| == s.nNew && |TriedList(s.mapInfo, s.nIdCount)| == s.nTried
  {
    NewListSize(s.mapInfo, s.nIdCount);
    TriedListSize(s.mapInfo, s.nIdCount);
    NewHaveReferences(bk, s);
    forall id ensures id in NewBelow(s.mapInfo, s.nIdCount) <==> id in NewIds(s) {
    }
    assert NewBelow(s.mapInfo, s.nIdCount) == NewIds(s);
    forall id ensures id in TriedBelow(s.mapInfo, s.nIdCount) <==> id in TriedIds(s) {
    }
    assert TriedBelow(s.mapInfo, s.nIdCount) == TriedIds(s);
  }

  /** New entries are those with references. */
  lemma NewHaveReferences(bk: Buckets, s: State)
    requires Consistent(bk, s)
    ensures forall id :: id in s.mapInfo ==> 0 <= id < s.nIdCount && (s.mapInfo[id].nRefCount != 0 <==> !s.mapInfo[id].fInTried)
    ensures s.nNew >= 0 && s.nTried >= 0
  {
    forall id | id in s.mapInfo ensures s.mapInfo[id].nRefCount != 0 <==> !s.mapInfo[id].fInTried {
      if s.mapInfo[id].fInTried {
        TriedUnreferenced(bk, s, id);
      }
    }
  }

  lemma OrderIsOrder(bk: Buckets, s: State)
    requires Consistent(bk, s)
    ensures IsOrder(s, Order(s))
  {
    var a, b := NewList(s.mapInfo, s.nIdCount), TriedList(s.mapInfo, s.nIdCount);
    ListCounts(bk, s);
    ListsAscend(s.mapInfo, s.nIdCount);
    ListsInMap(s.mapInfo, s.nIdCount);
    NewHaveReferences(bk, s);
    hide Inv, NewList, TriedList;
    ConcatIsOrder(s, a, b);
  }

  lemma ConcatIsOrder(s: State, a: seq<int>, b: seq<int>)
    requires |a| == s.nNew && |b| == s.nTried
    requires forall i :: 0 <= i < |a| ==> a[i] in s.mapInfo && !s.mapInfo[a[i]].fInTried
    requires forall i :: 0 <= i < |b| ==> b[i] in s.mapInfo && s.mapInfo[b[i]].fInTried
    requires forall i, j :: 0 <= i < j < |a| ==> a[i] < a[j]
    requires forall i, j :: 0 <= i < j < |b| ==> b[i] < b[j]
    requires forall n :: n in s.mapInfo ==> n in a || n in b
    ensures IsOrder(s, a + b)
  {
    var ids := a + b;
    forall j, k | 0 <= j < k < |ids| ensures ids[j] != ids[k] {
      if j < |a| <= k {
        assert ids[j] == a[j] && ids[k] == b[k - |a|];
      }
    }
  }

  lemma {:induction false} RankIs(m: map<int, AddrInfo>, n: nat, id: int)
    requires 0 <= id < n && id in m && m[id].nRefCount != 0
    ensures Rank(m, id) < |NewList(m, n)| && NewList(m, n)[Rank(m, id)] == id
  {
    if id < n - 1 {
      RankIs(m, n - 1, id);
    }
  }

  lemma {:induction false} PlaceIs(ids: seq<int>, k: nat)
    requires k < |ids| && forall i, j :: 0 <= i < j < |ids| ==> ids[i] != ids[j]
    ensures Place(ids, ids[k]) == k
  {
    if k > 0 {
      PlaceIs(ids[1..], k - 1);
    }
  }

  // ----- the stages of loading

  /** An entry before its references are read. */
  function Unreferenced(info: AddrInfo, k: int): AddrInfo {
    info.(nLastTry := 0, nRandomPos := k, nRefCount := 0)
  }

  /** The part of a map into ids that concerns the first `k` of them, under their new numbers. */
  ghost function Firsts<K>(m: map<K, int>, ids: seq<int>, k: nat): map<K, int> {
    map x | x in m && Place(ids, m[x]) < k :: Place(ids, m[x])
  }

  ghost function Entries(s: State, ids: seq<int>, k: nat, t: Table): map<int, AddrInfo>
    requires k <= |ids| && forall j :: 0 <= j < |ids| ==> ids[j] in s.mapInfo
  {
    map j | 0 <= j < k :: Unreferenced(s.mapInfo[ids[j]], j).(nRefCount := |SlotsOf(t, ids[j])|)
  }

  /** The first `k` entries, with `count` ids given out and the references in `t` read. */
  ghost function Stage(s: State, ids: seq<int>, k: nat, count: int, t: Table): State
    requires k <= |ids| && forall j :: 0 <= j < |ids| ==> ids[j] in s.mapInfo
  {
    State(s.nKey, count, Entries(s, ids, k, t), Firsts(s.mapAddr, ids, k), Numbers(k),
          if k <= s.nNew then 0 else k - s.nNew, Firsts(s.vvTried, ids, k), s.nNew, RenamedMap(t, ids))
  }

  lemma FirstsStep<K>(m: map<K, int>, ids: seq<int>, k: nat, key: K)
    requires k < |ids| && (forall id :: Place(ids, id) == k <==> id == ids[k])
    requires key in m && m[key] == ids[k] && forall x :: x in m && m[x] == ids[k] ==> x == key
    ensures key !in Firsts(m, ids, k) && Firsts(m, ids, k + 1) == Firsts(m, ids, k)[key := k]
  {
    hide Place;
    forall x | x in m ensures Place(ids, m[x]) == k <==> x == key {
    }
  }

  lemma FirstsSame<K>(m: map<K, int>, ids: seq<int>, k: nat)
    requires k < |ids| && (forall id :: Place(ids, id) == k <==> id == ids[k])
    requires forall x :: x in m ==> m[x] != ids[k]
    ensures Firsts(m, ids, k + 1) == Firsts(m, ids, k)
  {
    hide Place;
    forall x | x in m ensures Place(ids, m[x]) != k {
    }
  }

  lemma EntriesStep(s: State, ids: seq<int>, k: nat)
    requires k < |ids| && forall j :: 0 <= j < |ids| ==> ids[j] in s.mapInfo
    ensures Entries(s, ids, k + 1, map[]) == Entries(s, ids, k, map[])[k := Unreferenced(s.mapInfo[ids[k]], k)]
  {
    assert SlotsOf(map[], ids[k]) == {};
  }

  /** What the stages rely on, for the entry at `k`. */
  lemma EntryFacts(bk: Buckets, s: State, ids: seq<int>, k: nat)
    requires Consistent(bk, s) && IsOrder(s, ids) && k < |ids|
    ensures var info := s.mapInfo[ids[k]];
      && info.address.service.ip in s.mapAddr && s.mapAddr[info.address.service.ip] == ids[k]
      && (forall ip :: ip in s.mapAddr && s.mapAddr[ip] == ids[k] ==> ip == info.address.service.ip)
      && (info.fInTried ==> var sl := TriedSlot(bk, s.nKey, info); sl in s.vvTried && s.vvTried[sl] == ids[k])
      && (forall sl :: sl in s.vvTried && s.vvTried[sl] == ids[k] ==> sl == TriedSlot(bk, s.nKey, info) && info.fInTried)
      && info.nRefCount == |SlotsOf(s.vvNew, ids[k])| <= NEW_BUCKETS_PER_ADDRESS
    ensures Place(ids, ids[k]) == k
    ensures forall id :: Place(ids, id) == k <==> id == ids[k]
  {
    PlaceIs(ids, k);
    forall id ensures Place(ids, id) == k <==> id == ids[k] {
    }
  }

  lemma StageNew(bk: Buckets, s: State, ids: seq<int>, k: nat)
    requires Consistent(bk, s) && IsOrder(s, ids) && k < s.nNew
    ensures LoadNew(bk, Stage(s, ids, k, 0, map[]), Save(s.mapInfo[ids[k]]), k, false) == Stage(s, ids, k + 1, 0, map[])
  {
    hide Firsts, Entries, Place, TriedSlot, Inv;
    EntryFacts(bk, s, ids, k);
    var info := s.mapInfo[ids[k]];
    EntriesStep(s, ids, k);
    FirstsStep(s.mapAddr, ids, k, info.address.service.ip);
    FirstsSame(s.vvTried, ids, k);
    assert Numbers(k + 1) == Numbers(k) + [k];
  }

  lemma StageTried(bk: Buckets, s: State, ids: seq<int>, k: nat)
    requires Consistent(bk, s) && IsOrder(s, ids) && s.nNew <= k < |ids|
    ensures LoadTried(bk, Stage(s, ids, k, k, map[]), Save(s.mapInfo[ids[k]])) == Stage(s, ids, k + 1, k + 1, map[])
  {
    hide Firsts, Entries, Place, Inv;
    EntryFacts(bk, s, ids, k);
    var info := s.mapInfo[ids[k]];
    EntriesStep(s, ids, k);
    FirstsStep(s.mapAddr, ids, k, info.address.service.ip);
    FirstsStep(s.vvTried, ids, k, TriedSlot(bk, s.nKey, info));
    assert Numbers(k + 1) == Numbers(k) + [k];
  }

  lemma {:induction false} StagesNew(bk: Buckets, s: State, ids: seq<int>, k: nat)
    requires Consistent(bk, s) && IsOrder(s, ids) && k <= s.nNew
    ensures LoadNews(bk, Empty(s.nKey).(nNew := s.nNew), SaveAll(s.mapInfo, ids[..k]), false) == Stage(s, ids, k, 0, map[])
  {
    hide Inv, LoadNew, Stage;
    var saved := SaveAll(s.mapInfo, ids[..k]);
    if k == 0 {
      StageNone(s, ids);
    } else {
      StagesNew(bk, s, ids, k - 1);
      assert saved[..k - 1] == SaveAll(s.mapInfo, ids[..k - 1]);
      StageNew(bk, s, ids, k - 1);
    }
  }

  lemma StageNone(s: State, ids: seq<int>)
    requires forall j :: 0 <= j < |ids| ==> ids[j] in s.mapInfo
    requires s.nNew >= 0
    ensures Stage(s, ids, 0, 0, map[]) == Empty(s.nKey).(nNew := s.nNew)
  {
    assert Numbers(0) == [];
    assert Firsts(s.mapAddr, ids, 0) == map[] && Firsts(s.vvTried, ids, 0) == map[] && RenamedMap<Slot>(map[], ids) == map[];
    assert Entries(s, ids, 0, map[]) == map[];
  }

  lemma SaveAllButLast(m: map<int, AddrInfo>, ids: seq<int>)
    requires ids != [] && forall i :: 0 <= i < |ids| ==> ids[i] in m
    ensures var k := |ids| - 1; SaveAll(m, ids)[..k] == SaveAll(m, ids[..k]) && SaveAll(m, ids)[k] == Save(m[ids[k]])
  {
  }

  lemma {:induction false} StagesTried(bk: Buckets, s: State, ids: seq<int>, j: nat)
    requires Consistent(bk, s) && IsOrder(s, ids) && s.nNew + j <= |ids|
    ensures LoadTrieds(bk, Stage(s, ids, s.nNew, s.nNew, map[]), SaveAll(s.mapInfo, ids[s.nNew..s.nNew + j]))
            == Stage(s, ids, s.nNew + j, s.nNew + j, map[])
  {
    hide Inv, LoadTried, Stage;
    if j > 0 {
      var saved := SaveAll(s.mapInfo, ids[s.nNew..s.nNew + j]);
      StagesTried(bk, s, ids, j - 1);
      SaveAllButLast(s.mapInfo, ids[s.nNew..s.nNew + j]);
      assert ids[s.nNew..s.nNew + j][..j - 1] == ids[s.nNew..s.nNew + j - 1];
      StageTried(bk, s, ids, s.nNew + j - 1);
    }
  }

  /** All entries read, and the references in `t`. */
  ghost function Filled(s: State, ids: seq<int>, t: Table): State
    requires forall j :: 0 <= j < |ids| ==> ids[j] in s.mapInfo
  {
    Stage(s, ids, |ids|, |ids|, t)
  }

  lemma RenamedPut(t: Table, ids: seq<int>, sl: Slot, id: int)
    requires sl !in t
    ensures RenamedMap(t[sl := id], ids) == RenamedMap(t, ids)[sl := Place(ids, id)]
  {
    hide Place;
  }

  lemma EntriesPut(s: State, ids: seq<int>, t: Table, sl: Slot, k: nat)
    requires k < |ids| && (forall j :: 0 <= j < |ids| ==> ids[j] in s.mapInfo) && sl !in t
    requires forall j :: 0 <= j < |ids| && j != k ==> ids[j] != ids[k]
    ensures var e := Entries(s, ids, |ids|, t);
      Entries(s, ids, |ids|, t[sl := ids[k]]) == e[k := e[k].(nRefCount := e[k].nRefCount + 1)]
  {
    SlotsPut(t, sl, ids[k]);
  }

  /** What reading a reference looks at, and what it makes. */
  lemma FilledRef(s: State, ids: seq<int>, t: Table, sl: Slot, k: nat)
    requires k < |ids| && (forall j :: 0 <= j < |ids| ==> ids[j] in s.mapInfo) && sl !in t
    requires (forall j :: 0 <= j < |ids| && j != k ==> ids[j] != ids[k]) && Place(ids, ids[k]) == k
    ensures var f := Filled(s, ids, t);
      && f.nKey == s.nKey && f.nNew == s.nNew && k in f.mapInfo && sl !in f.vvNew
      && f.mapInfo[k].address == s.mapInfo[ids[k]].address && f.mapInfo[k].nRefCount == |SlotsOf(t, ids[k])|
      && Filled(s, ids, t[sl := ids[k]]) == Ref(f, sl, k)
  {
    RenamedPut(t, ids, sl, ids[k]);
    EntriesPut(s, ids, t, sl, k);
    hide Firsts, Place, SlotsOf;
  }

  /** One reference read puts the entry back into its slot. */
  lemma IndexStep(bk: Buckets, s: State, ids: seq<int>, b: int, i: int)
    requires Consistent(bk, s) && IsOrder(s, ids) && (b, i) in s.vvNew
    ensures var t, id := Check.Before(s.vvNew, b, i), s.vvNew[(b, i)];
      LoadIndex(bk, Filled(s, ids, t), b, Place(ids, id)) == Filled(s, ids, t[(b, i) := id])
  {
    var t, id := Check.Before(s.vvNew, b, i), s.vvNew[(b, i)];
    var sl := (b, i);
    SlotFacts(bk, s, sl);
    var k := Place(ids, id);
    EntryFacts(bk, s, ids, k);
    OneFewer(s.vvNew, t, sl, id);
    hide Inv, Filled, Place, SlotsOf, Check.Before, Ref;
    FilledRef(s, ids, t, sl, k);
  }

  lemma SlotFacts(bk: Buckets, s: State, sl: Slot)
    requires Consistent(bk, s) && sl in s.vvNew
    ensures s.vvNew[sl] in s.mapInfo && !s.mapInfo[s.vvNew[sl]].fInTried && sl == NewSlot(bk, s.nKey, s.mapInfo[s.vvNew[sl]], sl.0)
  {
  }

  /** Before a slot is read one reference at least is missing. */
  lemma OneFewer(whole: Table, t: Table, sl: Slot, id: int)
    requires sl in whole && whole[sl] == id && sl !in t && forall x :: x in t ==> x in whole && whole[x] == t[x]
    ensures |SlotsOf(t, id)| < |SlotsOf(whole, id)|
  {
    Check.SubsetLess(SlotsOf(t, id), sl, SlotsOf(whole, id));
  }

  lemma {:induction false} BucketStage(bk: Buckets, s: State, ids: seq<int>, b: nat, i: nat)
    requires Consistent(bk, s) && ids == Order(s) && IsOrder(s, ids) && i <= BUCKET_SIZE
    ensures LoadBucket(bk, Filled(s, ids, Check.Before(s.vvNew, b, i)), b, BucketFrom(s, b, i))
            == Filled(s, ids, Check.Before(s.vvNew, b, BUCKET_SIZE))
    decreases BUCKET_SIZE - i
  {
    hide Inv, Filled, LoadIndex, Check.Before, Order, Place, Rank;
    if i < BUCKET_SIZE {
      Check.BeforeNext(s.vvNew, b, i);
      BucketStage(bk, s, ids, b, i + 1);
      if (b, i) in s.vvNew {
        IndexStep(bk, s, ids, b, i);
        RankIsPlace(bk, s, s.vvNew[(b, i)], (b, i));
        var indexes := BucketFrom(s, b, i);
        assert indexes[1..] == BucketFrom(s, b, i + 1);
      } else {
        assert BucketFrom(s, b, i) == BucketFrom(s, b, i + 1);
      }
    }
  }

  lemma RankIsPlace(bk: Buckets, s: State, id: int, sl: Slot)
    requires Consistent(bk, s) && sl in s.vvNew && s.vvNew[sl] == id
    ensures Rank(s.mapInfo, id) == Place(Order(s), id)
  {
    SlotFacts(bk, s, sl);
    NewHaveReferences(bk, s);
    OrderIsOrder(bk, s);
    hide Inv, Place, Rank;
    RankIs(s.mapInfo, s.nIdCount, id);
    assert Order(s)[Rank(s.mapInfo, id)] == id;
    PlaceIs(Order(s), Rank(s.mapInfo, id));
  }

  lemma {:induction false} BucketsStage(bk: Buckets, s: State, ids: seq<int>, b: nat)
    requires Consistent(bk, s) && ids == Order(s) && IsOrder(s, ids) && b <= NEW_BUCKET_COUNT
    ensures LoadBuckets(bk, Filled(s, ids, Check.Before(s.vvNew, b, 0)), Written(s).buckets, b) == Filled(s, ids, s.vvNew)
    decreases NEW_BUCKET_COUNT - b
  {
    TableRange(bk, s);
    hide Inv, Filled, LoadBucket, Check.Before, Order, BucketFrom;
    Check.BeforeEnds(s.vvNew, NEW_BUCKET_COUNT);
    if b < NEW_BUCKET_COUNT {
      BucketStage(bk, s, ids, b, 0);
      Check.BeforeRow(s.vvNew, b, BUCKET_SIZE);
      BucketsStage(bk, s, ids, b + 1);
    }
  }

  lemma TableRange(bk: Buckets, s: State)
    requires Consistent(bk, s)
    ensures forall sl :: sl in s.vvNew ==> 0 <= sl.0 < NEW_BUCKET_COUNT && 0 <= sl.1 < BUCKET_SIZE
    ensures s.nIdCount >= 0
  {
  }

  /** Nothing is left without a reference, so nothing is dropped. */
  lemma {:induction false} NothingPurged(t: State, id: nat, end: int)
    requires forall n :: n in t.mapInfo ==> t.mapInfo[n].fInTried || t.mapInfo[n].nRefCount != 0
    ensures Purge(t, id, end) == t
    decreases end - id
  {
    if id < end {
      NothingPurged(t, id + 1, end);
    }
  }

  lemma FirstsAll<K>(m: map<K, int>, ids: seq<int>)
    requires forall x :: x in m ==> Place(ids, m[x]) < |ids|
    ensures Firsts(m, ids, |ids|) == RenamedMap(m, ids)
  {
    hide Place;
  }

  lemma EntriesAll(bk: Buckets, s: State, ids: seq<int>)
    requires Consistent(bk, s) && IsOrder(s, ids)
    ensures Entries(s, ids, |ids|, s.vvNew) == map k | 0 <= k < |ids| :: Renumbered(s.mapInfo[ids[k]], k)
  {
    hide Inv, Place;
    forall k | 0 <= k < |ids| ensures Entries(s, ids, |ids|, s.vvNew)[k] == Renumbered(s.mapInfo[ids[k]], k) {
      EntryFacts(bk, s, ids, k);
    }
  }

  /** With all references read, the entries are what they were, under their new ids. */
  lemma FilledIsRenamed(bk: Buckets, s: State, ids: seq<int>)
    requires Consistent(bk, s) && IsOrder(s, ids)
    ensures Filled(s, ids, s.vvNew) == Renamed(s, ids)
  {
    NewHaveReferences(bk, s);
    KnownPlaces(bk, s, ids);
    EntriesAll(bk, s, ids);
    FirstsAll(s.mapAddr, ids);
    FirstsAll(s.vvTried, ids);
    hide Inv, Place, Firsts, Entries, RenamedMap;
  }

  lemma RenamedReferenced(bk: Buckets, s: State, ids: seq<int>)
    requires Consistent(bk, s) && IsOrder(s, ids)
    ensures forall n :: n in Renamed(s, ids).mapInfo ==> Renamed(s, ids).mapInfo[n].fInTried || Renamed(s, ids).mapInfo[n].nRefCount != 0
    ensures Renamed(s, ids).nIdCount == |ids|
  {
    NewHaveReferences(bk, s);
  }

  lemma KnownPlaces(bk: Buckets, s: State, ids: seq<int>)
    requires Consistent(bk, s) && IsOrder(s, ids)
    ensures forall ip :: ip in s.mapAddr ==> Place(ids, s.mapAddr[ip]) < |ids|
    ensures forall sl :: sl in s.vvTried ==> Place(ids, s.vvTried[sl]) < |ids|
    ensures forall sl :: sl in s.vvNew ==> Place(ids, s.vvNew[sl]) < s.nNew
  {
    forall sl | sl in s.vvNew ensures Place(ids, s.vvNew[sl]) < s.nNew {
      assert s.vvNew[sl] in s.mapInfo && !s.mapInfo[s.vvNew[sl]].fInTried;
    }
  }

  /** A fresh object that reads what a consistent one has written holds the same key, counters,
      addresses, tables and references, under ids numbered as the entries were written; no entry is
      lost.  Of an entry only `nLastTry` is forgotten. */
  lemma ReadWritten(bk: Buckets, s: State)
    requires Consistent(bk, s)
    ensures IsOrder(s, Order(s)) && Read(bk, Written(s)) == Renamed(s, Order(s))
  {
    var ids, f := Order(s), Written(s);
    OrderIsOrder(bk, s);
    ListCounts(bk, s);
    ReadEntries(bk, s, ids);
    OwnFormatWritten(s);
    hide Inv, Filled, LoadNews, LoadTrieds, LoadBuckets, Purge, NewList, TriedList, BucketFrom, OwnFormat, Order, Renamed;
    TableRange(bk, s);
    Check.BeforeEnds(s.vvNew, NEW_BUCKET_COUNT);
    BucketsStage(bk, s, ids, 0);
    FilledIsRenamed(bk, s, ids);
    RenamedReferenced(bk, s, ids);
    NothingPurged(Renamed(s, ids), 0, |ids|);
  }

  /** The first two loops rebuild all entries. */
  lemma ReadEntries(bk: Buckets, s: State, ids: seq<int>)
    requires Consistent(bk, s) && ids == Order(s) && IsOrder(s, ids) && s.nIdCount >= 0
    requires |NewList(s.mapInfo, s.nIdCount)| == s.nNew
    ensures var f := Written(s);
      LoadTrieds(bk, LoadNews(bk, Empty(f.nKey).(nNew := |f.news|), f.news, false).(nIdCount := |f.news|), f.trieds) == Filled(s, ids, map[])
  {
    hide Inv, LoadNews, LoadTrieds, NewList, TriedList, Stage, Place;
    ListsInMap(s.mapInfo, s.nIdCount);
    StagesNew(bk, s, ids, s.nNew);
    assert ids[..s.nNew] == NewList(s.mapInfo, s.nIdCount);
    StagesTried(bk, s, ids, s.nTried);
    assert ids[s.nNew..s.nNew + s.nTried] == TriedList(s.mapInfo, s.nIdCount);
    StageCount(s, ids, s.nNew, 0, s.nNew);
  }

  lemma StageCount(s: State, ids: seq<int>, k: nat, before: int, after: int)
    requires k <= |ids| && forall j :: 0 <= j < |ids| ==> ids[j] in s.mapInfo
    ensures Stage(s, ids, k, before, map[]).(nIdCount := after) == Stage(s, ids, k, after, map[])
  {
  }

  lemma OwnFormatWritten(s: State)
    requires s.nIdCount >= 0
    ensures OwnFormat(Written(s))
  {
  }

  // ----- what is rebuilt is in order

  lemma RenamedIndexed(bk: Buckets, s: State, ids: seq<int>)
    requires Consistent(bk, s) && IsOrder(s, ids)
    ensures Indexed(Renamed(s, ids))
  {
    RenamedDomain(s, ids);
    hide *;
    var r := Renamed(s, ids);
    forall n | 0 <= n < |ids| ensures NumberedAt(r, n) {
      RenamedAt(bk, s, ids, n);
    }
    forall ip | ip in r.mapAddr ensures r.mapAddr[ip] in r.mapInfo && r.mapInfo[r.mapAddr[ip]].address.service.ip == ip {
      RenamedAddress(bk, s, ids, ip);
    }
    NumberedIndexed(r, |ids|);
  }

  ghost predicate NumberedAt(r: State, n: nat) {
    && n in r.mapInfo && n < |r.vRandom| && r.mapInfo[n].nRandomPos == n == r.vRandom[n]
    && var ip := r.mapInfo[n].address.service.ip; ip in r.mapAddr && r.mapAddr[ip] == n
  }

  /** Entries numbered from 0 on, each listed at its own number. */
  lemma NumberedIndexed(r: State, count: nat)
    requires r.nIdCount == |r.vRandom| == count && (forall n :: n in r.mapInfo ==> 0 <= n < count)
    requires forall n :: 0 <= n < count ==> NumberedAt(r, n)
    requires forall ip :: ip in r.mapAddr ==> r.mapAddr[ip] in r.mapInfo && r.mapInfo[r.mapAddr[ip]].address.service.ip == ip
    ensures Indexed(r)
  {
    forall n | n in r.mapInfo
      ensures var info := r.mapInfo[n];
        && info.nRandomPos == n == r.vRandom[n]
        && info.address.service.ip in r.mapAddr && r.mapAddr[info.address.service.ip] == n
    {
      assert NumberedAt(r, n);
    }
    forall i | 0 <= i < |r.vRandom| ensures r.vRandom[i] == i && i in r.mapInfo && r.mapInfo[i].nRandomPos == i {
      assert NumberedAt(r, i);
    }
  }

  lemma RenamedDomain(s: State, ids: seq<int>)
    requires IsOrder(s, ids)
    ensures forall k :: 0 <= k < |ids| ==> ids[k] in s.mapInfo
    ensures var r := Renamed(s, ids);
      && r.nIdCount == |r.vRandom| == |ids| && r.mapAddr.Keys == s.mapAddr.Keys
      && (forall n :: n in r.mapInfo ==> 0 <= n < |ids|)
  {
  }

  lemma RenamedAt(bk: Buckets, s: State, ids: seq<int>, n: nat)
    requires Consistent(bk, s) && IsOrder(s, ids) && n < |ids|
    ensures NumberedAt(Renamed(s, ids), n)
  {
    EntryAddress(bk, s, ids, n);
    RenamedParts(s, ids, n, s.mapInfo[ids[n]].address.service.ip);
    hide Inv, Place, IsOrder, Renamed;
  }

  lemma EntryAddress(bk: Buckets, s: State, ids: seq<int>, n: nat)
    requires Consistent(bk, s) && IsOrder(s, ids) && n < |ids|
    ensures var ip := s.mapInfo[ids[n]].address.service.ip; ip in s.mapAddr && s.mapAddr[ip] == ids[n]
    ensures Place(ids, ids[n]) == n
  {
    EntryFacts(bk, s, ids, n);
  }

  lemma RenamedParts(s: State, ids: seq<int>, n: nat, ip: NetAddr)
    requires IsOrder(s, ids) && n < |ids| && ip in s.mapAddr
    ensures var r := Renamed(s, ids);
      && n in r.mapInfo && r.mapInfo[n] == Renumbered(s.mapInfo[ids[n]], n)
      && n < |r.vRandom| && r.vRandom[n] == n && ip in r.mapAddr && r.mapAddr[ip] == Place(ids, s.mapAddr[ip])
  {
    hide Place;
  }

  lemma RenamedAddress(bk: Buckets, s: State, ids: seq<int>, ip: NetAddr)
    requires Consistent(bk, s) && IsOrder(s, ids) && ip in s.mapAddr
    ensures var r := Renamed(s, ids);
      && ip in r.mapAddr && r.mapAddr[ip] in r.mapInfo && r.mapInfo[r.mapAddr[ip]].address.service.ip == ip
  {
    AddressesListed(bk, s);
    KnownPlaces(bk, s, ids);
    hide Inv, Place;
  }

  lemma AddressesListed(bk: Buckets, s: State)
    requires Consistent(bk, s)
    ensures forall ip :: ip in s.mapAddr ==> s.mapAddr[ip] in s.mapInfo && s.mapInfo[s.mapAddr[ip]].address.service.ip == ip
  {
  }

  lemma RenamedSlots(bk: Buckets, s: State, ids: seq<int>, k: nat)
    requires Consistent(bk, s) && IsOrder(s, ids) && k < |ids|
    ensures SlotsOf(RenamedMap(s.vvNew, ids), k) == SlotsOf(s.vvNew, ids[k])
  {
    EntryFacts(bk, s, ids, k);
    hide Inv, Place;
  }

  lemma RenamedPlaced(bk: Buckets, s: State, ids: seq<int>)
    requires Consistent(bk, s) && IsOrder(s, ids)
    ensures Placed(bk, Renamed(s, ids))
  {
    RenamedNewSlots(bk, s, ids);
    RenamedTriedSlots(bk, s, ids);
    RenamedReferences(bk, s, ids);
    hide Inv, Renamed, IsOrder, SlotsOf;
  }

  lemma RenamedNewSlots(bk: Buckets, s: State, ids: seq<int>)
    requires Consistent(bk, s) && IsOrder(s, ids)
    ensures var r := Renamed(s, ids);
      forall sl :: sl in r.vvNew ==>
        && 0 <= sl.0 < NEW_BUCKET_COUNT && r.vvNew[sl] in r.mapInfo && !r.mapInfo[r.vvNew[sl]].fInTried
        && sl == NewSlot(bk, r.nKey, r.mapInfo[r.vvNew[sl]], sl.0)
  {
    KnownPlaces(bk, s, ids);
    TableRange(bk, s);
    forall sl | sl in s.vvNew ensures ids[Place(ids, s.vvNew[sl])] == s.vvNew[sl] && sl == NewSlot(bk, s.nKey, s.mapInfo[s.vvNew[sl]], sl.0) {
      SlotFacts(bk, s, sl);
    }
    hide Inv, Place;
  }

  lemma RenamedTriedSlots(bk: Buckets, s: State, ids: seq<int>)
    requires Consistent(bk, s) && IsOrder(s, ids)
    ensures var r := Renamed(s, ids);
      forall sl :: sl in r.vvTried ==>
        r.vvTried[sl] in r.mapInfo && r.mapInfo[r.vvTried[sl]].fInTried && sl == TriedSlot(bk, r.nKey, r.mapInfo[r.vvTried[sl]])
  {
    KnownPlaces(bk, s, ids);
    forall sl | sl in s.vvTried
      ensures ids[Place(ids, s.vvTried[sl])] == s.vvTried[sl] && s.vvTried[sl] in s.mapInfo
      ensures s.mapInfo[s.vvTried[sl]].fInTried && sl == TriedSlot(bk, s.nKey, s.mapInfo[s.vvTried[sl]])
    {
    }
    hide Inv, Place;
  }

  lemma RenamedReferences(bk: Buckets, s: State, ids: seq<int>)
    requires Consistent(bk, s) && IsOrder(s, ids)
    ensures var r := Renamed(s, ids);
      && (forall n :: n in r.mapInfo ==> r.mapInfo[n].nRefCount == |SlotsOf(r.vvNew, n)|)
      && (forall n :: n in r.mapInfo && r.mapInfo[n].fInTried ==>
            var sl := TriedSlot(bk, r.nKey, r.mapInfo[n]); sl in r.vvTried && r.vvTried[sl] == n)
  {
    var r := Renamed(s, ids);
    forall n | n in r.mapInfo
      ensures r.mapInfo[n].nRefCount == |SlotsOf(r.vvNew, n)|
      ensures r.mapInfo[n].fInTried ==> var sl := TriedSlot(bk, r.nKey, r.mapInfo[n]); sl in r.vvTried && r.vvTried[sl] == n
    {
      EntryFacts(bk, s, ids, n);
      RenamedSlots(bk, s, ids, n);
    }
  }

  lemma RenamedCounts(s: State, ids: seq<int>)
    requires IsOrder(s, ids)
    ensures |NewIds(Renamed(s, ids))| == s.nNew && |TriedIds(Renamed(s, ids))| == s.nTried
  {
    hide Place, RenamedMap;
    var r := Renamed(s, ids);
    Check.RangeSize(s.nNew);
    Check.RangeSize(|ids|);
    forall k ensures k in NewIds(r) <==> k in Check.Upto(s.nNew) {
    }
    assert NewIds(r) == Check.Upto(s.nNew);
    SplitCounts(r, |ids|);
  }

  /** New and tried entries together are all of them. */
  lemma SplitCounts(r: State, n: nat)
    requires forall k :: k in r.mapInfo <==> 0 <= k < n
    ensures |NewIds(r)| + |TriedIds(r)| == n
  {
    hide NewIds, TriedIds;
    Ops.SplitIds(r);
    Check.RangeSize(n);
    assert r.mapInfo.Keys == Check.Upto(n);
  }

  lemma RenamedEntry(bk: Buckets, s: State, n: int, k: int)
    requires Consistent(bk, s) && n in s.mapInfo
    ensures EntryOk(Renumbered(s.mapInfo[n], k), false)
  {
    Ops.InvEntries(bk, s);
    assert EntryOk(s.mapInfo[n], false);
  }

  lemma RenamedEntries(bk: Buckets, s: State, ids: seq<int>)
    requires Consistent(bk, s) && IsOrder(s, ids)
    ensures forall n :: n in Renamed(s, ids).mapInfo ==> EntryOk(Renamed(s, ids).mapInfo[n], false)
    ensures Renamed(s, ids).nKey == s.nKey != 0
  {
    hide Indexed, Placed, NewIds, TriedIds, Place, RenamedMap, EntryOk;
    forall k | 0 <= k < |ids| ensures EntryOk(Renumbered(s.mapInfo[ids[k]], k), false) {
      RenamedEntry(bk, s, ids[k], k);
    }
  }

  /** What a fresh object has read is consistent again. */
  lemma RenamedConsistent(bk: Buckets, s: State, ids: seq<int>)
    requires Consistent(bk, s) && IsOrder(s, ids)
    ensures Consistent(bk, Renamed(s, ids))
  {
    RenamedIndexed(bk, s, ids);
    RenamedPlaced(bk, s, ids);
    RenamedCounts(s, ids);
    RenamedEntries(bk, s, ids);
    RenamedFields(s, ids);
    hide Indexed, Placed, NewIds, TriedIds, IsOrder, Renamed, EntryOk;
  }

  lemma RenamedFields(s: State, ids: seq<int>)
    requires forall k :: 0 <= k < |ids| ==> ids[k] in s.mapInfo
    ensures Renamed(s, ids).nNew == s.nNew && Renamed(s, ids).nTried == s.nTried && Renamed(s, ids).nIdCount == |ids|
  {
  }
}
