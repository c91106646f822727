/** Loading an address file of another format (`Unserialize`, src/addrman.h): a version or a number of
    buckets that is not this one's.  The buckets it lists are then of no use, and every new entry is
    hashed into a bucket again. */
module AddrManForeign {
  import opened AddrManState
  import opened AddrManFile
  import opened AddrManSerialize
  import Ops = AddrManOps

  /** The slot that the hash gives a new entry, and a tried one. */
  function SlotFor(bk: Buckets, nKey: nat, e: Saved): Slot {
    NewSlot(bk, nKey, Loaded(e), bk.fresh_(nKey, e.address.service, e.source))
  }

  function TriedSlotFor(bk: Buckets, nKey: nat, e: Saved): Slot {
    TriedSlot(bk, nKey, Loaded(e))
  }

  /** The slot of entry `n` is free when its turn comes. */
  predicate First(bk: Buckets, nKey: nat, news: seq<Saved>, n: int) {
    0 <= n < |news| && forall m :: 0 <= m < n ==> SlotFor(bk, nKey, news[m]) != SlotFor(bk, nKey, news[n])
  }

  /** The new table once all entries are hashed: each slot has the first entry that it is for. */
  ghost predicate Rehashed(bk: Buckets, nKey: nat, news: seq<Saved>, t: Table) {
    && (forall sl :: sl in t ==> First(bk, nKey, news, t[sl]) && SlotFor(bk, nKey, news[t[sl]]) == sl)
    && (forall n :: First(bk, nKey, news, n) ==> SlotFor(bk, nKey, news[n]) in t && t[SlotFor(bk, nKey, news[n])] == n)
  }

  ghost predicate NewsLoaded(bk: Buckets, news: seq<Saved>, s: State) {
    && |s.vRandom| == |news| && s.vvTried == map[] && Rehashed(bk, s.nKey, news, s.vvNew)
    && (forall n :: n in s.mapInfo <==> 0 <= n < |news|)
    && (forall n :: 0 <= n < |news| ==>
          s.mapInfo[n] == Loaded(news[n]).(nRandomPos := n, nRefCount := if First(bk, s.nKey, news, n) then 1 else 0))
  }

  lemma {:induction false} ForeignNews(bk: Buckets, nKey: nat, nNew: int, news: seq<Saved>)
    ensures var s := LoadNews(bk, Empty(nKey).(nNew := nNew), news, true);
      s.nKey == nKey && s.nNew == nNew && NewsLoaded(bk, news, s)
  {
    if news != [] {
      var k := |news| - 1;
      ForeignNews(bk, nKey, nNew, news[..k]);
      hide LoadNews;
      OneMoreNew(bk, news, LoadNews(bk, Empty(nKey).(nNew := nNew), news[..k], true));
      LoadNewsLast(bk, Empty(nKey).(nNew := nNew), news);
    }
  }

  lemma LoadNewsLast(bk: Buckets, s: State, news: seq<Saved>)
    requires news != []
    ensures var k := |news| - 1; LoadNews(bk, s, news, true) == LoadNew(bk, LoadNews(bk, s, news[..k], true), news[k], k, true)
  {
  }

  lemma FirstPrefix(bk: Buckets, nKey: nat, news: seq<Saved>, k: nat, n: int)
    requires k <= |news|
    ensures n < k ==> (First(bk, nKey, news[..k], n) <==> First(bk, nKey, news, n))
    ensures n >= k ==> !First(bk, nKey, news[..k], n)
  {
  }

  lemma OneMoreNew(bk: Buckets, news: seq<Saved>, s: State)
    requires news != [] && NewsLoaded(bk, news[..|news| - 1], s)
    ensures var k := |news| - 1;
      var s' := LoadNew(bk, s, news[k], k, true);
      s'.nKey == s.nKey && s'.nNew == s.nNew && NewsLoaded(bk, news, s')
  {
    var k := |news| - 1;
    var s' := LoadNew(bk, s, news[k], k, true);
    var sl := SlotFor(bk, s.nKey, news[k]);
    SlotFreeIffFirst(bk, news, s);
    LoadNewIs(bk, s, news[k], k);
    RehashedNext(bk, s.nKey, news, s.vvNew, s'.vvNew);
    hide LoadNew, Rehashed, SlotFor;
    forall n | 0 <= n < |news|
      ensures n in s'.mapInfo && s'.mapInfo[n] == Loaded(news[n]).(nRandomPos := n, nRefCount := if First(bk, s.nKey, news, n) then 1 else 0)
    {
      FirstPrefix(bk, s.nKey, news, k, n);
      assert n < k ==> news[..k][n] == news[n];
    }
  }

  lemma LoadNewIs(bk: Buckets, s: State, e: Saved, n: int)
    ensures var s', sl := LoadNew(bk, s, e, n, true), SlotFor(bk, s.nKey, e);
      && s'.mapInfo == s.mapInfo[n := Loaded(e).(nRandomPos := |s.vRandom|, nRefCount := if sl !in s.vvNew then 1 else 0)]
      && s'.vvNew == (if sl !in s.vvNew then s.vvNew[sl := n] else s.vvNew)
      && s'.vRandom == s.vRandom + [n] && s'.nKey == s.nKey && s'.nNew == s.nNew && s'.vvTried == s.vvTried
  {
  }

  lemma SlotFreeIffFirst(bk: Buckets, news: seq<Saved>, s: State)
    requires news != [] && Rehashed(bk, s.nKey, news[..|news| - 1], s.vvNew)
    ensures var k := |news| - 1; SlotFor(bk, s.nKey, news[k]) !in s.vvNew <==> First(bk, s.nKey, news, k)
  {
    hide SlotFor;
    var k := |news| - 1;
    var sl := SlotFor(bk, s.nKey, news[k]);
    assert sl in s.vvNew ==> news[..k][s.vvNew[sl]] == news[s.vvNew[sl]];
    if !First(bk, s.nKey, news, k) {
      var m := LeastWith(bk, s.nKey, news, k);
      FirstPrefix(bk, s.nKey, news, k, m);
      assert SlotFor(bk, s.nKey, news[..k][m]) in s.vvNew;
    }
  }

  lemma {:induction false} LeastWith(bk: Buckets, nKey: nat, news: seq<Saved>, k: nat) returns (m: nat)
    requires k < |news| && !First(bk, nKey, news, k)
    ensures m < k && SlotFor(bk, nKey, news[m]) == SlotFor(bk, nKey, news[k]) && First(bk, nKey, news, m)
    decreases k
  {
    hide SlotFor;
    m :| 0 <= m < k && SlotFor(bk, nKey, news[m]) == SlotFor(bk, nKey, news[k]);
    if !First(bk, nKey, news, m) {
      m := LeastWith(bk, nKey, news, m);
    }
  }

  lemma RehashedNext(bk: Buckets, nKey: nat, news: seq<Saved>, t: Table, t': Table)
    requires news != [] && Rehashed(bk, nKey, news[..|news| - 1], t)
    requires var k, sl := |news| - 1, SlotFor(bk, nKey, news[|news| - 1]);
      && (sl !in t <==> First(bk, nKey, news, k)) && t' == if sl !in t then t[sl := k] else t
    ensures Rehashed(bk, nKey, news, t')
  {
    hide SlotFor;
    var k := |news| - 1;
    forall sl | sl in t' ensures First(bk, nKey, news, t'[sl]) && SlotFor(bk, nKey, news[t'[sl]]) == sl {
      if sl in t {
        FirstPrefix(bk, nKey, news, k, t[sl]);
      }
    }
    forall n | First(bk, nKey, news, n) ensures SlotFor(bk, nKey, news[n]) in t' && t'[SlotFor(bk, nKey, news[n])] == n {
      FirstPrefix(bk, nKey, news, k, n);
      assert n < k ==> news[..k][n] == news[n];
    }
  }

  // ----- tried entries

  predicate FirstTried(bk: Buckets, nKey: nat, trieds: seq<Saved>, j: int) {
    0 <= j < |trieds| && forall m :: 0 <= m < j ==> TriedSlotFor(bk, nKey, trieds[m]) != TriedSlotFor(bk, nKey, trieds[j])
  }

  ghost predicate SeatedFor(bk: Buckets, trieds: seq<Saved>, base: int, s: State, sl: Slot, j: int) {
    && FirstTried(bk, s.nKey, trieds, j) && TriedSlotFor(bk, s.nKey, trieds[j]) == sl
    && sl in s.vvTried && base <= s.vvTried[sl] < s.nIdCount && s.vvTried[sl] in s.mapInfo
    && var info := s.mapInfo[s.vvTried[sl]]; info == Loaded(trieds[j]).(nRandomPos := info.nRandomPos, fInTried := true)
  }

  /** Each tried slot has the first entry that it is for; nothing else is new, and the new entries are
      untouched. */
  ghost predicate TriedsLoaded(bk: Buckets, trieds: seq<Saved>, s0: State, s: State) {
    && s.nKey == s0.nKey && s.nNew == s0.nNew && s.vvNew == s0.vvNew && s0.nIdCount <= s.nIdCount
    && (forall n :: n < s0.nIdCount ==> (n in s.mapInfo <==> n in s0.mapInfo) && (n in s.mapInfo ==> s.mapInfo[n] == s0.mapInfo[n]))
    && (forall n :: n in s.mapInfo && n >= s0.nIdCount ==> n < s.nIdCount && s.mapInfo[n].fInTried)
    && (forall j :: FirstTried(bk, s.nKey, trieds, j) ==>
          SeatedFor(bk, trieds, s0.nIdCount, s, TriedSlotFor(bk, s.nKey, trieds[j]), j))
    && (forall sl :: sl in s.vvTried ==> exists j :: SeatedFor(bk, trieds, s0.nIdCount, s, sl, j))
  }

  lemma {:induction false} ForeignTrieds(bk: Buckets, s: State, trieds: seq<Saved>)
    requires s.vvTried == map[] && forall n :: n in s.mapInfo ==> n < s.nIdCount
    ensures TriedsLoaded(bk, trieds, s, LoadTrieds(bk, s, trieds))
  {
    if trieds != [] {
      var k := |trieds| - 1;
      var s1 := LoadTrieds(bk, s, trieds[..k]);
      ForeignTrieds(bk, s, trieds[..k]);
      assert LoadTrieds(bk, s, trieds) == LoadTried(bk, s1, trieds[k]);
      hide LoadTrieds, TriedsLoaded;
      OneMoreTried(bk, s, trieds, s1);
    }
  }

  lemma LoadTriedIs(bk: Buckets, s: State, e: Saved)
    ensures var s', sl := LoadTried(bk, s, e), TriedSlotFor(bk, s.nKey, e);
      if sl in s.vvTried then s' == s
      else && s'.mapInfo == s.mapInfo[s.nIdCount := Loaded(e).(nRandomPos := |s.vRandom|, fInTried := true)]
           && s'.vvTried == s.vvTried[sl := s.nIdCount] && s'.nIdCount == s.nIdCount + 1
           && s'.vvNew == s.vvNew && s'.nKey == s.nKey && s'.nNew == s.nNew
  {
  }

  lemma FirstTriedPrefix(bk: Buckets, nKey: nat, trieds: seq<Saved>, k: nat, j: int)
    requires k <= |trieds|
    ensures j < k ==> (FirstTried(bk, nKey, trieds[..k], j) <==> FirstTried(bk, nKey, trieds, j))
    ensures j >= k ==> !FirstTried(bk, nKey, trieds[..k], j)
  {
  }

  lemma OneMoreTried(bk: Buckets, s0: State, trieds: seq<Saved>, s: State)
    requires trieds != [] && TriedsLoaded(bk, trieds[..|trieds| - 1], s0, s)
    ensures TriedsLoaded(bk, trieds, s0, LoadTried(bk, s, trieds[|trieds| - 1]))
  {
    var k := |trieds| - 1;
    var s' := LoadTried(bk, s, trieds[k]);
    var sl := TriedSlotFor(bk, s.nKey, trieds[k]);
    LoadTriedIs(bk, s, trieds[k]);
    TriedSlotFreeIffFirst(bk, s0, trieds, s);
    hide LoadTried, TriedSlotFor, FirstTried;
    forall j | FirstTried(bk, s'.nKey, trieds, j)
      ensures SeatedFor(bk, trieds, s0.nIdCount, s', TriedSlotFor(bk, s'.nKey, trieds[j]), j)
    {
      TriedStays(bk, s0, trieds, s, s', j);
    }
    forall x | x in s'.vvTried ensures exists j :: SeatedFor(bk, trieds, s0.nIdCount, s', x, j) {
      var j: int := k;
      if x in s.vvTried {
        j :| SeatedFor(bk, trieds[..k], s0.nIdCount, s, x, j);
      }
      TriedStays(bk, s0, trieds, s, s', j);
      assert SeatedFor(bk, trieds, s0.nIdCount, s', x, j);
    }
  }

  lemma TriedStays(bk: Buckets, s0: State, trieds: seq<Saved>, s: State, s': State, j: int)
    requires trieds != [] && TriedsLoaded(bk, trieds[..|trieds| - 1], s0, s)
    requires var k, sl := |trieds| - 1, TriedSlotFor(bk, s.nKey, trieds[|trieds| - 1]);
      && s' == LoadTried(bk, s, trieds[k]) && (sl !in s.vvTried <==> FirstTried(bk, s.nKey, trieds, k))
    requires FirstTried(bk, s.nKey, trieds, j) || FirstTried(bk, s.nKey, trieds[..|trieds| - 1], j)
    ensures FirstTried(bk, s.nKey, trieds, j) && SeatedFor(bk, trieds, s0.nIdCount, s', TriedSlotFor(bk, s'.nKey, trieds[j]), j)
  {
    var k := |trieds| - 1;
    LoadTriedIs(bk, s, trieds[k]);
    FirstTriedPrefix(bk, s.nKey, trieds, k, j);
    hide LoadTried, TriedSlotFor, FirstTried;
    if j < k {
      assert trieds[..k][j] == trieds[j];
      assert SeatedFor(bk, trieds[..k], s0.nIdCount, s, TriedSlotFor(bk, s.nKey, trieds[j]), j);
    }
  }

  lemma TriedSlotFreeIffFirst(bk: Buckets, s0: State, trieds: seq<Saved>, s: State)
    requires trieds != [] && TriedsLoaded(bk, trieds[..|trieds| - 1], s0, s)
    ensures var k := |trieds| - 1; TriedSlotFor(bk, s.nKey, trieds[k]) !in s.vvTried <==> FirstTried(bk, s.nKey, trieds, k)
  {
    hide TriedSlotFor;
    var k := |trieds| - 1;
    var sl := TriedSlotFor(bk, s.nKey, trieds[k]);
    if sl in s.vvTried {
      var j :| SeatedFor(bk, trieds[..k], s0.nIdCount, s, sl, j);
      assert trieds[..k][j] == trieds[j];
    } else {
      forall m | 0 <= m < k ensures TriedSlotFor(bk, s.nKey, trieds[m]) != sl {
        var j := LeastTriedWith(bk, s.nKey, trieds, m);
        FirstTriedPrefix(bk, s.nKey, trieds, k, j);
        assert trieds[..k][j] == trieds[j];
      }
    }
  }

  lemma {:induction false} LeastTriedWith(bk: Buckets, nKey: nat, trieds: seq<Saved>, k: nat) returns (m: nat)
    requires k < |trieds|
    ensures m <= k && TriedSlotFor(bk, nKey, trieds[m]) == TriedSlotFor(bk, nKey, trieds[k]) && FirstTried(bk, nKey, trieds, m)
    decreases k
  {
    hide TriedSlotFor;
    m := k;
    if !FirstTried(bk, nKey, trieds, k) {
      m :| 0 <= m < k && TriedSlotFor(bk, nKey, trieds[m]) == TriedSlotFor(bk, nKey, trieds[k]);
      m := LeastTriedWith(bk, nKey, trieds, m);
    }
  }

  // ----- what is dropped at the end

  predicate Unused(s: State, n: int) {
    n in s.mapInfo && !s.mapInfo[n].fInTried && s.mapInfo[n].nRefCount == 0
  }

  /** Exactly the new entries with no reference go, and nothing is changed about the others. */
  lemma {:induction false} PurgeExactly(s: State, id: nat, end: int)
    requires Listing(s, end)
    ensures var r := Purge(s, id, end);
      && Ops.RecordsKept(s, r, {}) && r.vvNew == s.vvNew && r.vvTried == s.vvTried
      && (forall n :: n in r.mapInfo <==> n in s.mapInfo && !(id <= n && Unused(s, n)))
      && (forall n :: n in r.mapInfo ==> SameButPos(r.mapInfo[n], s.mapInfo[n]))
    decreases end - id
  {
    hide Listing, Delete, CanDelete, Ops.RecordsKept;
    if id < end {
      if id in s.mapInfo && !s.mapInfo[id].fInTried && s.mapInfo[id].nRefCount == 0 {
        ListingDelete(s, end, id);
        var s1 := Delete(s, id);
        Ops.DeleteRecords(s, id);
        DeleteExactly(s, id);
        PurgeExactly(s1, id + 1, end);
        Ops.RecordsTwice(s, s1, Purge(s1, id + 1, end), {});
      } else {
        PurgeExactly(s, id + 1, end);
      }
    } else {
      Ops.CountedRecords(s, s);
      ListingBelow(s, end);
    }
  }

  lemma ListingBelow(s: State, end: int)
    requires Listing(s, end)
    ensures forall n :: n in s.mapInfo ==> n < end
  {
  }

  lemma DeleteExactly(s: State, id: int)
    requires CanDelete(s, id)
    ensures var r := Delete(s, id);
      && r.vvNew == s.vvNew && r.vvTried == s.vvTried && r.mapInfo.Keys == s.mapInfo.Keys - {id}
      && forall n :: n in r.mapInfo ==> SameButPos(r.mapInfo[n], s.mapInfo[n])
  {
  }

  // ----- the whole of it

  /** What is left of a file of another format: of the new entries those whose slot was free when their
      turn came, each in that slot with one reference; of the tried ones likewise. */
  lemma ForeignRead(bk: Buckets, f: File)
    requires !OwnFormat(f)
    ensures var r := Read(bk, f);
      && Rehashed(bk, f.nKey, f.news, r.vvNew)
      && (forall n :: 0 <= n < |f.news| ==> (n in r.mapInfo <==> First(bk, f.nKey, f.news, n)))
      && (forall n :: First(bk, f.nKey, f.news, n) ==> SameButPos(r.mapInfo[n], Loaded(f.news[n]).(nRefCount := 1)))
      && (forall j :: FirstTried(bk, f.nKey, f.trieds, j) ==>
            var sl := TriedSlotFor(bk, f.nKey, f.trieds[j]);
            sl in r.vvTried && r.vvTried[sl] in r.mapInfo && SameButPos(r.mapInfo[r.vvTried[sl]], Loaded(f.trieds[j]).(fInTried := true)))
      && (forall sl :: sl in r.vvTried ==> exists j :: FirstTried(bk, f.nKey, f.trieds, j) && TriedSlotFor(bk, f.nKey, f.trieds[j]) == sl)
  {
    hide TriedSlotFor, SlotFor, Rehashed, Listing, LoadNews, LoadTrieds, Purge;
    var s0 := Empty(f.nKey).(nNew := |f.news|);
    var s1 := LoadNews(bk, s0, f.news, true).(nIdCount := |f.news|);
    ForeignNews(bk, f.nKey, |f.news|, f.news);
    ListingNews(bk, f.nKey, |f.news|, f.news, true);
    SameListing(LoadNews(bk, s0, f.news, true), s1, |f.news|);
    var s2 := LoadTrieds(bk, s1, f.trieds);
    ForeignTrieds(bk, s1, f.trieds);
    ListingTrieds(bk, s1, f.trieds);
    PurgeExactly(s2, 0, s2.nIdCount);
    var r := Purge(s2, 0, s2.nIdCount);
    assert Read(bk, f) == r;
    hide Read, Ops.RecordsKept;
    ForeignNewsLeft(bk, f.nKey, f.news, s1, s2, r);
    hide NewsLoaded, First;
    ForeignTriedsLeft(bk, f.trieds, s1, s2, r);
    hide TriedsLoaded, FirstTried;
  }

  lemma ForeignTriedsLeft(bk: Buckets, trieds: seq<Saved>, s1: State, s2: State, r: State)
    requires TriedsLoaded(bk, trieds, s1, s2) && r.vvTried == s2.vvTried && s1.nIdCount >= 0
    requires forall n :: n in r.mapInfo <==> n in s2.mapInfo && !(0 <= n && Unused(s2, n))
    requires forall n :: n in r.mapInfo ==> SameButPos(r.mapInfo[n], s2.mapInfo[n])
    ensures forall j :: FirstTried(bk, s1.nKey, trieds, j) ==>
      var sl := TriedSlotFor(bk, s1.nKey, trieds[j]);
      sl in r.vvTried && r.vvTried[sl] in r.mapInfo && SameButPos(r.mapInfo[r.vvTried[sl]], Loaded(trieds[j]).(fInTried := true))
    ensures forall sl :: sl in r.vvTried ==> exists j :: FirstTried(bk, s1.nKey, trieds, j) && TriedSlotFor(bk, s1.nKey, trieds[j]) == sl
  {
    hide TriedSlotFor;
    forall sl | sl in r.vvTried ensures exists j :: FirstTried(bk, s1.nKey, trieds, j) && TriedSlotFor(bk, s1.nKey, trieds[j]) == sl {
      var j :| SeatedFor(bk, trieds, s1.nIdCount, s2, sl, j);
    }
    forall j | FirstTried(bk, s1.nKey, trieds, j)
      ensures var sl := TriedSlotFor(bk, s1.nKey, trieds[j]);
        sl in r.vvTried && r.vvTried[sl] in r.mapInfo && SameButPos(r.mapInfo[r.vvTried[sl]], Loaded(trieds[j]).(fInTried := true))
    {
      assert SeatedFor(bk, trieds, s1.nIdCount, s2, TriedSlotFor(bk, s1.nKey, trieds[j]), j);
    }
  }

  lemma ForeignNewsLeft(bk: Buckets, nKey: nat, news: seq<Saved>, s1: State, s2: State, r: State)
    requires NewsLoaded(bk, news, s1.(vvTried := map[])) && s1.nKey == nKey && s1.nIdCount == |news|
    requires forall n :: n < |news| ==> (n in s2.mapInfo <==> n in s1.mapInfo) && (n in s2.mapInfo ==> s2.mapInfo[n] == s1.mapInfo[n])
    requires forall n :: n in r.mapInfo <==> n in s2.mapInfo && !(0 <= n && Unused(s2, n))
    requires forall n :: n in r.mapInfo ==> SameButPos(r.mapInfo[n], s2.mapInfo[n])
    ensures forall n :: 0 <= n < |news| ==> (n in r.mapInfo <==> First(bk, nKey, news, n))
    ensures forall n :: First(bk, nKey, news, n) ==> n in r.mapInfo && SameButPos(r.mapInfo[n], Loaded(news[n]).(nRefCount := 1))
  {
    hide SlotFor, Rehashed;
    forall n | 0 <= n < |news| ensures n in r.mapInfo <==> First(bk, nKey, news, n) {
      assert s2.mapInfo[n] == s1.mapInfo[n];
    }
    forall n | First(bk, nKey, news, n) ensures n in r.mapInfo && SameButPos(r.mapInfo[n], Loaded(news[n]).(nRefCount := 1)) {
      assert s2.mapInfo[n] == s1.mapInfo[n];
    }
  }
}
