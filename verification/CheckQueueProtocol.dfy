/** All interleavings of the threads that use one check queue.  Thread 0 is the master; the others
    are workers, which enter `Loop` once and never leave it.  One action is one stretch of code
    under the mutex, or the evaluation of one batch outside it; a waiting thread may re-enter
    whether or not it was signalled, so spurious wakeups are included. */
module CheckQueueProtocol {
  import opened CheckQueue

  datatype Thread<T> =
    | Outside
    | Busy(vChecks: seq<T>, fOk: bool)      // holds a batch it has not evaluated
    | Done(vChecks: seq<T>, fOk: bool)      // has evaluated it, has not reported it
    | Waiting(notified: bool)

  /** `open` spans a session, from the controller's constructor until `Wait` returns.  The four
      multisets are history: the checks added in the session, those reported back to the queue,
      those evaluated and those passed over. */
  datatype System<T> = System(sh: Shared<T>, threads: seq<Thread<T>>, open: bool,
                              added: multiset<T>, consumed: multiset<T>, ran: multiset<T>, skipped: multiset<T>)

  datatype Action<T> = Open | Add(vChecks: seq<T>, woken: nat) | Evaluate(i: nat) | Enter(i: nat)

  // ----- transitions

  function Init<T>(workers: nat): System<T> {
    System(Shared([], 0, 0, true, 0, false), seq(workers + 1, _ => Outside), false,
           multiset{}, multiset{}, multiset{}, multiset{})
  }

  function Notify<T>(t: Thread<T>): Thread<T> {
    if t.Waiting? then Waiting(true) else t
  }

  /** `notify_one` on the workers' condition variable picks some waiting worker, if there is one. */
  predicate MayWake<T>(threads: seq<Thread<T>>, k: nat) {
    if exists j :: 1 <= j < |threads| && threads[j].Waiting? then 1 <= k < |threads| && threads[k].Waiting? else k == 0
  }

  function AddNotified<T>(threads: seq<Thread<T>>, count: nat, woken: nat): (r: seq<Thread<T>>)
    ensures |r| == |threads|
  {
    seq(|threads|, j requires 0 <= j < |threads| =>
      if j >= 1 && (count > 1 || (count == 1 && j == woken)) then Notify(threads[j]) else threads[j])
  }

  function EntryOf<T>(t: Thread<T>): Entry
    requires !t.Busy?
  {
    match t
    case Outside => First
    case Done(vChecks, fOk) => AfterBatch(|vChecks|, fOk)
    case Waiting(_) => Woken
  }

  function AfterExit<T>(exit: Exit<T>): Thread<T> {
    match exit
    case Return(_) => Outside
    case Wait => Waiting(false)
    case Take(vChecks, fOk) => Busy(vChecks, fOk)
  }

  predicate Enabled<T>(s: System<T>, a: Action<T>) {
    && |s.threads| > 0
    && match a
       case Open => !s.open && s.threads[0].Outside?
       case Add(vChecks, woken) => s.open && s.threads[0].Outside? && (|vChecks| == 1 ==> MayWake(s.threads, woken))
       case Evaluate(i) => i < |s.threads| && s.threads[i].Busy?
       case Enter(i) => i < |s.threads| && !s.threads[i].Busy? && (i == 0 && s.threads[0].Outside? ==> s.open)
  }

  /** What the entering thread does with the queue.  Stuck if a counter it relies on is wrong,
      which `EntryIsSound` excludes. */
  function EnterStep<T>(nBatchSize: nat, s: System<T>, i: nat): System<T>
    requires Enabled(s, Enter(i))
  {
    var t := s.threads[i];
    var e := EntryOf(t);
    if !CanEnter(s.sh, e) then s else
      var (sh, exit) := Section(s.sh, i == 0, nBatchSize, e);
      var threads := if WakesMaster(s.sh, i == 0, e) then s.threads[0 := Notify(s.threads[0])] else s.threads;
      s.(sh := sh,
         threads := threads[i := AfterExit(exit)],
         open := s.open && !(i == 0 && exit.Return?),
         consumed := if t.Done? then s.consumed + multiset(t.vChecks) else s.consumed)
  }

  function Apply<T>(eval: T -> bool, nBatchSize: nat, s: System<T>, a: Action<T>): System<T>
    requires Enabled(s, a)
  {
    match a
    case Open =>
      s.(open := true, added := multiset{}, consumed := multiset{}, ran := multiset{}, skipped := multiset{})
    case Add(vChecks, woken) =>
      s.(sh := s.sh.(queue := s.sh.queue + vChecks, nTodo := s.sh.nTodo + |vChecks|),
         threads := AddNotified(s.threads, |vChecks|, woken),
         added := s.added + multiset(vChecks))
    case Evaluate(i) =>
      var t := s.threads[i];
      var n := Evaluated(eval, t.vChecks, t.fOk);
      s.(threads := s.threads[i := Done(t.vChecks, t.fOk && AllHold(eval, t.vChecks))],
         ran := s.ran + multiset(t.vChecks[..n]),
         skipped := s.skipped + multiset(t.vChecks[n..]))
    case Enter(i) =>
      EnterStep(nBatchSize, s, i)
  }

  /** The state a run of actions leads to. */
  ghost predicate Run<T>(eval: T -> bool, nBatchSize: nat, s: System<T>, acts: seq<Action<T>>, s': System<T>)
    decreases |acts|
  {
    if acts == [] then s == s'
    else Enabled(s, acts[0]) && Run(eval, nBatchSize, Apply(eval, nBatchSize, s, acts[0]), acts[1..], s')
  }

  /** What some run of one master and so many workers leads to. */
  ghost predicate Reachable<T(!new)>(eval: T -> bool, nBatchSize: nat, workers: nat, s: System<T>) {
    exists acts :: Run(eval, nBatchSize, Init(workers), acts, s)
  }

  // ----- sums over the threads

  function Held<T>(t: Thread<T>): multiset<T> {
    if t.Busy? || t.Done? then multiset(t.vChecks) else multiset{}
  }

  function Unevaluated<T>(t: Thread<T>): multiset<T> {
    if t.Busy? then multiset(t.vChecks) else multiset{}
  }

  function Counted<T>(t: Thread<T>): int {
    if t.Outside? then 0 else 1
  }

  function Idle<T>(t: Thread<T>): int {
    if t.Waiting? then 1 else 0
  }

  function Union<T>(f: Thread<T> -> multiset<T>, ts: seq<Thread<T>>): multiset<T> {
    if ts == [] then multiset{} else f(ts[0]) + Union(f, ts[1..])
  }

  function Sum<T>(f: Thread<T> -> int, ts: seq<Thread<T>>): int {
    if ts == [] then 0 else f(ts[0]) + Sum(f, ts[1..])
  }

  lemma Swap<T>(h: multiset<T>, x: multiset<T>, a: multiset<T>, y: multiset<T>, b: multiset<T>)
    requires x + a == y + b
    ensures (h + x) + a == (h + y) + b
  {
    assert (h + x) + a == h + (x + a);
  }

  lemma Cancel<T>(a: multiset<T>, b: multiset<T>, m: multiset<T>)
    requires a + m == b + m
    ensures a == b
  {
    assert a == (a + m) - m;
    assert b == (b + m) - m;
  }

  lemma Sizes<T>(a: multiset<T>, x: multiset<T>, b: multiset<T>, y: multiset<T>)
    requires a + x == b + y
    ensures |a| + |x| == |b| + |y|
  {
    assert |a + x| == |b + y|;
  }

  lemma {:induction false} UnionUpdate<T>(f: Thread<T> -> multiset<T>, ts: seq<Thread<T>>, i: nat, t: Thread<T>)
    requires i < |ts|
    ensures Union(f, ts[i := t]) + f(ts[i]) == Union(f, ts) + f(t)
  {
    if i > 0 {
      UnionUpdate(f, ts[1..], i - 1, t);
      assert ts[i := t][1..] == ts[1..][i - 1 := t];
      Swap(f(ts[0]), Union(f, ts[1..][i - 1 := t]), f(ts[i]), Union(f, ts[1..]), f(t));
    } else {
      assert ts[0 := t][1..] == ts[1..];
    }
  }

  lemma {:induction false} SumUpdate<T>(f: Thread<T> -> int, ts: seq<Thread<T>>, i: nat, t: Thread<T>)
    requires i < |ts|
    ensures Sum(f, ts[i := t]) + f(ts[i]) == Sum(f, ts) + f(t)
  {
    if i > 0 {
      SumUpdate(f, ts[1..], i - 1, t);
      assert ts[i := t][1..] == ts[1..][i - 1 := t];
    } else {
      assert ts[0 := t][1..] == ts[1..];
    }
  }

  lemma {:induction false} UnionSame<T>(f: Thread<T> -> multiset<T>, ts: seq<Thread<T>>, us: seq<Thread<T>>)
    requires |ts| == |us| && forall i :: 0 <= i < |ts| ==> f(ts[i]) == f(us[i])
    ensures Union(f, ts) == Union(f, us)
  {
    if ts != [] {
      assert forall i :: 0 <= i < |ts[1..]| ==> ts[1..][i] == ts[i + 1] && us[1..][i] == us[i + 1];
      UnionSame(f, ts[1..], us[1..]);
    }
  }

  lemma {:induction false} SumSame<T>(f: Thread<T> -> int, ts: seq<Thread<T>>, us: seq<Thread<T>>)
    requires |ts| == |us| && forall i :: 0 <= i < |ts| ==> f(ts[i]) == f(us[i])
    ensures Sum(f, ts) == Sum(f, us)
  {
    if ts != [] {
      assert forall i :: 0 <= i < |ts[1..]| ==> ts[1..][i] == ts[i + 1] && us[1..][i] == us[i + 1];
      SumSame(f, ts[1..], us[1..]);
    }
  }

  lemma {:induction false} UnionBounds<T>(f: Thread<T> -> multiset<T>, ts: seq<Thread<T>>, i: nat)
    requires i < |ts|
    ensures f(ts[i]) <= Union(f, ts)
  {
    if i > 0 {
      UnionBounds(f, ts[1..], i - 1);
    }
  }

  /** A nonempty union has a thread that contributes to it. */
  lemma {:induction false} UnionWitness<T>(f: Thread<T> -> multiset<T>, ts: seq<Thread<T>>) returns (i: nat)
    requires |Union(f, ts)| > 0
    ensures i < |ts| && |f(ts[i])| > 0
  {
    if |f(ts[0])| > 0 {
      i := 0;
    } else {
      i := UnionWitness(f, ts[1..]);
      i := i + 1;
    }
  }

  lemma {:induction false} SumBounds<T>(f: Thread<T> -> int, ts: seq<Thread<T>>, i: nat)
    requires i < |ts| && forall j :: 0 <= j < |ts| ==> f(ts[j]) >= 0
    ensures 0 <= f(ts[i]) <= Sum(f, ts)
  {
    if |ts| > 1 {
      assert forall j :: 0 <= j < |ts[1..]| ==> ts[1..][j] == ts[j + 1];
      SumBounds(f, ts[1..], if i > 0 then i - 1 else 0);
    }
  }

  // ----- the invariant

  ghost predicate Failed<T>(eval: T -> bool, ran: multiset<T>) {
    exists c :: c in ran && !eval(c)
  }

  /** Whenever the mutex is free: the counters count, every check added is in exactly one place,
      and the flags agree with what has been evaluated. */
  ghost predicate Inv<T>(eval: T -> bool, s: System<T>) {
    && |s.threads| > 0
    && Counters(s)
    && Places(s)
    && Flags(eval, s)
    && Session(s)
  }

  ghost predicate Counters<T>(s: System<T>) {
    && s.sh.nTotal == Sum(Counted, s.threads)
    && s.sh.nIdle == Sum(Idle, s.threads)
    && s.sh.nTodo == |s.sh.queue| + |Union(Held, s.threads)|
    && !s.sh.fQuit
    && forall i :: 0 <= i < |s.threads| ==> (s.threads[i].Busy? || s.threads[i].Done? ==> s.threads[i].vChecks != [])
  }

  ghost predicate Places<T>(s: System<T>) {
    && s.added == multiset(s.sh.queue) + Union(Held, s.threads) + s.consumed
    && s.added == multiset(s.sh.queue) + Union(Unevaluated, s.threads) + (s.ran + s.skipped)
  }

  /** A batch `m` moves between the queue, the threads and the history. */
  lemma Regroup<T>(added: multiset<T>, q: multiset<T>, u: multiset<T>, h: multiset<T>,
                   q': multiset<T>, u': multiset<T>, h': multiset<T>,
                   qu: multiset<T>, uh: multiset<T>)
    requires added == q + u + h
    requires q == q' + qu && h' == h + uh && u' + uh == u + qu
    ensures added == q' + u' + h'
  {
    forall c | c in added + (q' + u' + h') ensures added[c] == (q' + u' + h')[c] {
      assert (u' + uh)[c] == (u + qu)[c];
    }
  }

  ghost predicate ThreadFlags<T>(eval: T -> bool, s: System<T>, t: Thread<T>) {
    && (t.Busy? && !t.fOk ==> Failed(eval, s.ran))
    && (t.Done? && t.fOk ==> AllHold(eval, t.vChecks))
    && (t.Done? && !t.fOk ==> Failed(eval, s.ran))
  }

  ghost predicate Flags<T>(eval: T -> bool, s: System<T>) {
    && (s.open && s.sh.fAllOk ==> forall c :: c in s.consumed ==> eval(c))
    && (!s.sh.fAllOk ==> Failed(eval, s.ran))
    && (|s.skipped| > 0 ==> Failed(eval, s.ran))
    && (forall i :: 0 <= i < |s.threads| ==> ThreadFlags(eval, s, s.threads[i]))
  }

  ghost predicate Session<T>(s: System<T>)
    requires |s.threads| > 0
  {
    && (!s.open ==> s.sh.nTodo == 0 && s.sh.fAllOk && s.threads[0].Outside?)
    && (s.threads[0].Waiting? ==> s.sh.queue == [] && (s.sh.nTodo == 0 ==> s.threads[0].notified))
  }

  lemma InitInv<T>(eval: T -> bool, workers: nat)
    ensures Inv(eval, Init<T>(workers))
  {
    var s := Init<T>(workers);
    InitSums<T>(s.threads);
  }

  lemma {:induction false} InitSums<T>(ts: seq<Thread<T>>)
    requires forall i :: 0 <= i < |ts| ==> ts[i] == Outside
    ensures Sum(Counted, ts) == Sum(Idle, ts) == 0
    ensures Union(Held, ts) == Union(Unevaluated, ts) == multiset{}
  {
    if ts != [] {
      InitSums(ts[1..]);
    }
  }

  /** The counters never stop a thread that may enter. */
  lemma EntryIsSound<T>(eval: T -> bool, s: System<T>, i: nat)
    requires Inv(eval, s) && Enabled(s, Enter(i))
    ensures CanEnter(s.sh, EntryOf(s.threads[i]))
    ensures EntryOf(s.threads[i]).AfterBatch? ==> |s.threads[i].vChecks| <= s.sh.nTodo
  {
    SumBounds(Counted, s.threads, i);
    SumBounds(Idle, s.threads, i);
    UnionBounds(Held, s.threads, i);
    if s.threads[i].Done? {
      SubmultisetSize(multiset(s.threads[i].vChecks), Union(Held, s.threads));
    }
  }

  lemma SubmultisetSize<T>(a: multiset<T>, b: multiset<T>)
    requires a <= b
    ensures |a| <= |b|
  {
    assert b == a + (b - a);
  }

  lemma OpenInv<T>(eval: T -> bool, nBatchSize: nat, s: System<T>)
    requires Inv(eval, s) && Enabled(s, Open)
    ensures Inv(eval, Apply(eval, nBatchSize, s, Open))
  {
    NothingHeld(eval, s);
  }

  /** Between sessions no check is queued and no thread holds one. */
  lemma NothingHeld<T>(eval: T -> bool, s: System<T>)
    requires Inv(eval, s) && s.sh.nTodo == 0
    ensures s.sh.queue == [] && Union(Held, s.threads) == Union(Unevaluated, s.threads) == multiset{}
    ensures forall i :: 0 <= i < |s.threads| ==> s.threads[i].Outside? || s.threads[i].Waiting?
  {
    assert |Union(Held, s.threads)| == 0;
    forall i | 0 <= i < |s.threads| ensures s.threads[i].Outside? || s.threads[i].Waiting? {
      UnionBounds(Held, s.threads, i);
      SubmultisetSize(Held(s.threads[i]), Union(Held, s.threads));
    }
    UnionSame(Unevaluated, s.threads, seq(|s.threads|, _ => Outside));
    InitSums(seq<Thread<T>>(|s.threads|, _ => Outside));
  }

  lemma AddKeepsSums<T>(ts: seq<Thread<T>>, count: nat, woken: nat)
    ensures var us := AddNotified(ts, count, woken);
      && Union(Held, ts) == Union(Held, us) && Union(Unevaluated, ts) == Union(Unevaluated, us)
      && Sum(Counted, ts) == Sum(Counted, us) && Sum(Idle, ts) == Sum(Idle, us)
  {
    var us := AddNotified(ts, count, woken);
    UnionSame(Held, ts, us);
    UnionSame(Unevaluated, ts, us);
    SumSame(Counted, ts, us);
    SumSame(Idle, ts, us);
  }

  lemma AddInv<T>(eval: T -> bool, nBatchSize: nat, s: System<T>, vChecks: seq<T>, woken: nat)
    requires Inv(eval, s) && Enabled(s, Add(vChecks, woken))
    ensures Inv(eval, Apply(eval, nBatchSize, s, Add(vChecks, woken)))
  {
    var s' := Apply(eval, nBatchSize, s, Add(vChecks, woken));
    AddPlaces(s, s', vChecks, woken);
    AddFlags(eval, s, s', |vChecks|, woken);
  }

  /** Adding one check wakes a waiting worker, if there is one; adding more wakes all of them.  No other
      thread is touched. */
  lemma AddWakes<T>(eval: T -> bool, nBatchSize: nat, s: System<T>, vChecks: seq<T>, woken: nat)
    requires Enabled(s, Add(vChecks, woken))
    ensures var ts := Apply(eval, nBatchSize, s, Add(vChecks, woken)).threads;
      && |ts| == |s.threads| && ts[0] == s.threads[0]
      && (|vChecks| > 1 ==> forall j :: 1 <= j < |ts| ==> ts[j] != Waiting(false))
      && (|vChecks| == 1 && (exists j :: 1 <= j < |ts| && s.threads[j].Waiting?) ==> exists j :: 1 <= j < |ts| && ts[j] == Waiting(true))
      && (forall j :: 0 <= j < |ts| ==> ts[j] == s.threads[j] || (s.threads[j].Waiting? && ts[j] == Waiting(true)))
  {
    var ts := Apply(eval, nBatchSize, s, Add(vChecks, woken)).threads;
    if |vChecks| == 1 && exists j :: 1 <= j < |ts| && s.threads[j].Waiting? {
      assert ts[woken] == Waiting(true);
    }
  }

  lemma AddPlaces<T>(s: System<T>, s': System<T>, vChecks: seq<T>, woken: nat)
    requires Counters(s) && Places(s)
    requires s'.threads == AddNotified(s.threads, |vChecks|, woken) && s'.added == s.added + multiset(vChecks)
    requires s'.sh == s.sh.(queue := s.sh.queue + vChecks, nTodo := s.sh.nTodo + |vChecks|)
    requires s'.consumed == s.consumed && s'.ran == s.ran && s'.skipped == s.skipped
    ensures Counters(s') && Places(s')
  {
    AddKeepsSums(s.threads, |vChecks|, woken);
    var m := multiset(vChecks);
    assert multiset(s.sh.queue + vChecks) == multiset(s.sh.queue) + m;
    Insert(multiset(s.sh.queue), m, Union(Held, s.threads), s.consumed);
    Insert(multiset(s.sh.queue), m, Union(Unevaluated, s.threads), s.ran + s.skipped);
  }

  lemma Pair<T>(a: multiset<T>, x: multiset<T>, b: multiset<T>, y: multiset<T>)
    ensures (a + x) + (b + y) == (a + b) + (x + y)
  {
  }

  lemma Insert<T>(q: multiset<T>, m: multiset<T>, u: multiset<T>, h: multiset<T>)
    ensures (q + u + h) + m == (q + m) + u + h
  {
  }

  lemma AddFlags<T>(eval: T -> bool, s: System<T>, s': System<T>, count: nat, woken: nat)
    requires Flags(eval, s)
    requires s'.threads == AddNotified(s.threads, count, woken) && s'.sh.fAllOk == s.sh.fAllOk && s'.open == s.open
    requires s'.consumed == s.consumed && s'.ran == s.ran && s'.skipped == s.skipped
    ensures Flags(eval, s')
  {
    forall i | 0 <= i < |s'.threads| ensures ThreadFlags(eval, s', s'.threads[i]) {
      assert ThreadFlags(eval, s, s.threads[i]);
    }
  }

  /** Replacing thread `i` after a change `mid` that the sums do not see. */
  lemma ReplaceSums<T>(ts: seq<Thread<T>>, mid: seq<Thread<T>>, i: nat, t': Thread<T>)
    requires i < |ts| == |mid| && ts[i] == mid[i]
    requires forall j :: 0 <= j < |ts| ==> mid[j] == ts[j] || mid[j] == Notify(ts[j])
    ensures Union(Held, mid[i := t']) + Held(ts[i]) == Union(Held, ts) + Held(t')
    ensures Union(Unevaluated, mid[i := t']) + Unevaluated(ts[i]) == Union(Unevaluated, ts) + Unevaluated(t')
    ensures Sum(Counted, mid[i := t']) + Counted(ts[i]) == Sum(Counted, ts) + Counted(t')
    ensures Sum(Idle, mid[i := t']) + Idle(ts[i]) == Sum(Idle, ts) + Idle(t')
  {
    UnionSame(Held, ts, mid);
    UnionSame(Unevaluated, ts, mid);
    SumSame(Counted, ts, mid);
    SumSame(Idle, ts, mid);
    UnionUpdate(Held, mid, i, t');
    UnionUpdate(Unevaluated, mid, i, t');
    SumUpdate(Counted, mid, i, t');
    SumUpdate(Idle, mid, i, t');
  }

  lemma EvaluateInv<T>(eval: T -> bool, nBatchSize: nat, s: System<T>, i: nat)
    requires Inv(eval, s) && Enabled(s, Evaluate(i))
    ensures Inv(eval, Apply(eval, nBatchSize, s, Evaluate(i)))
  {
    var s' := Apply(eval, nBatchSize, s, Evaluate(i));
    var t := s.threads[i];
    var n := Evaluated(eval, t.vChecks, t.fOk);
    EvaluatePlaces(s, s', i, n);
    EvaluateFlags(eval, s, s', i);
  }

  lemma EvaluatePlaces<T>(s: System<T>, s': System<T>, i: nat, n: nat)
    requires Counters(s) && Places(s) && i < |s.threads| && s.threads[i].Busy? && n <= |s.threads[i].vChecks|
    requires exists fOk :: s'.threads == s.threads[i := Done(s.threads[i].vChecks, fOk)]
    requires s'.sh == s.sh && s'.added == s.added && s'.consumed == s.consumed
    requires s'.ran == s.ran + multiset(s.threads[i].vChecks[..n])
    requires s'.skipped == s.skipped + multiset(s.threads[i].vChecks[n..])
    ensures Counters(s') && Places(s')
  {
    var t, t' := s.threads[i], s'.threads[i];
    ReplaceSums(s.threads, s.threads, i, t');
    Cancel(Union(Held, s'.threads), Union(Held, s.threads), Held(t));
    assert t.vChecks == t.vChecks[..n] + t.vChecks[n..];
    hide Union, Sum;
    Pair(s.ran, multiset(t.vChecks[..n]), s.skipped, multiset(t.vChecks[n..]));
    Regroup(s.added, multiset(s.sh.queue), Union(Unevaluated, s.threads), s.ran + s.skipped,
            multiset(s.sh.queue), Union(Unevaluated, s'.threads), s'.ran + s'.skipped,
            multiset{}, multiset(t.vChecks));
  }

  lemma EvaluateFlags<T>(eval: T -> bool, s: System<T>, s': System<T>, i: nat)
    requires Flags(eval, s) && i < |s.threads| && s.threads[i].Busy?
    requires var t := s.threads[i];
      var n := Evaluated(eval, t.vChecks, t.fOk);
      && s'.threads == s.threads[i := Done(t.vChecks, t.fOk && AllHold(eval, t.vChecks))]
      && s'.ran == s.ran + multiset(t.vChecks[..n])
      && s'.skipped == s.skipped + multiset(t.vChecks[n..])
    requires s'.sh == s.sh && s'.open == s.open && s'.consumed == s.consumed
    ensures Flags(eval, s')
  {
    var t := s.threads[i];
    var n := Evaluated(eval, t.vChecks, t.fOk);
    assert ThreadFlags(eval, s, t);
    FailedGrows(eval, s.ran, s'.ran);
    if t.fOk && !AllHold(eval, t.vChecks) {
      var f := FirstFailure(eval, t.vChecks);
      assert t.vChecks[..n][f] == t.vChecks[f];
      assert t.vChecks[f] in s'.ran;
    }
    forall j | 0 <= j < |s'.threads| ensures ThreadFlags(eval, s', s'.threads[j]) {
      assert ThreadFlags(eval, s, s.threads[j]);
    }
  }

  lemma FailedGrows<T>(eval: T -> bool, a: multiset<T>, b: multiset<T>)
    requires a <= b
    ensures Failed(eval, a) ==> Failed(eval, b)
  {
    if Failed(eval, a) {
      var c :| c in a && !eval(c);
      assert c in b;
    }
  }

  lemma {:induction false} FromBackContents<T>(queue: seq<T>, n: nat)
    requires n <= |queue|
    ensures multiset(queue) == multiset(queue[..|queue| - n]) + multiset(FromBack(queue, n))
  {
    if n == 0 {
      assert queue[..|queue|] == queue;
    } else {
      FromBackContents(queue, n - 1);
      var k := |queue| - n;
      assert FromBack(queue, n) == FromBack(queue, n - 1) + [queue[k]];
      assert queue[..k + 1] == queue[..k] + [queue[k]];
    }
  }

  lemma EnterInv<T>(eval: T -> bool, nBatchSize: nat, s: System<T>, i: nat)
    requires Inv(eval, s) && Enabled(s, Enter(i))
    ensures Inv(eval, EnterStep(nBatchSize, s, i))
  {
    EntryIsSound(eval, s, i);
    EnterShape(nBatchSize, s, i);
    var s' := EnterStep(nBatchSize, s, i);
    var t' := s'.threads[i];
    if t'.Busy? {
      FromBackContents(s.sh.queue, |t'.vChecks|);
    }
    EnterCounters(s, s', i, Signalled(s, i), t');
    EnterPlaces(s, s', i, Signalled(s, i), t');
    EnterFlags(eval, nBatchSize, s, i);
    EnterSession(eval, nBatchSize, s, i);
  }

  /** The threads once a possible signal has reached the master. */
  function Signalled<T>(s: System<T>, i: nat): (r: seq<Thread<T>>)
    requires Enabled(s, Enter(i))
    ensures |r| == |s.threads| && r[i] == s.threads[i]
    ensures forall j :: 0 <= j < |r| ==> r[j] == s.threads[j] || r[j] == Notify(s.threads[j])
  {
    if WakesMaster(s.sh, i == 0, EntryOf(s.threads[i])) then s.threads[0 := Notify(s.threads[0])] else s.threads
  }

  /** What one entry changes, before any sum is taken. */
  lemma EnterShape<T>(nBatchSize: nat, s: System<T>, i: nat)
    requires Enabled(s, Enter(i)) && CanEnter(s.sh, EntryOf(s.threads[i]))
    ensures var s' := EnterStep(nBatchSize, s, i);
      var t, t' := s.threads[i], s'.threads[i];
      && s'.threads == Signalled(s, i)[i := t']
      && !t'.Done?
      && (t'.Busy? ==> && t'.vChecks != [] && |t'.vChecks| <= |s.sh.queue|
                       && t'.vChecks == FromBack(s.sh.queue, |t'.vChecks|)
                       && s'.sh.queue == s.sh.queue[..|s.sh.queue| - |t'.vChecks|])
      && (!t'.Busy? ==> s'.sh.queue == s.sh.queue)
      && s'.sh.nTotal - s.sh.nTotal == Counted(t') - Counted(t)
      && s'.sh.nIdle - s.sh.nIdle == Idle(t') - Idle(t)
      && s'.sh.nTodo == s.sh.nTodo - (if t.Done? then |t.vChecks| else 0)
      && s'.sh.fQuit == s.sh.fQuit
      && s'.added == s.added && s'.ran == s.ran && s'.skipped == s.skipped
      && s'.consumed == s.consumed + Held(t)
  {
    var e := EntryOf(s.threads[i]);
    var (sh, exit) := Section(s.sh, i == 0, nBatchSize, e);
    SectionShape(s.sh, i == 0, nBatchSize, e);
    assert EnterStep(nBatchSize, s, i).threads == Signalled(s, i)[i := AfterExit(exit)];
  }

  lemma SectionShape<T>(sh: Shared<T>, fMaster: bool, nBatchSize: nat, e: Entry)
    requires CanEnter(sh, e)
    ensures var (sh', exit) := Section(sh, fMaster, nBatchSize, e);
      && (exit.Take? ==> && 1 <= |exit.vChecks| <= |sh.queue|
                         && exit.vChecks == FromBack(sh.queue, |exit.vChecks|)
                         && sh'.queue == sh.queue[..|sh.queue| - |exit.vChecks|])
      && (!exit.Take? ==> sh'.queue == sh.queue)
      && sh'.nTotal - sh.nTotal == (if exit.Return? then 0 else 1) - (if e.First? then 0 else 1)
      && sh'.nIdle - sh.nIdle == (if exit.Wait? then 1 else 0) - (if e.Woken? then 1 else 0)
      && sh'.nTodo == sh.nTodo - (if e.AfterBatch? then e.nNow else 0)
      && sh'.fQuit == sh.fQuit
  {
  }

  lemma EnterCounters<T>(s: System<T>, s': System<T>, i: nat, mid: seq<Thread<T>>, t': Thread<T>)
    requires Counters(s) && i < |s.threads| == |mid| && mid[i] == s.threads[i]
    requires forall j :: 0 <= j < |mid| ==> mid[j] == s.threads[j] || mid[j] == Notify(s.threads[j])
    requires s'.threads == mid[i := t'] && !t'.Done? && (t'.Busy? ==> t'.vChecks != [])
    requires |s'.sh.queue| == |s.sh.queue| - (if t'.Busy? then |t'.vChecks| else 0)
    requires s'.sh.nTotal - s.sh.nTotal == Counted(t') - Counted(s.threads[i])
    requires s'.sh.nIdle - s.sh.nIdle == Idle(t') - Idle(s.threads[i])
    requires s'.sh.nTodo == s.sh.nTodo - (if s.threads[i].Done? then |s.threads[i].vChecks| else 0)
    requires !s.threads[i].Busy? && s'.sh.fQuit == s.sh.fQuit
    ensures Counters(s')
  {
    var t := s.threads[i];
    ReplaceSums(s.threads, mid, i, t');
    Sizes(Union(Held, s'.threads), Held(t), Union(Held, s.threads), Held(t'));
    assert |Held(t)| == (if t.Done? then |t.vChecks| else 0);
    assert |Held(t')| == (if t'.Busy? then |t'.vChecks| else 0);
  }

  lemma EnterPlaces<T>(s: System<T>, s': System<T>, i: nat, mid: seq<Thread<T>>, t': Thread<T>)
    requires Places(s) && i < |s.threads| == |mid| && mid[i] == s.threads[i]
    requires forall j :: 0 <= j < |mid| ==> mid[j] == s.threads[j] || mid[j] == Notify(s.threads[j])
    requires s'.threads == mid[i := t'] && !s.threads[i].Busy? && !t'.Done?
    requires multiset(s.sh.queue) == multiset(s'.sh.queue) + Held(t')
    requires s'.added == s.added && s'.ran == s.ran && s'.skipped == s.skipped
    requires s'.consumed == s.consumed + Held(s.threads[i])
    ensures Places(s')
  {
    ReplaceSums(s.threads, mid, i, t');
    Regroup(s.added, multiset(s.sh.queue), Union(Held, s.threads), s.consumed,
            multiset(s'.sh.queue), Union(Held, s'.threads), s'.consumed,
            Held(t'), Held(s.threads[i]));
    Regroup(s.added, multiset(s.sh.queue), Union(Unevaluated, s.threads), s.ran + s.skipped,
            multiset(s'.sh.queue), Union(Unevaluated, s'.threads), s'.ran + s'.skipped,
            Held(t'), multiset{});
  }

  lemma EnterFlags<T>(eval: T -> bool, nBatchSize: nat, s: System<T>, i: nat)
    requires Flags(eval, s) && Enabled(s, Enter(i)) && CanEnter(s.sh, EntryOf(s.threads[i]))
    requires s.added == multiset(s.sh.queue) + Union(Held, s.threads) + s.consumed
    requires s.sh.nTodo == |s.sh.queue| + |Union(Held, s.threads)|
    ensures Flags(eval, EnterStep(nBatchSize, s, i))
  {
    var s' := EnterStep(nBatchSize, s, i);
    var t := s.threads[i];
    EnterShape(nBatchSize, s, i);
    EnterVerdict(nBatchSize, s, i);
    assert ThreadFlags(eval, s, t);
    assert !(s.sh.fAllOk && (t.Done? ==> t.fOk)) ==> Failed(eval, s.ran);
    hide EnterStep, Signalled, Failed;
    if t.Done? && t.fOk {
      AllHoldIn(eval, t.vChecks);
    }
    forall j | 0 <= j < |s'.threads| ensures ThreadFlags(eval, s', s'.threads[j]) {
      assert ThreadFlags(eval, s, s.threads[j]);
      if j != i {
        FlagsKept(eval, s, s', s.threads[j], s'.threads[j]);
      }
    }
  }

  lemma FlagsKept<T>(eval: T -> bool, s: System<T>, s': System<T>, t: Thread<T>, t': Thread<T>)
    requires ThreadFlags(eval, s, t) && s'.ran == s.ran && (t' == t || t' == Notify(t))
    ensures ThreadFlags(eval, s', t')
  {
  }

  lemma AllHoldIn<T>(eval: T -> bool, checks: seq<T>)
    requires AllHold(eval, checks)
    ensures forall c :: c in multiset(checks) ==> eval(c)
  {
    forall c | c in multiset(checks) ensures eval(c) {
      var k :| 0 <= k < |checks| && checks[k] == c;
    }
  }

  /** What becomes of the flags: the entering thread adds its own verdict and takes the sum of all along. */
  lemma EnterVerdict<T>(nBatchSize: nat, s: System<T>, i: nat)
    requires Enabled(s, Enter(i)) && CanEnter(s.sh, EntryOf(s.threads[i]))
    ensures var s', t := EnterStep(nBatchSize, s, i), s.threads[i];
      var fOk := s.sh.fAllOk && (t.Done? ==> t.fOk);
      && (s'.open ==> s.open && s'.sh.fAllOk == fOk) && (!s'.sh.fAllOk ==> !fOk)
      && (s'.threads[i].Busy? ==> s'.threads[i].fOk == fOk)
  {
  }

  lemma EnterSession<T>(eval: T -> bool, nBatchSize: nat, s: System<T>, i: nat)
    requires Inv(eval, s) && Enabled(s, Enter(i)) && CanEnter(s.sh, EntryOf(s.threads[i]))
    ensures Session(EnterStep(nBatchSize, s, i))
  {
    if !s.open {
      NothingHeld(eval, s);
    }
    hide Inv, Counters, Places, Flags;
  }

  lemma StepInv<T>(eval: T -> bool, nBatchSize: nat, s: System<T>, a: Action<T>)
    requires Inv(eval, s) && Enabled(s, a)
    ensures Inv(eval, Apply(eval, nBatchSize, s, a))
  {
    match a
    case Open => OpenInv(eval, nBatchSize, s);
    case Add(vChecks, woken) => AddInv(eval, nBatchSize, s, vChecks, woken);
    case Evaluate(i) => EvaluateInv(eval, nBatchSize, s, i);
    case Enter(i) => EnterInv(eval, nBatchSize, s, i);
  }

  // ----- whole runs

  lemma {:induction false} RunInv<T>(eval: T -> bool, nBatchSize: nat, s: System<T>, acts: seq<Action<T>>, s': System<T>)
    requires Inv(eval, s) && Run(eval, nBatchSize, s, acts, s')
    ensures Inv(eval, s')
    decreases |acts|
  {
    if acts != [] {
      StepInv(eval, nBatchSize, s, acts[0]);
      RunInv(eval, nBatchSize, Apply(eval, nBatchSize, s, acts[0]), acts[1..], s');
    }
  }

  lemma ReachableInv<T(!new)>(eval: T -> bool, nBatchSize: nat, workers: nat, s: System<T>)
    requires Reachable(eval, nBatchSize, workers, s)
    ensures Inv(eval, s)
  {
    InitInv(eval, workers);
    var acts :| Run(eval, nBatchSize, Init(workers), acts, s);
    RunInv(eval, nBatchSize, Init(workers), acts, s);
  }

  /** What the step by which the master would enter now returns, if it returns. */
  function MasterExit<T>(nBatchSize: nat, s: System<T>): Exit<T>
    requires Enabled(s, Enter(0)) && CanEnter(s.sh, EntryOf(s.threads[0]))
  {
    Section(s.sh, true, nBatchSize, EntryOf(s.threads[0])).1
  }

  /** In every run, for any number of workers: `Wait` returns only once each added check has been
      reported back, every one of them was evaluated or passed over, it returns true exactly when
      all of them hold, and a check is passed over only if another one failed. */
  lemma WaitIsExact<T(!new)>(eval: T -> bool, nBatchSize: nat, workers: nat, s: System<T>)
    requires Reachable(eval, nBatchSize, workers, s)
    requires Enabled(s, Enter(0)) && CanEnter(s.sh, EntryOf(s.threads[0])) && MasterExit(nBatchSize, s).Return?
    ensures var s' := EnterStep(nBatchSize, s, 0);
      var fRet := MasterExit(nBatchSize, s).fRet;
      && s'.consumed == s.added
      && s.ran + s.skipped == s.added
      && (fRet <==> forall c :: c in s.added ==> eval(c))
      && (|s.skipped| > 0 ==> exists c :: c in s.ran && !eval(c))
  {
    ReachableInv(eval, nBatchSize, workers, s);
    hide Inv;
    AllConsumed(eval, nBatchSize, s);
    VerdictIsExact(eval, nBatchSize, s);
  }

  lemma AllConsumed<T>(eval: T -> bool, nBatchSize: nat, s: System<T>)
    requires Inv(eval, s)
    requires Enabled(s, Enter(0)) && CanEnter(s.sh, EntryOf(s.threads[0])) && MasterExit(nBatchSize, s).Return?
    ensures EnterStep(nBatchSize, s, 0).consumed == s.added && s.ran + s.skipped == s.added
  {
    var s' := EnterStep(nBatchSize, s, 0);
    EnterInv(eval, nBatchSize, s, 0);
    EnterShape(nBatchSize, s, 0);
    NothingHeld(eval, s');
    hide Counters, Flags, Session;
    assert s'.consumed == s'.added == s'.ran + s'.skipped;
  }

  lemma VerdictIsExact<T>(eval: T -> bool, nBatchSize: nat, s: System<T>)
    requires Inv(eval, s)
    requires Enabled(s, Enter(0)) && CanEnter(s.sh, EntryOf(s.threads[0])) && MasterExit(nBatchSize, s).Return?
    requires EnterStep(nBatchSize, s, 0).consumed == s.added && s.ran + s.skipped == s.added
    ensures MasterExit(nBatchSize, s).fRet <==> forall c :: c in s.added ==> eval(c)
    ensures |s.skipped| > 0 ==> exists c :: c in s.ran && !eval(c)
  {
    hide Counters, Places;
    var t := s.threads[0];
    assert ThreadFlags(eval, s, t);
    if MasterExit(nBatchSize, s).fRet {
      forall c | c in s.added ensures eval(c) {
        if c !in s.consumed {
          var k :| 0 <= k < |t.vChecks| && t.vChecks[k] == c;
        }
      }
    } else {
      var c :| c in s.ran && !eval(c);
      assert c in s.added;
    }
  }

  /** The assertion in the controller's constructor holds whenever a session may begin. */
  lemma IdleBetweenSessions<T(!new)>(eval: T -> bool, nBatchSize: nat, workers: nat, s: System<T>)
    requires Reachable(eval, nBatchSize, workers, s)
    requires Enabled(s, Open)
    ensures LooksIdle(s.sh)
  {
    ReachableInv(eval, nBatchSize, workers, s);
    IdleExactly(eval, nBatchSize, workers, s);
    NothingHeld(eval, s);
  }

  /** What the counters tell `IsIdle` is true of the threads themselves: none of them holds a batch,
      nothing is queued, and no failure is remembered. */
  lemma IdleExactly<T(!new)>(eval: T -> bool, nBatchSize: nat, workers: nat, s: System<T>)
    requires Reachable(eval, nBatchSize, workers, s)
    ensures LooksIdle(s.sh)
      <==> s.sh.fAllOk && s.sh.queue == [] && forall i :: 0 <= i < |s.threads| ==> s.threads[i].Outside? || s.threads[i].Waiting?
  {
    ReachableInv(eval, nBatchSize, workers, s);
    hide Places, Flags, Session;
    if LooksIdle(s.sh) {
      NothingHeld(eval, s);
    } else if s.sh.queue == [] && forall i :: 0 <= i < |s.threads| ==> s.threads[i].Outside? || s.threads[i].Waiting? {
      NoneHolds(s.threads);
      SumsAgree(s.threads);
    }
  }

  lemma {:induction false} NoneHolds<T>(ts: seq<Thread<T>>)
    requires forall i :: 0 <= i < |ts| ==> ts[i].Outside? || ts[i].Waiting?
    ensures Union(Held, ts) == multiset{}
  {
    if ts != [] {
      NoneHolds(ts[1..]);
    }
  }

  lemma {:induction false} SumsAgree<T>(ts: seq<Thread<T>>)
    requires forall i :: 0 <= i < |ts| ==> ts[i].Outside? || ts[i].Waiting?
    ensures Sum(Counted, ts) == Sum(Idle, ts)
  {
    if ts != [] {
      SumsAgree(ts[1..]);
    }
  }

  /** No wakeup is lost: a master that waits unsignalled has checks outstanding, none of them in
      the queue, and some worker holds a batch. */
  lemma NoLostWakeup<T(!new)>(eval: T -> bool, nBatchSize: nat, workers: nat, s: System<T>)
    requires Reachable(eval, nBatchSize, workers, s)
    requires s.threads != [] && s.threads[0] == Waiting(false)
    ensures s.sh.nTodo > 0 && s.sh.queue == []
    ensures exists i :: 1 <= i < |s.threads| && (s.threads[i].Busy? || s.threads[i].Done?) && s.threads[i].vChecks != []
  {
    ReachableInv(eval, nBatchSize, workers, s);
    EntryIsSound(eval, s, 0);
    var i := UnionWitness(Held, s.threads);
    assert s.threads[i].Busy? || s.threads[i].Done?;
  }

  /** Work left: a check weighs three in the queue, two in a thread, one once evaluated. */
  function Work<T>(s: System<T>): nat {
    3 * |s.sh.queue| + |Union(Held, s.threads)| + |Union(Unevaluated, s.threads)|
  }

  /** No step but `Add` makes work; evaluating a batch and reporting one use it up. */
  lemma StepWork<T>(eval: T -> bool, nBatchSize: nat, s: System<T>, a: Action<T>)
    requires Inv(eval, s) && Enabled(s, a) && !a.Add?
    ensures Work(Apply(eval, nBatchSize, s, a)) <= Work(s)
    ensures a.Evaluate? || (a.Enter? && s.threads[a.i].Done?) ==> Work(Apply(eval, nBatchSize, s, a)) < Work(s)
  {
    match a
    case Open =>
    case Evaluate(i) => EvaluateWork(s, i, Apply(eval, nBatchSize, s, a).threads[i]);
    case Enter(i) =>
      EntryIsSound(eval, s, i);
      EnterShape(nBatchSize, s, i);
      EnterWork(s, EnterStep(nBatchSize, s, i), i, Signalled(s, i));
  }

  lemma EvaluateWork<T>(s: System<T>, i: nat, t': Thread<T>)
    requires i < |s.threads| && s.threads[i].Busy? && s.threads[i].vChecks != []
    requires t'.Done? && t'.vChecks == s.threads[i].vChecks
    ensures |Union(Held, s.threads[i := t'])| == |Union(Held, s.threads)|
    ensures |Union(Unevaluated, s.threads[i := t'])| < |Union(Unevaluated, s.threads)|
  {
    var t := s.threads[i];
    ReplaceSums(s.threads, s.threads, i, t');
    Sizes(Union(Held, s.threads[i := t']), Held(t), Union(Held, s.threads), Held(t'));
    Sizes(Union(Unevaluated, s.threads[i := t']), Unevaluated(t), Union(Unevaluated, s.threads), Unevaluated(t'));
    assert |Held(t)| == |Held(t')| == |Unevaluated(t)| == |t.vChecks|;
  }

  lemma EnterWork<T>(s: System<T>, s': System<T>, i: nat, mid: seq<Thread<T>>)
    requires i < |s.threads| == |mid| && mid[i] == s.threads[i] && !s.threads[i].Busy?
    requires forall j :: 0 <= j < |mid| ==> mid[j] == s.threads[j] || mid[j] == Notify(s.threads[j])
    requires |s'.threads| == |mid| && s'.threads == mid[i := s'.threads[i]] && !s'.threads[i].Done?
    requires |s'.sh.queue| == |s.sh.queue| - (if s'.threads[i].Busy? then |s'.threads[i].vChecks| else 0)
    ensures Work(s') <= Work(s) - |Held(s.threads[i])|
  {
    var t, t' := s.threads[i], s'.threads[i];
    ReplaceSums(s.threads, mid, i, t');
    Sizes(Union(Held, s'.threads), Held(t), Union(Held, s.threads), Held(t'));
    Sizes(Union(Unevaluated, s'.threads), Unevaluated(t), Union(Unevaluated, s.threads), Unevaluated(t'));
    assert |Held(t')| == |Unevaluated(t')| == (if t'.Busy? then |t'.vChecks| else 0);
  }

  /** While the master is inside `Wait`, some thread that is not waiting for a signal can use up
      work or let the master return: no run gets stuck, with or without spurious wakeups. */
  lemma WaitMakesProgress<T(!new)>(eval: T -> bool, nBatchSize: nat, workers: nat, s: System<T>)
    requires Reachable(eval, nBatchSize, workers, s)
    requires s.threads != [] && !s.threads[0].Outside?
    ensures exists a: Action<T> :: && (a.Enter? || a.Evaluate?) && Enabled(s, a) && s.threads[a.i] != Waiting(false)
                                   && var s' := Apply(eval, nBatchSize, s, a); Work(s') < Work(s) || !s'.open
  {
    hide Inv, Run, Apply, Work;
    ReachableInv(eval, nBatchSize, workers, s);
    var a := ProgressStep(eval, nBatchSize, s);
  }

  lemma ProgressStep<T>(eval: T -> bool, nBatchSize: nat, s: System<T>) returns (a: Action<T>)
    requires Inv(eval, s) && s.threads != [] && !s.threads[0].Outside?
    ensures (a.Enter? || a.Evaluate?) && Enabled(s, a) && s.threads[a.i] != Waiting(false)
    ensures var s' := Apply(eval, nBatchSize, s, a);
      (Work(s') < Work(s) && (a.Evaluate? || s.threads[a.i].Done?)) || !s'.open
  {
    hide Inv, Apply, Work;
    var i := NextThread(eval, s);
    a := if s.threads[i].Busy? then Evaluate(i) else Enter(i);
    assert Enabled(s, a);
    if s.threads[i].Waiting? {
      MasterReturns(eval, nBatchSize, s);
    } else {
      StepWork(eval, nBatchSize, s, a);
    }
  }

  /** As long as the session is open, a master inside `Wait` stays there. */
  lemma MasterStays<T>(eval: T -> bool, nBatchSize: nat, s: System<T>, a: Action<T>)
    requires Inv(eval, s) && s.threads != [] && !s.threads[0].Outside? && Enabled(s, a)
    ensures var s' := Apply(eval, nBatchSize, s, a);
      |s'.threads| == |s.threads| && (s'.open ==> !s'.threads[0].Outside?)
  {
    if a.Enter? {
      EntryIsSound(eval, s, a.i);
    }
  }

  /** The thread to run next: one that holds a batch, or the master once nothing is outstanding. */
  lemma NextThread<T>(eval: T -> bool, s: System<T>) returns (i: nat)
    requires Inv(eval, s) && s.threads != [] && !s.threads[0].Outside?
    ensures i < |s.threads|
    ensures s.threads[i].Busy? || s.threads[i].Done? || (i == 0 && s.threads[0] == Waiting(true) && s.sh.nTodo == 0)
  {
    hide Places, Flags;
    i := 0;
    if s.threads[0].Waiting? && s.sh.nTodo > 0 {
      i := UnionWitness(Held, s.threads);
    }
  }

  /** A master that enters with nothing outstanding returns. */
  lemma MasterReturns<T>(eval: T -> bool, nBatchSize: nat, s: System<T>)
    requires Inv(eval, s) && s.threads != [] && s.threads[0].Waiting? && s.sh.nTodo == 0
    ensures !Apply(eval, nBatchSize, s, Enter(0)).open
  {
    EntryIsSound(eval, s, 0);
    NothingHeld(eval, s);
  }
}
