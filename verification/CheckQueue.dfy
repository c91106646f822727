/** The parallel check queue of src/checkqueue.h: one master and any number of workers share a
    queue under a mutex and two condition variables.  `Section` says what one stretch of
    `CCheckQueue::Loop` between two releases of the mutex does to the shared fields; the class
    performs it in place; the thread system that interleaves such stretches is in
    CheckQueueProtocol.dfy. */
module CheckQueue {
  import opened Basics

  /** The fields that the mutex protects. */
  datatype Shared<T> = Shared(queue: seq<T>, nIdle: int, nTotal: int, fAllOk: bool, nTodo: int, fQuit: bool)

  /** How a thread comes to hold the mutex: its first time round, after a batch of `nNow` checks
      whose outcome is `fOk`, or back from the condition variable. */
  datatype Entry = First | AfterBatch(nNow: nat, fOk: bool) | Woken

  /** How it gives the mutex up again. */
  datatype Exit<T> = Return(fRet: bool) | Wait | Take(vChecks: seq<T>, fOk: bool)

  /** The number of checks a thread takes: never none, never more than the queue holds or the batch size,
      unless to take one; as many as leave an equal share for each thread counted, the idle ones twice. */
  function BatchLength(nBatchSize: nat, size: nat, nTotal: int, nIdle: int): (n: nat)
    requires size > 0 && nTotal >= 0 && nIdle >= 0
    ensures 1 <= n <= size && n <= Max(1, nBatchSize)
    ensures n == 1 || n * (nTotal + nIdle + 1) <= size
    ensures n < nBatchSize ==> size < (n + 1) * (nTotal + nIdle + 1)
  {
    var threads := nTotal + nIdle + 1;
    var share := size / threads;
    EqualShare(size, threads, share, Min(nBatchSize, share));
    Max(1, Min(nBatchSize, share))
  }

  lemma EqualShare(size: nat, threads: nat, share: nat, n: nat)
    requires threads > 0 && share == size / threads && n <= share
    ensures share <= size && n * threads <= size < (share + 1) * threads
    ensures share == 0 ==> size < 2 * threads
  {
    assert size == share * threads + size % threads;
    NoLess(n, share, threads);
    NoLess(1, threads, share);
  }

  lemma NoLess(x: nat, y: nat, k: nat)
    requires x <= y
    ensures x * k <= y * k && (y + 1) * k == y * k + k
  {
    assert y * k == x * k + (y - x) * k;
  }

  /** The last `n` checks of the queue, last one first. */
  function FromBack<T>(queue: seq<T>, n: nat): (batch: seq<T>)
    requires n <= |queue|
  {
    seq(n, i requires 0 <= i < n => queue[|queue| - 1 - i])
  }

  /** The bookkeeping done on entry. */
  function Arrive<T>(sh: Shared<T>, e: Entry): Shared<T> {
    match e
    case First => sh.(nTotal := sh.nTotal + 1)
    case AfterBatch(nNow, fOk) => sh.(fAllOk := sh.fAllOk && fOk, nTodo := sh.nTodo - nNow)
    case Woken => sh.(nIdle := sh.nIdle - 1)
  }

  /** What follows it, until the mutex is free again. */
  function Leave<T>(sh: Shared<T>, fMaster: bool, nBatchSize: nat): (Shared<T>, Exit<T>)
    requires sh.nTotal >= 0 && sh.nIdle >= 0
  {
    if sh.queue != [] then
      var nNow := BatchLength(nBatchSize, |sh.queue|, sh.nTotal, sh.nIdle);
      (sh.(queue := sh.queue[..|sh.queue| - nNow]), Take(FromBack(sh.queue, nNow), sh.fAllOk))
    else if (fMaster || sh.fQuit) && sh.nTodo == 0 then
      (sh.(nTotal := sh.nTotal - 1, fAllOk := fMaster || sh.fAllOk), Return(sh.fAllOk))
    else
      (sh.(nIdle := sh.nIdle + 1), Wait)
  }

  /** What `IsIdle` looks at. */
  predicate LooksIdle<T>(sh: Shared<T>) {
    sh.nTotal == sh.nIdle && sh.nTodo == 0 && sh.fAllOk
  }

  predicate CanEnter<T>(sh: Shared<T>, e: Entry) {
    && sh.nTotal >= 0
    && sh.nIdle >= (if e.Woken? then 1 else 0)
  }

  function Section<T>(sh: Shared<T>, fMaster: bool, nBatchSize: nat, e: Entry): (Shared<T>, Exit<T>)
    requires CanEnter(sh, e)
  {
    Leave(Arrive(sh, e), fMaster, nBatchSize)
  }

  /** Whether the section signals the master's condition variable. */
  predicate WakesMaster<T>(sh: Shared<T>, fMaster: bool, e: Entry) {
    e.AfterBatch? && sh.nTodo - e.nNow == 0 && !fMaster
  }

  /** The first check of a batch that fails, or its length. */
  function FirstFailure<T>(eval: T -> bool, checks: seq<T>): (n: nat)
    ensures n <= |checks|
    ensures forall i :: 0 <= i < n ==> eval(checks[i])
    ensures n < |checks| ==> !eval(checks[n])
  {
    if checks == [] || !eval(checks[0]) then 0
    else
      var n := FirstFailure(eval, checks[1..]);
      assert forall i :: 1 <= i < n + 1 ==> checks[i] == checks[1..][i - 1];
      n + 1
  }

  /** How many checks of a batch are evaluated: none if a failure is already known, otherwise up
      to and including the first that fails. */
  function Evaluated<T>(eval: T -> bool, checks: seq<T>, fOk: bool): (n: nat)
    ensures n <= |checks| && (n == 0 <==> !fOk || checks == [])
    ensures forall i :: 0 <= i < n - 1 ==> eval(checks[i])
    ensures 0 < n < |checks| ==> !eval(checks[n - 1])
  {
    if fOk then Min(FirstFailure(eval, checks) + 1, |checks|) else 0
  }

  predicate AllHold<T>(eval: T -> bool, checks: seq<T>) {
    forall i :: 0 <= i < |checks| ==> eval(checks[i])
  }

  class CheckQueue<T> {
    var queue: seq<T>
    var nIdle: int
    var nTotal: int
    var fAllOk: bool
    var nTodo: int
    var fQuit: bool
    const nBatchSize: nat

    ghost function View(): Shared<T>
      reads this
    {
      Shared(queue, nIdle, nTotal, fAllOk, nTodo, fQuit)
    }

    constructor (nBatchSizeIn: nat)
      ensures View() == Shared([], 0, 0, true, 0, false) && nBatchSize == nBatchSizeIn
    {
      queue, nIdle, nTotal, fAllOk, nTodo, fQuit := [], 0, 0, true, 0, false;
      nBatchSize := nBatchSizeIn;
    }

    /** Appends the checks; returns how many workers to signal: none, one, or all of them. */
    method Add(vChecks: seq<T>) returns (notifyOne: bool, notifyAll: bool)
      modifies this
      ensures View() == old(View()).(queue := old(queue) + vChecks, nTodo := old(nTodo) + |vChecks|)
      ensures notifyOne == (|vChecks| == 1) && notifyAll == (|vChecks| > 1)
    {
      for i := 0 to |vChecks|
        invariant View() == old(View()).(queue := old(queue) + vChecks[..i])
      {
        queue := queue + [vChecks[i]];
      }
      assert vChecks[..|vChecks|] == vChecks;
      nTodo := nTodo + |vChecks|;
      notifyOne, notifyAll := |vChecks| == 1, |vChecks| > 1;
    }

    /** Moves the last `nNow` checks out of the queue, one swap at a time. */
    method PopBatch(nNow: nat) returns (vChecks: seq<T>)
      requires nNow <= |queue|
      modifies this
      ensures View() == old(View()).(queue := old(queue)[..|old(queue)| - nNow])
      ensures vChecks == FromBack(old(queue), nNow)
    {
      vChecks := [];
      for i := 0 to nNow
        invariant |queue| == |old(queue)| - i && queue == old(queue)[..|old(queue)| - i]
        invariant View() == old(View()).(queue := queue)
        invariant |vChecks| == i && forall k :: 0 <= k < i ==> vChecks[k] == old(queue)[|old(queue)| - 1 - k]
      {
        vChecks := vChecks + [queue[|queue| - 1]];
        queue := queue[..|queue| - 1];
      }
    }

    /** One stretch of `Loop` under the mutex. */
    method LoopSection(fMaster: bool, e: Entry) returns (exit: Exit<T>, notifyMaster: bool)
      requires CanEnter(View(), e)
      modifies this
      ensures (View(), exit) == Section(old(View()), fMaster, nBatchSize, e)
      ensures notifyMaster == WakesMaster(old(View()), fMaster, e)
    {
      notifyMaster := false;
      match e {
        case AfterBatch(nNow, fOk) =>
          fAllOk := fAllOk && fOk;
          nTodo := nTodo - nNow;
          notifyMaster := nTodo == 0 && !fMaster;
        case First =>
          nTotal := nTotal + 1;
        case Woken =>
          nIdle := nIdle - 1;
      }
      if |queue| == 0 {
        if (fMaster || fQuit) && nTodo == 0 {
          nTotal := nTotal - 1;
          var fRet := fAllOk;
          if fMaster {
            fAllOk := true;
          }
          return Return(fRet), notifyMaster;
        }
        nIdle := nIdle + 1;
        return Wait, notifyMaster;
      }
      var nNow := BatchLength(nBatchSize, |queue|, nTotal, nIdle);
      var vChecks := PopBatch(nNow);
      exit := Take(vChecks, fAllOk);
    }

    /** The evaluation of a batch, done without the mutex. */
    static method RunBatch(eval: T -> bool, vChecks: seq<T>, fOk: bool) returns (fOk': bool, ran: nat)
      ensures ran == Evaluated(eval, vChecks, fOk)
      ensures fOk' == (fOk && AllHold(eval, vChecks))
    {
      fOk', ran := fOk, 0;
      for i := 0 to |vChecks|
        invariant fOk' == (fOk && AllHold(eval, vChecks[..i]))
        invariant fOk' ==> ran == i
        invariant !fOk' ==> ran == Evaluated(eval, vChecks, fOk)
      {
        if fOk' {
          fOk' := eval(vChecks[i]);
          ran := ran + 1;
        }
      }
      assert vChecks[..|vChecks|] == vChecks;
    }

    /** CheckQueueProtocol shows what the answer says of the threads (`IdleExactly`). */
    method IsIdle() returns (idle: bool)
      ensures idle == LooksIdle(View())
    {
      idle := nTotal == nIdle && nTodo == 0 && fAllOk == true;
    }
  }
}
