/** How long a session of the check queue can last once no more checks are added: in every run the
    steps that evaluate or report a batch are bounded by the work left, some run of that length lets
    `Wait` return, and until then such a step, or the return itself, is always open to a thread that
    needs no signal. */
module CheckQueueRuns {
  import opened CheckQueue
  import opened CheckQueueProtocol

  /** Evaluating a batch, or entering to report one. */
  predicate Working<T>(s: System<T>, a: Action<T>) {
    a.Evaluate? || (a.Enter? && a.i < |s.threads| && s.threads[a.i].Done?)
  }

  /** How many steps of a run are of that kind. */
  function WorkingSteps<T>(eval: T -> bool, nBatchSize: nat, s: System<T>, acts: seq<Action<T>>): nat
    decreases |acts|
  {
    if acts == [] || !Enabled(s, acts[0]) then 0
    else (if Working(s, acts[0]) then 1 else 0) + WorkingSteps(eval, nBatchSize, Apply(eval, nBatchSize, s, acts[0]), acts[1..])
  }

  predicate NoneAdded<T>(acts: seq<Action<T>>) {
    forall k :: 0 <= k < |acts| ==> !acts[k].Add?
  }

  /** Whatever else happens in between, there are no more working steps than there is work. */
  lemma {:induction false} WorkingStepsBound<T>(eval: T -> bool, nBatchSize: nat, s: System<T>, acts: seq<Action<T>>, s': System<T>)
    requires Inv(eval, s) && Run(eval, nBatchSize, s, acts, s') && NoneAdded(acts)
    ensures WorkingSteps(eval, nBatchSize, s, acts) + Work(s') <= Work(s)
    decreases |acts|
  {
    hide Inv, Work, Apply;
    if acts != [] {
      var s1 := Apply(eval, nBatchSize, s, acts[0]);
      StepInv(eval, nBatchSize, s, acts[0]);
      StepWork(eval, nBatchSize, s, acts[0]);
      WorkingStepsBound(eval, nBatchSize, s1, acts[1..], s');
    }
  }

  /** No action of the run is taken by a thread that waits for a signal it has not got. */
  predicate Unprompted<T>(eval: T -> bool, nBatchSize: nat, s: System<T>, acts: seq<Action<T>>)
    decreases |acts|
  {
    acts == [] || (Enabled(s, acts[0])
                   && (acts[0].Evaluate? || (acts[0].Enter? && s.threads[acts[0].i] != Waiting(false)))
                   && Unprompted(eval, nBatchSize, Apply(eval, nBatchSize, s, acts[0]), acts[1..]))
  }

  /** From wherever the master is inside `Wait`, it can return after no more steps than the work left and
      one, with no spurious wakeup and nothing added. */
  lemma {:induction false} WaitCanReturn<T>(eval: T -> bool, nBatchSize: nat, s: System<T>)
    returns (acts: seq<Action<T>>, s': System<T>)
    requires Inv(eval, s) && s.open && s.threads != [] && !s.threads[0].Outside?
    ensures |acts| <= Work(s) + 1 && Unprompted(eval, nBatchSize, s, acts)
    ensures Run(eval, nBatchSize, s, acts, s') && !s'.open
    decreases Work(s)
  {
    hide Inv, Work, Apply;
    var a := ProgressStep(eval, nBatchSize, s);
    var s1 := Apply(eval, nBatchSize, s, a);
    StepInv(eval, nBatchSize, s, a);
    if s1.open {
      MasterStays(eval, nBatchSize, s, a);
      acts, s' := WaitCanReturn(eval, nBatchSize, s1);
      var rest := acts;
      acts := [a] + rest;
      assert acts[1..] == rest;
    } else {
      acts, s' := [a], s1;
      assert acts[1..] == [];
    }
  }
}
