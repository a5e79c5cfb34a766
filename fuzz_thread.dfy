/**
 * The statistics a fuzzing worker keeps (the counter update in the worker loop
 * of src/fuzz_thread.rs): after every run, `tested_samples` goes up by one,
 * `improvements` goes up on a size improvement, and exactly one of
 * `total_working`, `total_nonzero` and `total_crashes` goes up according to
 * how the target ended.
 */
module FuzzThread {
  import opened Primitives

  /** How the fuzzer classified a run (from the `fuzzing` module). */
  datatype RunResultStatus = NewCoverage | SizeImprovement | NoInterest

  /** How the target ended: with an exit code, or killed by a signal. */
  datatype ExecResult = Code(code: i32) | Signal

  /** What one run hands to the counter update. */
  datatype Run = Run(status: RunResultStatus, result: ExecResult)

  /** The five counters of `State`, as a value. */
  datatype Counters = Counters(
    testedSamples: nat,
    improvements: nat,
    totalWorking: nat,
    totalNonzero: nat,
    totalCrashes: nat)

  const Zero: Counters := Counters(0, 0, 0, 0, 0)

  /** The update the worker applies after one run, as the source writes it. */
  function Apply(c: Counters, r: Run): Counters {
    var c1 := c.(testedSamples := c.testedSamples + 1);
    var c2 := if r.status == SizeImprovement then c1.(improvements := c1.improvements + 1) else c1;
    match r.result
    case Code(n) =>
      if n == 0 then c2.(totalWorking := c2.totalWorking + 1)
      else c2.(totalNonzero := c2.totalNonzero + 1)
    case Signal => c2.(totalCrashes := c2.totalCrashes + 1)
  }

  /** The counters after a sequence of runs, applied in order. */
  function ApplyAll(c: Counters, runs: seq<Run>): Counters {
    if runs == [] then c else Apply(ApplyAll(c, runs[..|runs| - 1]), runs[|runs| - 1])
  }

  // ---------------------------------------------------------------------------
  // An independent description: what each counter counts

  predicate IsWorking(r: Run) { r.result == Code(0) }
  predicate IsNonzero(r: Run) { r.result.Code? && r.result.code != 0 }
  predicate IsCrash(r: Run) { r.result.Signal? }
  predicate IsImprovement(r: Run) { r.status == SizeImprovement }

  /** The number of runs that satisfy `p`. */
  function Count(runs: seq<Run>, p: Run -> bool): (n: nat)
    ensures n <= |runs|
  {
    if runs == [] then 0
    else Count(runs[..|runs| - 1], p) + (if p(runs[|runs| - 1]) then 1 else 0)
  }

  /** The counters as counts over the history of runs. */
  function Tally(runs: seq<Run>): Counters {
    Counters(|runs|, Count(runs, IsImprovement), Count(runs, IsWorking),
      Count(runs, IsNonzero), Count(runs, IsCrash))
  }

  /** Every counter of `d` is at least the same counter of `c`. */
  predicate NoneDecreased(c: Counters, d: Counters) {
    c.testedSamples <= d.testedSamples && c.improvements <= d.improvements &&
    c.totalWorking <= d.totalWorking && c.totalNonzero <= d.totalNonzero &&
    c.totalCrashes <= d.totalCrashes
  }

  /** The three outcome counters together. */
  function Outcomes(c: Counters): nat {
    c.totalWorking + c.totalNonzero + c.totalCrashes
  }

  // ---------------------------------------------------------------------------
  // Properties of one update

  /**
   * One run adds exactly one to `tested_samples`, one to `improvements`
   * exactly on a size improvement, and one to exactly one outcome counter,
   * chosen by the exit code or signal alone.
   */
  lemma ApplyOneRun(c: Counters, r: Run)
    ensures var d := Apply(c, r);
      d.testedSamples == c.testedSamples + 1 &&
      d.improvements == c.improvements + (if r.status == SizeImprovement then 1 else 0) &&
      d.totalWorking == c.totalWorking + (if r.result == Code(0) then 1 else 0) &&
      d.totalNonzero == c.totalNonzero + (if r.result.Code? && r.result.code != 0 then 1 else 0) &&
      d.totalCrashes == c.totalCrashes + (if r.result.Signal? then 1 else 0) &&
      Outcomes(d) == Outcomes(c) + 1 && NoneDecreased(c, d)
  {
  }

  /** A run that exits with code 3 is counted as a non-zero exit, not as a crash. */
  lemma NonzeroExitIsNoCrash()
    ensures Apply(Zero, Run(NoInterest, Code(3))) == Counters(1, 0, 0, 1, 0)
  {
  }

  // ---------------------------------------------------------------------------
  // Properties of a sequence of updates

  /** Applying the updates from zero gives exactly the counts over the runs. */
  lemma {:induction false} ApplyAllIsTally(runs: seq<Run>)
    ensures ApplyAll(Zero, runs) == Tally(runs)
  {
    if runs != [] {
      var init := runs[..|runs| - 1];
      ApplyAllIsTally(init);
      ApplyOneRun(ApplyAll(Zero, init), runs[|runs| - 1]);
    }
  }

  /** Every run is exactly one of working, non-zero exit and crash. */
  lemma {:induction false} OutcomesPartition(runs: seq<Run>)
    ensures Count(runs, IsWorking) + Count(runs, IsNonzero) + Count(runs, IsCrash) == |runs|
  {
    if runs != [] {
      OutcomesPartition(runs[..|runs| - 1]);
    }
  }

  /**
   * From all-zero counters, after any sequence of runs: `tested_samples` is
   * the number of runs, the outcome counters add up to it and `improvements`
   * does not exceed it.
   */
  lemma {:induction false} CountersConsistent(runs: seq<Run>)
    ensures ApplyAll(Zero, runs).testedSamples == |runs|
    ensures Outcomes(ApplyAll(Zero, runs)) == |runs|
    ensures ApplyAll(Zero, runs).improvements <= |runs|
  {
    ApplyAllIsTally(runs);
    OutcomesPartition(runs);
    assert ApplyAll(Zero, runs).totalWorking == Count(runs, IsWorking);
  }

  /** Applying one more run is one more update. */
  lemma ApplyAllSnoc(c: Counters, runs: seq<Run>, r: Run)
    ensures ApplyAll(c, runs + [r]) == Apply(ApplyAll(c, runs), r)
  {
    assert (runs + [r])[..|runs|] == runs;
  }

  /** No counter ever decreases, and `tested_samples` grows by the number of runs. */
  lemma {:induction false} ApplyAllGrows(c: Counters, runs: seq<Run>)
    ensures NoneDecreased(c, ApplyAll(c, runs))
    ensures ApplyAll(c, runs).testedSamples == c.testedSamples + |runs|
  {
    if runs != [] {
      var init := runs[..|runs| - 1];
      ApplyAllGrows(c, init);
      ApplyOneRun(ApplyAll(c, init), runs[|runs| - 1]);
    }
  }

  // ---------------------------------------------------------------------------
  // The shared statistics record

  /** The process-wide `State` record; `history` holds the runs recorded so far. */
  class State {
    var testedSamples: nat
    var improvements: nat
    var totalWorking: nat
    var totalNonzero: nat
    var totalCrashes: nat
    ghost var history: seq<Run>

    function Snapshot(): Counters
      reads this
    {
      Counters(testedSamples, improvements, totalWorking, totalNonzero, totalCrashes)
    }

    /** The counters are those of the recorded runs applied from zero. */
    ghost predicate Valid()
      reads this
    {
      Snapshot() == ApplyAll(Zero, history)
    }

    /** Counters start at zero before the workers start. */
    constructor ()
      ensures Valid() && history == [] && Snapshot() == Zero
    {
      testedSamples, improvements := 0, 0;
      totalWorking, totalNonzero, totalCrashes := 0, 0, 0;
      history := [];
    }

    /** The update after one completed run (src/fuzz_thread.rs, lines 77-87). */
    method Record(status: RunResultStatus, result: ExecResult)
      requires Valid()
      modifies this
      ensures Valid()
      ensures history == old(history) + [Run(status, result)]
      ensures Snapshot() == Apply(old(Snapshot()), Run(status, result))
      ensures totalWorking + totalNonzero + totalCrashes == testedSamples
      ensures improvements <= testedSamples
    {
      ghost var before := Snapshot();
      ghost var run := Run(status, result);
      ghost var h := history;
      CountersConsistent(h);
      ApplyOneRun(before, run);
      ApplyAllSnoc(Zero, h, run);
      testedSamples := testedSamples + 1;
      if status == SizeImprovement {
        improvements := improvements + 1;
      }
      match result {
        case Code(n) =>
          if n == 0 {
            totalWorking := totalWorking + 1;
          } else {
            totalNonzero := totalNonzero + 1;
          }
        case Signal =>
          totalCrashes := totalCrashes + 1;
      }
      history := h + [run];
    }

    /**
     * The worker loop: one update per run, in the order the runs complete.
     * The runs stand for the results of `run_once`, which this model does not
     * include.
     */
    method RecordAll(runs: seq<Run>)
      requires Valid()
      modifies this
      ensures Valid()
      ensures history == old(history) + runs
      ensures Snapshot() == ApplyAll(old(Snapshot()), runs)
      ensures NoneDecreased(old(Snapshot()), Snapshot())
    {
      var i := 0;
      while i < |runs|
        invariant 0 <= i <= |runs|
        invariant Valid()
        invariant history == old(history) + runs[..i]
        invariant Snapshot() == ApplyAll(old(Snapshot()), runs[..i])
      {
        Record(runs[i].status, runs[i].result);
        assert runs[..i + 1][..i] == runs[..i];
        i := i + 1;
      }
      assert runs[..i] == runs;
      ApplyAllGrows(old(Snapshot()), runs);
    }
  }
}
