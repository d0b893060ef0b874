/** The three scans as instances of the concurrent fan-out: what they end with under every schedule. */
module ConcurrentScans {
  import opened Kernel
  import opened Values
  import opened Sequences
  import opened Scanners
  import opened ScanTasks
  import opened SparseScan
  import opened ScanMeaning
  import opened Regions
  import opened DenseScans
  import opened Session
  import opened PlannedScans
  import opened Fanout

  /** A sparse scan: each task filters its share of the shared results into a buffer of that size. */
  ghost function SparseFan(mem: Memory, v: Value, input: seq<nat>): Fan
    requires v.Valid()
  {
    Fan(ShareCount(|input|),
        (i: nat, results: seq<nat>) => SparseAnswer(mem, v, Share(results, i)),
        (i: nat) => NEXT_SCAN_TASK_SIZE,
        input)
  }

  /** A dense scan: each task rereads its span and intersects with its slice of the shared results. */
  ghost function DenseFan(proc: Process, v: Value, input: seq<nat>): Fan
    requires v.Valid()
  {
    var spans := SpansOf(v, input);
    Fan(|spans|,
        (i: nat, results: seq<nat>) =>
          if i < |spans| then SpanAnswer(proc, v, spans[i], results) else [],
        (i: nat) => if i < |spans| then SpanRoom(v, spans[i]) else 0,
        input)
  }

  /** A first scan: each task searches its region; there are no results yet. */
  ghost function FirstFan(proc: Process, v: Value, plan: seq<Region>): Fan
    requires v.Valid() && AllOrdered(plan)
  {
    Fan(|plan|,
        (i: nat, results: seq<nat>) => if i < |plan| then FirstParts(proc, v, plan)[i] else [],
        (i: nat) => REGION_RESULTS_ALLOC_CAPS,
        [])
  }

  /**
   Under every schedule a sparse scan none of whose batches jams ends with exactly what the shares' answers
   keep, stale slots included: the plain filter where none is in play.
   */
  lemma SparseAnySchedule(proc: Process, v: Value, input: seq<nat>, states: seq<State>, actions: seq<Action>)
    requires v.Valid() && Ascending(input) && !SparseJams(proc, input, v.Size(), |input|)
    requires Completes(SparseFan(proc.mem, v, input), states, actions)
    ensures states[|actions|].control.Finished?
    ensures states[|actions|].results == SparseKept(proc.mem, v, input) && states[|actions|].previous == input
    ensures Settled(proc.mem, v, input) ==> states[|actions|].results == Filter(input, Held(proc.mem, v))
  {
    ScheduleIndependent(SparseFan(proc.mem, v, input), states, actions);
    SparseTaskAnswers(proc.mem, v, input);
    KeptReported(proc.mem, v, input);
    hide Completes, SparseFan;
  }

  lemma SparseTaskAnswers(mem: Memory, v: Value, input: seq<nat>)
    requires v.Valid()
    ensures TaskAnswers(SparseFan(mem, v, input)) == SparseParts(mem, v, input)
    ensures !Overfills(SparseFan(mem, v, input))
  {
    var f := SparseFan(mem, v, input);
    hide SparseAnswer;
    forall i | 0 <= i < f.n ensures |f.work(i, f.input)| <= f.room(i) {
      assert |SparseAnswer(mem, v, Share(input, i))| <= |Share(input, i)|;
    }
  }

  /**
   Under every schedule a dense scan panics if and only if some span has more hits than room, and otherwise
   ends with exactly what the spans' answers keep.
   */
  lemma DenseAnySchedule(proc: Process, v: Value, input: seq<nat>, states: seq<State>, actions: seq<Action>)
    requires v.Valid() && Completes(DenseFan(proc, v, input), states, actions)
    ensures states[|actions|].control.Panicked? <==> DenseTooMany(proc, v, input)
    ensures !DenseTooMany(proc, v, input) ==>
              states[|actions|].results == DenseKept(proc, v, input) && states[|actions|].previous == input
  {
    ScheduleIndependent(DenseFan(proc, v, input), states, actions);
    DenseTaskAnswers(proc, v, input);
    hide Completes, DenseFan, DenseParts;
  }

  lemma DenseTaskAnswers(proc: Process, v: Value, input: seq<nat>)
    requires v.Valid()
    ensures TaskAnswers(DenseFan(proc, v, input)) == DenseParts(proc, v, input)
    ensures Overfills(DenseFan(proc, v, input)) <==> DenseTooMany(proc, v, input)
  {
    var f := DenseFan(proc, v, input);
    hide SpansOf, SpanAnswer, SpanRoom;
    assert forall i :: 0 <= i < f.n ==> f.work(i, f.input) == DenseParts(proc, v, input)[i];
  }

  /**
   With clamped counts, an exact value, aligned results and no stale slot in play, both strategies end under
   every schedule, with the plain filter: neither the strategy nor the schedule can be seen.
   */
  lemma StrategyAndScheduleInvisible(proc: Process, v: Value, input: seq<nat>,
                                     dense: seq<State>, denseSteps: seq<Action>,
                                     sparse: seq<State>, sparseSteps: seq<Action>)
    requires v.Valid() && Exact(v) && proc.failCount == 0
    requires Ascending(input) && AllAligned(v, input) && Settled(proc.mem, v, input)
    requires Completes(DenseFan(proc, v, input), dense, denseSteps)
    requires Completes(SparseFan(proc.mem, v, input), sparse, sparseSteps)
    ensures dense[|denseSteps|].control.Finished? && sparse[|sparseSteps|].control.Finished?
    ensures dense[|denseSteps|].results == Filter(input, Held(proc.mem, v)) == sparse[|sparseSteps|].results
  {
    PackedFits(proc, v, input);
    hide DenseTooMany, DenseKept, SparseKept, Settled, Exact;
    DenseAnySchedule(proc, v, input, dense, denseSteps);
    SparseAnySchedule(proc, v, input, sparse, sparseSteps);
    DenseIsFilter(proc, v, input);
  }

  /**
   Under every schedule a first scan panics if and only if some planned region has too many matches, and
   otherwise ends with exactly the regions' answers, ascending. For an exact value these are the places that
   hold it and are found in some planned region; for an aligned or one-byte value over readable regions the
   aligned addresses of the listing that hold it.
   */
  lemma FirstAnySchedule(proc: Process, v: Value, regions: seq<Region>, states: seq<State>, actions: seq<Action>)
    requires v.Valid() && Listing(regions) && Completes(FirstFan(proc, v, Plan(regions)), states, actions)
    ensures states[|actions|].control.Panicked? <==> TooMany(proc, v, Plan(regions))
    ensures var results := states[|actions|].results;
            !TooMany(proc, v, Plan(regions)) ==>
              && results == Flatten(FirstParts(proc, v, Plan(regions))) && Ascending(results)
              && (Exact(v) ==>
                    forall x :: x in results <==>
                                && AlignedHeldAt(proc.mem, v, x)
                                && exists i :: 0 <= i < |Plan(regions)| && FoundIn(proc, v, Plan(regions)[i], x))
              && (Uncut(v) && AllReadable(proc.mem, regions) ==>
                    forall x :: x in results <==> Covers(regions, 0, x) && AlignedHeldAt(proc.mem, v, x))
  {
    var plan := Plan(regions);
    hide Completes, FirstParts, FirstFan, Covers, AlignedHeldAt, FoundIn, Exact, Uncut, AllReadable, Listing, TooMany;
    ScheduleIndependent(FirstFan(proc, v, plan), states, actions);
    FirstTaskAnswers(proc, v, plan);
    PlanAscending(proc, v, plan);
    if Exact(v) {
      forall x ensures x in Flatten(FirstParts(proc, v, plan)) <==>
                       AlignedHeldAt(proc.mem, v, x) && exists i :: 0 <= i < |plan| && FoundIn(proc, v, plan[i], x) {
        PlannedPlaces(proc, v, plan, x);
      }
    }
    if Uncut(v) && AllReadable(proc.mem, regions) {
      FirstScanFindsExactly(proc, v, regions);
    }
  }

  lemma FirstTaskAnswers(proc: Process, v: Value, plan: seq<Region>)
    requires v.Valid() && AllOrdered(plan)
    ensures TaskAnswers(FirstFan(proc, v, plan)) == FirstParts(proc, v, plan)
    ensures Overfills(FirstFan(proc, v, plan)) <==> TooMany(proc, v, plan)
  {
    var f := FirstFan(proc, v, plan);
    hide FirstParts;
    assert forall i :: 0 <= i < f.n ==> f.work(i, f.input) == FirstParts(proc, v, plan)[i];
  }

  /**
   A first scan cancelled under any schedule that still ends has an ascending part of the full answer, with the
   whole answers of all regions whose tasks had published before the cancellation.
   */
  lemma FirstCancelled(proc: Process, v: Value, regions: seq<Region>, states: seq<State>, actions: seq<Action>, k: nat)
    requires v.Valid() && Listing(regions) && Behaviour(FirstFan(proc, v, Plan(regions)), states, actions)
    requires k < |states| && states[k].control.Finished?
    ensures Ascending(states[k].results)
    ensures forall x :: x in states[k].results ==> x in Flatten(FirstParts(proc, v, Plan(regions)))
    ensures forall i :: 0 <= i < |FirstParts(proc, v, Plan(regions))| && ReadyUncancelled(states, k, i) ==>
                          forall x :: x in FirstParts(proc, v, Plan(regions))[i] ==> x in states[k].results
  {
    FirstTaskAnswers(proc, v, Plan(regions));
    PlanAscending(proc, v, Plan(regions));
    CancelledIsPart(FirstFan(proc, v, Plan(regions)), states, actions, k);
  }

  /** Likewise a dense scan; the previous results are kept in the other buffer. */
  lemma DenseCancelled(proc: Process, v: Value, input: seq<nat>, states: seq<State>, actions: seq<Action>, k: nat)
    requires v.Valid() && Ascending(input) && Behaviour(DenseFan(proc, v, input), states, actions)
    requires k < |states| && states[k].control.Finished?
    ensures Ascending(states[k].results) && states[k].previous == input
    ensures forall x :: x in states[k].results ==> x in DenseKept(proc, v, input)
    ensures forall i :: 0 <= i < |DenseParts(proc, v, input)| && ReadyUncancelled(states, k, i) ==>
                          forall x :: x in DenseParts(proc, v, input)[i] ==> x in states[k].results
  {
    DenseTaskAnswers(proc, v, input);
    KeptAscending(proc, v, input);
    CancelledIsPart(DenseFan(proc, v, input), states, actions, k);
  }

  /** Likewise a sparse scan none of whose batches jams. */
  lemma SparseCancelled(proc: Process, v: Value, input: seq<nat>, states: seq<State>, actions: seq<Action>, k: nat)
    requires v.Valid() && Ascending(input) && !SparseJams(proc, input, v.Size(), |input|)
    requires Behaviour(SparseFan(proc.mem, v, input), states, actions)
    requires k < |states| && states[k].control.Finished?
    ensures Ascending(states[k].results) && states[k].previous == input
    ensures forall x :: x in states[k].results ==> x in SparseKept(proc.mem, v, input)
    ensures forall i :: 0 <= i < |SparseParts(proc.mem, v, input)| && ReadyUncancelled(states, k, i) ==>
                          forall x :: x in SparseParts(proc.mem, v, input)[i] ==> x in states[k].results
  {
    SparseTaskAnswers(proc.mem, v, input);
    KeptReported(proc.mem, v, input);
    CancelledIsPart(SparseFan(proc.mem, v, input), states, actions, k);
  }
}
