/**
 The concurrent fan-out of a scan as a transition system: a coordinator that starts one goroutine per task
 under a weighted semaphore, waits for all of them, merges the slots in order and swaps the buffers; tasks
 that read the shared results, fill private buffers and publish them; cancellation at any time.
 */
module Fanout {
  import opened Sequences

  const SCAN_MAX_GOROUTINES: nat := 2048

  /**
   One fan-out: how many tasks, what task i collects when it reads the given shared results to the end, how
   many entries its buffer has room for, and the shared results at the start.
   */
  datatype Fan = Fan(n: nat, work: (nat, seq<nat>) -> seq<nat>, room: nat -> nat, input: seq<nat>)

  datatype Phase =
    | Unstarted
    | Running(buffer: seq<nat>)
    | Published  // slot written, the wait group told, the permit still held
    | Exited

  datatype Control = Spawning | Waiting | Merging(done: nat) | Finished | Panicked

  /** `stale` permits are those tasks of an earlier scan have yet to release. */
  datatype State = State(
    control: Control, started: nat, stale: nat, cancelled: bool,
    phases: seq<Phase>, slots: seq<seq<nat>>, results: seq<nat>, previous: seq<nat>)

  function Holding(phases: seq<Phase>): nat {
    if phases == [] then 0
    else
      var last := phases[|phases| - 1];
      Holding(phases[..|phases| - 1]) + if last.Running? || last.Published? then 1 else 0
  }

  ghost predicate Init(f: Fan, s: State) {
    && s.control == Spawning && s.started == 0 && s.stale <= SCAN_MAX_GOROUTINES && !s.cancelled
    && |s.phases| == f.n && (forall i :: 0 <= i < f.n ==> s.phases[i] == Unstarted)
    && |s.slots| == f.n && (forall i :: 0 <= i < f.n ==> s.slots[i] == [])
    && s.results == f.input
  }

  datatype Action =
    | Spawn | AllSpawned | AbortSpawn
    | Collect(task: nat) | Publish(task: nat) | Release(task: nat)
    | ReleaseStale | Cancel
    | Barrier | MergeNext | Swap

  ghost predicate Enabled(f: Fan, s: State, a: Action) {
    match a
    case Spawn => s.control == Spawning && s.started < |s.phases| && s.stale + Holding(s.phases) < SCAN_MAX_GOROUTINES
    case AllSpawned => s.control == Spawning && s.started >= |s.phases|
    case AbortSpawn => s.control == Spawning && s.cancelled
    case Collect(i) => i < |s.phases| && s.phases[i].Running? && |s.phases[i].buffer| < |f.work(i, s.results)|
    case Publish(i) =>
      i < |s.phases| && s.phases[i].Running? && (s.cancelled || |s.phases[i].buffer| >= |f.work(i, s.results)|)
    case Release(i) => i < |s.phases| && s.phases[i].Published?
    case ReleaseStale => s.stale > 0
    case Cancel => true
    case Barrier =>
      && s.control == Waiting
      && forall i :: 0 <= i < s.started && i < |s.phases| ==> s.phases[i].Published? || s.phases[i].Exited?
    case MergeNext => s.control.Merging? && s.control.done < |s.slots|
    case Swap => s.control.Merging? && s.control.done >= |s.slots|
  }

  ghost function Apply(f: Fan, s: State, a: Action): State
    requires Enabled(f, s, a) && |s.slots| == |s.phases|
  {
    match a
    case Spawn => s.(phases := s.phases[s.started := Running([])], started := s.started + 1)
    case AllSpawned => s.(control := Waiting)
    case AbortSpawn => s.(control := Waiting)
    case Collect(i) =>
      var b := s.phases[i].buffer;
      s.(phases := s.phases[i := Running(b + [f.work(i, s.results)[|b|]])])
    case Publish(i) => s.(slots := s.slots[i := s.phases[i].buffer], phases := s.phases[i := Published])
    case Release(i) => s.(phases := s.phases[i := Exited])
    case ReleaseStale => s.(stale := s.stale - 1)
    case Cancel => s.(cancelled := true)
    case Barrier => s.(control := Merging(0), previous := [])
    case MergeNext =>
      var i := s.control.done;
      if |s.slots[i]| > f.room(i) then s.(control := Panicked)
      else s.(control := Merging(i + 1), previous := s.previous + s.slots[i])
    case Swap => s.(control := Finished, results := s.previous, previous := s.results)
  }

  ghost predicate IsPrefix(p: seq<nat>, s: seq<nat>) {
    |p| <= |s| && p == s[..|p|]
  }

  /** What task i stands for in the answer: a prefix of its work, all of it unless something was cancelled. */
  ghost predicate PartOf(f: Fan, s: State, i: nat)
    requires i < |s.slots| == |s.phases|
  {
    match s.phases[i]
    case Unstarted => s.slots[i] == []
    case Running(b) => IsPrefix(b, f.work(i, f.input)) && s.slots[i] == []
    case Published | Exited =>
      IsPrefix(s.slots[i], f.work(i, f.input)) && (!s.cancelled ==> s.slots[i] == f.work(i, f.input))
  }

  ghost predicate Quiet(s: State) {
    forall i :: 0 <= i < |s.phases| ==> s.phases[i].Published? || s.phases[i].Exited? || s.phases[i].Unstarted?
  }

  /** The scan is over: the buffers are swapped, or the merge has panicked on an overfilled slot. */
  ghost predicate Ended(s: State) {
    s.control.Finished? || s.control.Panicked?
  }

  /** No slot below `to` holds more than its buffer has room for. */
  ghost predicate FitsBelow(f: Fan, s: State, to: nat) {
    forall i :: 0 <= i < to && i < |s.slots| ==> |s.slots[i]| <= f.room(i)
  }

  ghost predicate Inv(f: Fan, s: State) {
    && |s.phases| == |s.slots| == f.n && s.started <= f.n
    && s.stale + Holding(s.phases) <= SCAN_MAX_GOROUTINES
    && (forall i :: s.started <= i < f.n ==> s.phases[i] == Unstarted)
    && (forall i :: 0 <= i < s.started ==> s.phases[i] != Unstarted)
    && (forall i :: 0 <= i < f.n ==> PartOf(f, s, i))
    && (s.control != Spawning && !s.cancelled ==> s.started == f.n)
    && (s.control.Merging? || Ended(s) ==> Quiet(s))
    && (s.control.Merging? ==> s.control.done <= f.n && s.previous == Flatten(s.slots[..s.control.done]))
    && (s.control.Merging? ==> FitsBelow(f, s, s.control.done))
    && (s.control.Finished? ==> FitsBelow(f, s, f.n))
    && (s.control.Panicked? ==> !FitsBelow(f, s, f.n))
    && (if s.control.Finished? then s.results == Flatten(s.slots) && s.previous == f.input else s.results == f.input)
  }

  lemma {:induction false} HoldingUpdate(phases: seq<Phase>, i: nat, p: Phase)
    requires i < |phases|
    ensures Holding(phases[i := p]) == Holding(phases)
            - (if phases[i].Running? || phases[i].Published? then 1 else 0)
            + (if p.Running? || p.Published? then 1 else 0)
  {
    var last := |phases| - 1;
    if i < last {
      HoldingUpdate(phases[..last], i, p);
      assert phases[i := p][..last] == phases[..last][i := p];
    } else {
      assert phases[i := p][..last] == phases[..last];
    }
  }

  lemma {:induction false} HoldingNone(phases: seq<Phase>)
    requires forall i :: 0 <= i < |phases| ==> phases[i] == Unstarted
    ensures Holding(phases) == 0
  {
    if phases != [] {
      HoldingNone(phases[..|phases| - 1]);
    }
  }

  lemma InitInv(f: Fan, s: State)
    requires Init(f, s)
    ensures Inv(f, s)
  {
    HoldingNone(s.phases);
  }

  /** Every step keeps each task's part: a task only ever touches its own phase and its own slot. */
  lemma StepParts(f: Fan, s: State, a: Action, i: nat)
    requires Inv(f, s) && Enabled(f, s, a) && i < f.n
    ensures var s' := Apply(f, s, a);
            && PartOf(f, s', i)
            && (a != Publish(i) ==> s'.slots[i] == s.slots[i])
            && (a != Collect(i) && a != Publish(i) && a != Release(i) && !(a.Spawn? && s.started == i) ==>
                s'.phases[i] == s.phases[i])
  {
    assert PartOf(f, s, i);
    assert IsPrefix([], f.work(i, f.input));
  }

  lemma StepInv(f: Fan, s: State, a: Action)
    requires Inv(f, s) && Enabled(f, s, a)
    ensures Inv(f, Apply(f, s, a))
  {
    var s' := Apply(f, s, a);
    forall i | 0 <= i < f.n ensures PartOf(f, s', i) {
      StepParts(f, s, a, i);
    }
    StepBounds(f, s, a);
    StepStarted(f, s, a);
    StepMerge(f, s, a);
    StepFits(f, s, a);
    hide FitsBelow, PartOf, Enabled, Apply, Holding, Quiet, Flatten;
  }

  /** Every step keeps the permits within the semaphore's bound. */
  lemma StepBounds(f: Fan, s: State, a: Action)
    requires Inv(f, s) && Enabled(f, s, a)
    ensures Apply(f, s, a).stale + Holding(Apply(f, s, a).phases) <= SCAN_MAX_GOROUTINES
  {
    var s' := Apply(f, s, a);
    hide PartOf, Flatten, Quiet;
    match a
    case Spawn => HoldingUpdate(s.phases, s.started, Running([]));
    case Collect(i) => HoldingUpdate(s.phases, i, s'.phases[i]);
    case Publish(i) => HoldingUpdate(s.phases, i, Published);
    case Release(i) => HoldingUpdate(s.phases, i, Exited);
    case _ =>
  }

  /** Every step keeps the tasks started exactly those before `started`. */
  lemma StepStarted(f: Fan, s: State, a: Action)
    requires Inv(f, s) && Enabled(f, s, a)
    ensures var s' := Apply(f, s, a);
            && |s'.phases| == |s'.slots| == f.n && s'.started <= f.n
            && (forall i :: s'.started <= i < f.n ==> s'.phases[i] == Unstarted)
            && (forall i :: 0 <= i < s'.started ==> s'.phases[i] != Unstarted)
            && (s'.control != Spawning && !s'.cancelled ==> s'.started == f.n)
            && (s'.control.Merging? || Ended(s') ==> Quiet(s'))
  {
    hide PartOf, Flatten, Holding;
  }

  /** Every step keeps the merged prefix, and leaves the shared results alone until the swap. */
  lemma StepMerge(f: Fan, s: State, a: Action)
    requires Inv(f, s) && Enabled(f, s, a)
    ensures var s' := Apply(f, s, a);
            && |s'.slots| == f.n
            && (s'.control.Merging? ==> s'.control.done <= f.n && s'.previous == Flatten(s'.slots[..s'.control.done]))
            && (if s'.control.Finished? then s'.results == Flatten(s'.slots) && s'.previous == f.input
                else s'.results == f.input)
  {
    hide PartOf, Holding, FitsBelow;
    match a
    case MergeNext =>
      FlattenSnoc(s.slots[..s.control.done], s.slots[s.control.done]);
      assert s.slots[..s.control.done + 1] == s.slots[..s.control.done] + [s.slots[s.control.done]];
    case Swap => assert s.slots[..f.n] == s.slots;
    case _ =>
  }

  /** Every step keeps the merged slots within their buffers' room; only an overfilled one leads to the panic. */
  lemma StepFits(f: Fan, s: State, a: Action)
    requires Inv(f, s) && Enabled(f, s, a)
    ensures var s' := Apply(f, s, a);
            && (s'.control.Merging? ==> FitsBelow(f, s', s'.control.done))
            && (s'.control.Finished? ==> FitsBelow(f, s', f.n))
            && (s'.control.Panicked? ==> !FitsBelow(f, s', f.n))
  {
    hide PartOf, Holding, Flatten;
  }

  /** Any interleaving: a start state followed by enabled steps. */
  ghost predicate Behaviour(f: Fan, states: seq<State>, actions: seq<Action>) {
    && |states| == |actions| + 1 && Init(f, states[0])
    && (forall k :: 0 <= k < |actions| ==> |states[k].slots| == |states[k].phases|)
    && (forall k :: 0 <= k < |actions| ==>
        Enabled(f, states[k], actions[k]) && states[k + 1] == Apply(f, states[k], actions[k]))
  }

  lemma {:induction false} BehaviourInv(f: Fan, states: seq<State>, actions: seq<Action>, k: nat)
    requires Behaviour(f, states, actions) && k < |states|
    ensures Inv(f, states[k])
  {
    if k == 0 {
      InitInv(f, states[0]);
    } else {
      BehaviourInv(f, states, actions, k - 1);
      StepInv(f, states[k - 1], actions[k - 1]);
    }
  }

  /** The answers of all tasks run alone, one after another. */
  ghost function TaskAnswers(f: Fan): (parts: seq<seq<nat>>)
    ensures |parts| == f.n && forall i :: 0 <= i < f.n ==> parts[i] == f.work(i, f.input)
  {
    seq(f.n, i requires 0 <= i < f.n => f.work(i, f.input))
  }

  /** Some task's whole answer is more than its buffer has room for. */
  ghost predicate Overfills(f: Fan) {
    exists i :: 0 <= i < f.n && |f.work(i, f.input)| > f.room(i)
  }

  /** A behaviour that has ended uncancelled. */
  ghost predicate Completes(f: Fan, states: seq<State>, actions: seq<Action>) {
    Behaviour(f, states, actions) && Ended(states[|actions|]) && !states[|actions|].cancelled
  }

  /**
   Schedule independence: whatever the interleaving, an uncancelled scan ends in a panic if and only if some
   task overfills its buffer, and otherwise with exactly the tasks' answers in task order, the previous
   results kept in the other buffer.
   */
  lemma ScheduleIndependent(f: Fan, states: seq<State>, actions: seq<Action>)
    requires Completes(f, states, actions)
    ensures states[|actions|].control.Panicked? <==> Overfills(f)
    ensures !Overfills(f) ==>
              states[|actions|].results == Flatten(TaskAnswers(f)) && states[|actions|].previous == f.input
  {
    BehaviourInv(f, states, actions, |actions|);
    var s := states[|actions|];
    forall i | 0 <= i < f.n ensures s.slots[i] == f.work(i, f.input) {
      assert PartOf(f, s, i);
    }
    assert s.slots == TaskAnswers(f);
    assert FitsBelow(f, s, f.n) <==> !Overfills(f);
  }

  /** Task `i` has written its slot. */
  ghost predicate Ready(s: State, i: nat) {
    i < |s.phases| && (s.phases[i].Published? || s.phases[i].Exited?)
  }

  /** Task `i` had written its slot by state `k`, before any cancellation. */
  ghost predicate ReadyUncancelled(states: seq<State>, k: nat, i: nat) {
    exists j :: 0 <= j <= k && j < |states| && !states[j].cancelled && Ready(states[j], i)
  }

  /** A slot once written is never touched again. */
  lemma {:induction false} SlotStays(f: Fan, states: seq<State>, actions: seq<Action>, j: nat, k: nat, i: nat)
    requires Behaviour(f, states, actions) && j <= k < |states| && Ready(states[j], i)
    ensures Ready(states[k], i) && i < |states[j].slots| == |states[k].slots|
    ensures states[k].slots[i] == states[j].slots[i]
  {
    BehaviourInv(f, states, actions, k);
    if j < k {
      SlotStays(f, states, actions, j, k - 1, i);
      BehaviourInv(f, states, actions, k - 1);
      hide Inv, PartOf, Init;
      ReadyStays(f, states[k - 1], actions[k - 1], i);
    }
  }

  lemma ReadyStays(f: Fan, s: State, a: Action, i: nat)
    requires Inv(f, s) && Enabled(f, s, a) && Ready(s, i)
    ensures Ready(Apply(f, s, a), i) && Apply(f, s, a).slots[i] == s.slots[i]
  {
    hide PartOf, Holding, Flatten;
  }

  /**
   No cancellation takes back what a task had published before it: its whole answer is in its slot for good,
   and the scan panics if that is more than the buffer had room for, or ends with all of it in the results.
   */
  lemma PublishedCounts(f: Fan, states: seq<State>, actions: seq<Action>, k: nat, i: nat)
    requires Behaviour(f, states, actions) && k < |states| && Ended(states[k])
    requires i < f.n && ReadyUncancelled(states, k, i)
    ensures i < |states[k].slots| && states[k].slots[i] == f.work(i, f.input)
    ensures |f.work(i, f.input)| > f.room(i) ==> states[k].control.Panicked?
    ensures states[k].control.Finished? ==> forall x :: x in f.work(i, f.input) ==> x in states[k].results
  {
    var j :| 0 <= j <= k && !states[j].cancelled && Ready(states[j], i);
    BehaviourInv(f, states, actions, j);
    assert PartOf(f, states[j], i);
    SlotStays(f, states, actions, j, k, i);
    BehaviourInv(f, states, actions, k);
  }

  /**
   A cancelled scan that finishes has an ascending part of an ascending full answer, and in it everything that
   was published before the cancellation.
   */
  lemma CancelledIsPart(f: Fan, states: seq<State>, actions: seq<Action>, k: nat)
    requires Behaviour(f, states, actions) && k < |states| && states[k].control.Finished?
    requires Ascending(Flatten(TaskAnswers(f)))
    ensures Ascending(states[k].results) && states[k].previous == f.input
    ensures forall x :: x in states[k].results ==> x in Flatten(TaskAnswers(f))
    ensures forall i, x :: 0 <= i < f.n && ReadyUncancelled(states, k, i) && x in TaskAnswers(f)[i] ==>
                             x in states[k].results
  {
    BehaviourInv(f, states, actions, k);
    var s := states[k];
    var answers := TaskAnswers(f);
    forall i, x | 0 <= i < f.n && ReadyUncancelled(states, k, i) && x in answers[i] ensures x in s.results {
      PublishedCounts(f, states, actions, k, i);
    }
    FlattenLayered(answers);
    forall i | 0 <= i < f.n ensures IsPrefix(s.slots[i], answers[i]) {
      assert PartOf(f, s, i);
      assert IsPrefix([], answers[i]);
    }
    forall i | 0 <= i < f.n ensures Ascending(s.slots[i]) && forall x :: x in s.slots[i] ==> x in answers[i] {
      assert IsPrefix(s.slots[i], answers[i]);
    }
    FlattenAscending(s.slots);
  }

  /** At most 2048 permits are held at any time, counting those an earlier scan has not released yet. */
  lemma PermitsBounded(f: Fan, states: seq<State>, actions: seq<Action>, k: nat)
    requires Behaviour(f, states, actions) && k < |states|
    ensures states[k].stale + Holding(states[k].phases) <= 2048
    ensures !states[k].control.Finished? ==> states[k].results == f.input
  {
    BehaviourInv(f, states, actions, k);
  }

  lemma {:induction false} HolderExists(phases: seq<Phase>) returns (i: nat)
    requires Holding(phases) > 0
    ensures i < |phases| && (phases[i].Running? || phases[i].Published?)
  {
    var last := |phases| - 1;
    i := last;
    if !phases[last].Running? && !phases[last].Published? {
      i := HolderExists(phases[..last]);
    }
  }

  /** A held permit is always on its way back: its task can collect, publish or release. */
  lemma HolderMoves(f: Fan, s: State) returns (a: Action)
    requires Inv(f, s) && Holding(s.phases) > 0
    ensures Enabled(f, s, a) && !a.Cancel?
  {
    var i := HolderExists(s.phases);
    a := if s.phases[i].Published? then Release(i)
         else if |s.phases[i].buffer| < |f.work(i, s.results)| then Collect(i) else Publish(i);
  }

  /** No deadlock: until the scan has ended some step other than a cancellation is possible. */
  lemma SomeStepEnabled(f: Fan, s: State) returns (a: Action)
    requires Inv(f, s) && !Ended(s)
    ensures Enabled(f, s, a) && !a.Cancel?
  {
    if s.control == Spawning {
      if s.started >= f.n {
        a := AllSpawned;
      } else if s.stale + Holding(s.phases) < SCAN_MAX_GOROUTINES {
        a := Spawn;
      } else if s.stale > 0 {
        a := ReleaseStale;
      } else {
        a := HolderMoves(f, s);
      }
    } else if s.control == Waiting {
      if forall i :: 0 <= i < s.started ==> s.phases[i].Published? || s.phases[i].Exited? {
        a := Barrier;
      } else {
        var i :| 0 <= i < s.started && !(s.phases[i].Published? || s.phases[i].Exited?);
        a := if |s.phases[i].buffer| < |f.work(i, s.results)| then Collect(i) else Publish(i);
      }
    } else {
      a := if s.control.done < |s.slots| then MergeNext else Swap;
    }
  }

  function TaskLeft(f: Fan, i: nat, p: Phase): nat {
    match p
    case Unstarted => |f.work(i, f.input)| + 3
    case Running(b) => (if |b| < |f.work(i, f.input)| then |f.work(i, f.input)| - |b| else 0) + 2
    case Published => 1
    case Exited => 0
  }

  function TasksLeft(f: Fan, phases: seq<Phase>): nat {
    if phases == [] then 0
    else
      var last := |phases| - 1;
      TasksLeft(f, phases[..last]) + TaskLeft(f, last, phases[last])
  }

  function ControlLeft(s: State): nat {
    match s.control
    case Spawning => |s.slots| + 3
    case Waiting => |s.slots| + 2
    case Merging(done) => if done < |s.slots| then |s.slots| - done + 1 else 1
    case Finished => 0
    case Panicked => 0
  }

  /** The steps still to come, cancellations aside. */
  function StepsLeft(f: Fan, s: State): nat {
    TasksLeft(f, s.phases) + ControlLeft(s) + s.stale
  }

  lemma {:induction false} TasksLeftUpdate(f: Fan, phases: seq<Phase>, i: nat, p: Phase)
    requires i < |phases|
    ensures TasksLeft(f, phases[i := p])
            == TasksLeft(f, phases) - TaskLeft(f, i, phases[i]) + TaskLeft(f, i, p)
  {
    var last := |phases| - 1;
    if i < last {
      TasksLeftUpdate(f, phases[..last], i, p);
      assert phases[i := p][..last] == phases[..last][i := p];
    } else {
      assert phases[i := p][..last] == phases[..last];
    }
  }

  /** Every step but a cancellation brings the end closer, so with no deadlock every scan ends. */
  lemma StepProgresses(f: Fan, s: State, a: Action)
    requires Inv(f, s) && Enabled(f, s, a) && !a.Cancel? && !Ended(s)
    ensures StepsLeft(f, Apply(f, s, a)) < StepsLeft(f, s)
  {
    hide PartOf, Flatten, Quiet, FitsBelow, Holding;
    var s' := Apply(f, s, a);
    match a
    case Spawn => TasksLeftUpdate(f, s.phases, s.started, Running([]));
    case Collect(i) => TasksLeftUpdate(f, s.phases, i, s'.phases[i]);
    case Publish(i) => TasksLeftUpdate(f, s.phases, i, Published);
    case Release(i) => TasksLeftUpdate(f, s.phases, i, Exited);
    case _ =>
  }
}
