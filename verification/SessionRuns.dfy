/**
 The session as a transition system over its visible state, and what every run of it keeps. The methods of
 `Memscan` take exactly these steps.
 */
module SessionRuns {
  import opened Sequences

  /** Results, the other buffer, the round counter and the undo flag. */
  datatype State = State(results: seq<nat>, previous: seq<nat>, round: int, canUndo: bool)

  const CLEARED := State([], [], 0, false)

  function FirstStep(answer: seq<nat>): State {
    State(answer, [], 1, false)
  }

  /** A next scan of a nonempty result list; of an empty one it does nothing. */
  function NextStep(s: State, kept: seq<nat>): State {
    if s.results == [] then s else State(kept, s.results, s.round + 1, true)
  }

  function UndoStep(s: State): State {
    if s.canUndo then State(s.previous, [], s.round - 1, false) else s
  }

  datatype Op = Reset | First(answer: seq<nat>) | Next(kept: seq<nat>) | Undo

  /** First scans answer with ascending lists; next scans keep an ascending part of the results. */
  ghost predicate Legal(s: State, op: Op) {
    match op
    case First(answer) => Ascending(answer)
    case Next(kept) => s.results != [] ==> Ascending(kept) && Within(kept, s.results)
    case _ => true
  }

  function Step(s: State, op: Op): State {
    match op
    case Reset => CLEARED
    case First(answer) => FirstStep(answer)
    case Next(kept) => NextStep(s, kept)
    case Undo => UndoStep(s)
  }

  function Run(ops: seq<Op>): State {
    if ops == [] then CLEARED else Step(Run(ops[..|ops| - 1]), ops[|ops| - 1])
  }

  ghost predicate LegalRun(ops: seq<Op>) {
    forall i :: 0 <= i < |ops| ==> Legal(Run(ops[..i]), ops[i])
  }

  /**
   The reference: a full history of result lists since the last first scan. An undo is granted only when
   the last change of the history was a next scan, and then drops the newest list.
   */
  datatype History = History(lists: seq<seq<nat>>, lastWasNext: bool)

  function HistoryStep(h: History, op: Op): History {
    match op
    case Reset => History([], false)
    case First(answer) => History([answer], false)
    case Next(kept) =>
      if h.lists == [] || h.lists[|h.lists| - 1] == [] then h else History(h.lists + [kept], true)
    case Undo =>
      if h.lastWasNext && h.lists != [] then History(h.lists[..|h.lists| - 1], false) else h
  }

  function HistoryOf(ops: seq<Op>): History {
    if ops == [] then History([], false) else HistoryStep(HistoryOf(ops[..|ops| - 1]), ops[|ops| - 1])
  }

  /** The session shows the newest list and, while undo is possible, keeps the one before it. */
  ghost predicate Shows(s: State, h: History) {
    && s.round == |h.lists| && s.canUndo == h.lastWasNext
    && s.results == (if h.lists == [] then [] else h.lists[|h.lists| - 1])
    && (s.canUndo ==> |h.lists| >= 2 && s.previous == h.lists[|h.lists| - 2])
  }

  ghost predicate Within(part: seq<nat>, whole: seq<nat>) {
    forall x :: x in part ==> x in whole
  }

  /** Every list of the history is ascending and keeps only addresses of the lists before it. */
  ghost predicate Narrowing(h: History) {
    && (forall i :: 0 <= i < |h.lists| ==> Ascending(h.lists[i]))
    && (forall i, j :: 0 <= i < j < |h.lists| ==> Within(h.lists[j], h.lists[i]))
  }

  lemma HistoryStepKeeps(s: State, h: History, op: Op)
    requires Shows(s, h) && Narrowing(h) && Legal(s, op)
    ensures Shows(Step(s, op), HistoryStep(h, op)) && Narrowing(HistoryStep(h, op))
  {
    var h' := HistoryStep(h, op);
    if op.Next? && s.results != [] {
      var last := |h'.lists| - 1;
      forall i | 0 <= i < last ensures Within(h'.lists[last], h'.lists[i]) {
        assert i == last - 1 || Within(h.lists[last - 1], h.lists[i]);
      }
    }
  }

  /**
   Over every run the session is the one-level view of its history: results ascend and only narrow, the
   round counts the lists, and `canUndo` means the other buffer holds the list before.
   */
  lemma {:induction false} RunShowsHistory(ops: seq<Op>)
    requires LegalRun(ops)
    ensures Shows(Run(ops), HistoryOf(ops)) && Narrowing(HistoryOf(ops))
  {
    if ops != [] {
      var last := |ops| - 1;
      forall i | 0 <= i < last ensures Legal(Run(ops[..last][..i]), ops[..last][i]) {
        assert ops[..last][..i] == ops[..i];
      }
      RunShowsHistory(ops[..last]);
      HistoryStepKeeps(Run(ops[..last]), HistoryOf(ops[..last]), ops[last]);
    }
  }

  /** What the session promises to its callers after any run. */
  lemma RunInvariant(ops: seq<Op>)
    requires LegalRun(ops)
    ensures var s := Run(ops);
            && Ascending(s.results)
            && (s.results != [] ==> s.round >= 1)
            && (s.canUndo ==> s.round >= 2 && Ascending(s.previous) && Within(s.results, s.previous))
  {
    RunShowsHistory(ops);
  }

  /**
   ops[k] is the next scan an undo takes back: it brings back what was shown before, and nothing has changed since.
   */
  ghost predicate TakesBack(ops: seq<Op>, k: nat)
    requires k < |ops|
  {
    var undone, before := UndoStep(Run(ops)), Run(ops[..k]);
    && ops[k].Next? && before.results != []
    && undone.results == before.results && undone.round == before.round && !undone.canUndo
    && forall j :: k < j <= |ops| ==> Run(ops[..j]) == Run(ops)
  }

  /** Whenever undo is possible it takes back the latest next scan that had any effect. */
  lemma {:induction false} UndoRestores(ops: seq<Op>)
    requires Run(ops).canUndo
    ensures exists k :: 0 <= k < |ops| && TakesBack(ops, k)
  {
    var last := |ops| - 1;
    var front := ops[..last];
    assert ops[..|ops|] == ops;
    if Run(front).results != [] {
      assert TakesBack(ops, last);
    } else {
      UndoRestores(front);
      var k :| 0 <= k < |front| && TakesBack(front, k);
      assert forall j :: 0 <= j <= last ==> front[..j] == ops[..j];
      assert TakesBack(ops, k);
    }
  }
}
