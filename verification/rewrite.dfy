/**
 * The per-file tasks of both commands, run one after another.  Each task designates at
 * most one node (`target`), touches nothing else, and what it does there depends only on
 * that node; so the state every task sees is the starting state at its own node, as long
 * as no two tasks designate the same node.
 */
module Rewrite {
  import opened Wrappers
  import opened FileSystem
  import opened Tasks
  import opened Pack

  type Task<!I> = (Fs, I) -> (Fs, Outcome<TaskMessage>)

  /** `a` and `b` hold the same node, or both nothing, at `q`. */
  ghost predicate AgreeAt(a: Fs, b: Fs, q: Path) {
    (q in a <==> q in b) && (q in a ==> a[q] == b[q])
  }

  /** The task changes nothing except its target. */
  ghost predicate Framed<I(!new)>(task: Task<I>, target: I -> Option<Path>) {
    forall fs: Fs, item: I, q: Path :: target(item) != Some(q) ==> AgreeAt(fs, task(fs, item).0, q)
  }

  /** Outcome and effect at the target depend only on the target's node. */
  ghost predicate Local<I(!new)>(task: Task<I>, target: I -> Option<Path>) {
    forall fs1: Fs, fs2: Fs, item: I ::
      (target(item).None? || AgreeAt(fs1, fs2, target(item).value)) ==>
        && task(fs1, item).1 == task(fs2, item).1
        && (target(item).Some? ==> AgreeAt(task(fs1, item).0, task(fs2, item).0, target(item).value))
  }

  /** No task but the `j`-th designates the node the `j`-th designates. */
  ghost predicate SoleTarget<I>(target: I -> Option<Path>, items: seq<I>, j: nat)
    requires j < |items|
  {
    target(items[j]).Some? ==> forall i :: 0 <= i < |items| && i != j ==> target(items[i]) != target(items[j])
  }

  /** Every task applied in order, each to the state the previous ones left; their outcomes in order. */
  function RunTasks<I>(task: Task<I>, fs: Fs, items: seq<I>): (r: (Fs, seq<Outcome<TaskMessage>>))
    ensures |r.1| == |items|
  {
    if |items| == 0 then (fs, [])
    else
      var (fs1, outs) := RunTasks(task, fs, items[..|items| - 1]);
      var (fs2, out) := task(fs1, items[|items| - 1]);
      (fs2, outs + [out])
  }

  /** A node no task designates is left as it was. */
  lemma {:induction false} RunUntouched<I(!new)>(task: Task<I>, target: I -> Option<Path>, fs: Fs, items: seq<I>, q: Path)
    requires Framed(task, target)
    requires forall i :: 0 <= i < |items| ==> target(items[i]) != Some(q)
    ensures AgreeAt(fs, RunTasks(task, fs, items).0, q)
    decreases |items|
  {
    if |items| > 0 {
      var front := items[..|items| - 1];
      RunUntouched(task, target, fs, front, q);
      var fs1 := RunTasks(task, fs, front).0;
      assert AgreeAt(fs1, task(fs1, items[|items| - 1]).0, q);
    }
  }

  /**
   * When the `j`-th task is the only one designating its node, its outcome, and the node it
   * leaves, are those it would have on the starting state alone.
   */
  lemma {:induction false} RunAt<I(!new)>(task: Task<I>, target: I -> Option<Path>, fs: Fs, items: seq<I>, j: nat)
    requires Framed(task, target) && Local(task, target)
    requires j < |items| && SoleTarget(target, items, j)
    ensures RunTasks(task, fs, items).1[j] == task(fs, items[j]).1
    ensures target(items[j]).Some? ==>
      AgreeAt(RunTasks(task, fs, items).0, task(fs, items[j]).0, target(items[j]).value)
    decreases |items|
  {
    if j == |items| - 1 {
      RunAtLast(task, target, fs, items);
    } else {
      var front := items[..|items| - 1];
      FrontSoleTarget(target, items, j);
      RunAt(task, target, fs, front, j);
      RunAtEarlier(task, target, fs, items, j);
    }
  }

  /** The last task sees its node as it was at the start. */
  lemma RunAtLast<I(!new)>(task: Task<I>, target: I -> Option<Path>, fs: Fs, items: seq<I>)
    requires Framed(task, target) && Local(task, target)
    requires |items| > 0 && SoleTarget(target, items, |items| - 1)
    ensures var j := |items| - 1;
      && RunTasks(task, fs, items).1[j] == task(fs, items[j]).1
      && (target(items[j]).Some? ==>
            AgreeAt(RunTasks(task, fs, items).0, task(fs, items[j]).0, target(items[j]).value))
  {
    var front := items[..|items| - 1];
    var last := items[|items| - 1];
    var fs1 := RunTasks(task, fs, front).0;
    FrontUntouched(task, target, fs, items);
    assert target(last).None? || AgreeAt(fs1, fs, target(last).value);
    assert task(fs1, last).1 == task(fs, last).1;
  }

  /** The tasks before the last leave the last one's node as it was. */
  lemma FrontUntouched<I(!new)>(task: Task<I>, target: I -> Option<Path>, fs: Fs, items: seq<I>)
    requires Framed(task, target)
    requires |items| > 0 && SoleTarget(target, items, |items| - 1)
    ensures var t := target(items[|items| - 1]);
      t.Some? ==> AgreeAt(fs, RunTasks(task, fs, items[..|items| - 1]).0, t.value)
  {
    var front := items[..|items| - 1];
    var t := target(items[|items| - 1]);
    if t.Some? {
      forall i | 0 <= i < |front| ensures target(front[i]) != Some(t.value) {
        assert front[i] == items[i];
      }
      RunUntouched(task, target, fs, front, t.value);
    }
  }

  /** Dropping the last task keeps an earlier task the sole one designating its node. */
  lemma FrontSoleTarget<I>(target: I -> Option<Path>, items: seq<I>, j: nat)
    requires j < |items| - 1 && SoleTarget(target, items, j)
    ensures items[..|items| - 1][j] == items[j] && SoleTarget(target, items[..|items| - 1], j)
  {
    var front := items[..|items| - 1];
    if target(items[j]).Some? {
      forall i | 0 <= i < |front| && i != j ensures target(front[i]) != target(front[j]) {
        assert front[i] == items[i];
      }
    }
  }

  /** A later task that does not designate an earlier task's node leaves that task's result in place. */
  lemma RunAtEarlier<I(!new)>(task: Task<I>, target: I -> Option<Path>, fs: Fs, items: seq<I>, j: nat)
    requires Framed(task, target)
    requires j < |items| - 1 && SoleTarget(target, items, j)
    ensures var front := items[..|items| - 1];
      && RunTasks(task, fs, items).1[j] == RunTasks(task, fs, front).1[j]
      && (target(items[j]).Some? ==>
            AgreeAt(RunTasks(task, fs, items).0, RunTasks(task, fs, front).0, target(items[j]).value))
  {
    var front := items[..|items| - 1];
    var last := items[|items| - 1];
    var fs1 := RunTasks(task, fs, front).0;
    var t := target(items[j]);
    if t.Some? {
      assert target(last) != Some(t.value);
      assert AgreeAt(fs1, task(fs1, last).0, t.value);
    }
  }
}
