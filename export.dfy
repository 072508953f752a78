/** The export block of the program: probe the first table's maximum id, split
    it into ranges, and dump each range to its own S3 object, one after another,
    stopping the process at the first failure. */
module Export {
  import opened Partitioning
  import opened Naming
  import Probe

  /** The fixed number of partitions. */
  const Splits: nat := 5

  /** One dump request: the SQL statement and the destination object. */
  datatype Task = Task(statement: string, path: string)

  /** How the export block ends. Every outcome but Completed is a panic. */
  datatype Outcome =
    | Completed
    | QueryFailed           // the probe query returned an error
    | NoRows                // the probe returned no row, so indexing row 0 panics
    | DumpFailed(partition: nat)

  /** The dump requests of a plan, partition 0 first. */
  function Tasks(prefix: string, table: string, size: int, splits: nat): (ts: seq<Task>)
    requires splits > 0
    ensures |ts| == splits
  {
    var plan := Plan(size, splits);
    seq(splits, i requires 0 <= i < splits => Task(Statement(table, plan[i]), PartitionPath(prefix, table, i)))
  }

  /** Request i carries the bounds the loop computes at step i. */
  lemma TaskAt(prefix: string, table: string, size: int, splits: nat, i: nat)
    requires splits > 0 && i < splits
    ensures var b := GoDiv(size, splits);
      Tasks(prefix, table, size, splits)[i] ==
        Task(Statement(table, Range(i * b, i * b + b)), PartitionPath(prefix, table, i))
  {
  }

  /** Whether the dump collaborator reports success for a task. */
  predicate Succeeds(dump: (string, string) -> bool, t: Task) {
    dump(t.statement, t.path)
  }

  /** A sequential run over `tasks`: the tasks are attempted in order; the run
      completes when every task succeeds, and otherwise ends right after the first
      task that fails, attempting nothing beyond it. */
  predicate SequentialRun(tasks: seq<Task>, dump: (string, string) -> bool, attempted: seq<Task>, outcome: Outcome) {
    match outcome
    case Completed =>
      attempted == tasks && forall k :: 0 <= k < |tasks| ==> Succeeds(dump, tasks[k])
    case DumpFailed(f) =>
      f < |tasks| && attempted == tasks[..f + 1] && !Succeeds(dump, tasks[f]) &&
      forall k :: 0 <= k < f ==> Succeeds(dump, tasks[k])
    case _ => false
  }

  /** A sequential run is determined by the tasks and the collaborator. */
  lemma SequentialRunUnique(tasks: seq<Task>, dump: (string, string) -> bool,
                            a1: seq<Task>, o1: Outcome, a2: seq<Task>, o2: Outcome)
    requires SequentialRun(tasks, dump, a1, o1) && SequentialRun(tasks, dump, a2, o2)
    ensures a1 == a2 && o1 == o2
  {
  }

  /** The export completes exactly when every partition's dump succeeds, and a
      completed export has attempted every path of the plan. */
  lemma CompletedIffAllSucceed(tasks: seq<Task>, dump: (string, string) -> bool, attempted: seq<Task>, outcome: Outcome)
    requires SequentialRun(tasks, dump, attempted, outcome)
    ensures outcome == Completed <==> forall k :: 0 <= k < |tasks| ==> Succeeds(dump, tasks[k])
    ensures outcome == Completed ==> |attempted| == |tasks|
  {
  }

  /** The objects one export writes to are pairwise distinct. */
  lemma TaskPathsDistinct(prefix: string, table: string, size: int, splits: nat, i: nat, j: nat)
    requires splits > 0 && i < splits && j < splits && i != j
    ensures Tasks(prefix, table, size, splits)[i].path != Tasks(prefix, table, size, splits)[j].path
  {
    if Tasks(prefix, table, size, splits)[i].path == Tasks(prefix, table, size, splits)[j].path {
      PartitionPathInjective(prefix, table, i, j);
    }
  }

  /** A run that attempted every task, each successfully, is a completed sequential run. */
  lemma CompletedRun(tasks: seq<Task>, dump: (string, string) -> bool, attempted: seq<Task>)
    requires attempted == tasks
    requires forall k :: 0 <= k < |attempted| ==> Succeeds(dump, attempted[k])
    ensures SequentialRun(tasks, dump, attempted, Completed)
  {
  }

  /** A run that stopped right after the first failing task is a failed sequential run. */
  lemma FailedRun(tasks: seq<Task>, dump: (string, string) -> bool, attempted: seq<Task>, f: nat)
    requires f < |tasks| && attempted == tasks[..f + 1]
    requires forall k :: 0 <= k < f ==> Succeeds(dump, attempted[k])
    requires !Succeeds(dump, tasks[f])
    ensures SequentialRun(tasks, dump, attempted, DumpFailed(f))
  {
  }

  lemma PrefixStep(s: seq<Task>, i: nat)
    requires i < |s|
    ensures s[..i + 1] == s[..i] + [s[i]]
  {
  }

  /** The dump loop: for i from 0 below `splits`, compute the bounds, build the
      statement and the path, and dump; a failed dump ends the loop. */
  method ExportPartitions(prefix: string, table: string, size: int, splits: nat, dump: (string, string) -> bool)
    returns (attempted: seq<Task>, outcome: Outcome)
    requires splits > 0
    ensures SequentialRun(Tasks(prefix, table, size, splits), dump, attempted, outcome)
  {
    ghost var tasks := Tasks(prefix, table, size, splits);
    var batchSize := GoDiv(size, splits);
    attempted := [];
    var i := 0;
    while i < splits
      invariant 0 <= i <= splits
      invariant attempted == tasks[..i]
      invariant forall k :: 0 <= k < |attempted| ==> Succeeds(dump, attempted[k])
    {
      var min := i * batchSize;
      var max := min + batchSize;
      var statement := Statement(table, Range(min, max));
      var path := PartitionPath(prefix, table, i);
      TaskAt(prefix, table, size, splits, i);
      assert Task(statement, path) == tasks[i];
      PrefixStep(tasks, i);
      attempted := attempted + [Task(statement, path)];
      assert attempted == tasks[..i + 1];
      if !dump(statement, path) {
        FailedRun(tasks, dump, attempted, i);
        outcome := DumpFailed(i);
        return;
      }
      i := i + 1;
    }
    CompletedRun(tasks, dump, attempted);
    outcome := Completed;
  }

  /** The `dumppostgres` block: the probe's error, then its first row, then the
      dump loop over the first table with the fixed split count. `queryOk` is
      whether the probe query succeeded and `infos` the rows it filled in. */
  method DumpPostgres(prefix: string, tables: seq<string>, queryOk: bool,
                      infos: Probe.TableInfos, dump: (string, string) -> bool)
    returns (attempted: seq<Task>, outcome: Outcome)
    requires |tables| > 0
    ensures !queryOk ==> attempted == [] && outcome == QueryFailed
    ensures queryOk && infos.items == [] ==> attempted == [] && outcome == NoRows
    ensures queryOk && infos.items != [] ==>
      SequentialRun(Tasks(prefix, tables[0], infos.items[0].size, Splits), dump, attempted, outcome)
  {
    if !queryOk {
      return [], QueryFailed;
    }
    if |infos.items| == 0 {
      return [], NoRows;
    }
    var table := tables[0];
    attempted, outcome := ExportPartitions(prefix, table, infos.items[0].size, Splits, dump);
  }
}
