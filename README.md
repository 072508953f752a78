# postgres-to-redshift: the partitioned export, modelled in Dafny

The program copies Postgres tables to Redshift through S3. When `dumppostgres` is set, it probes the
first listed table for its largest `id`. It divides that id by a fixed split count of 5 to get a
batch size. It then dumps each of the 5 id ranges with its own SQL statement to its own gzip object
under the S3 prefix. The dumps run one after another, and the first failed dump panics. This project
models that block, the `S3Filename` helper and the `TableInfos.New` append that the probe query uses
to collect its rows.

Modules, one per concern of `main.go`:

- `Decimal` (decimal.dfy): the decimal text that `strconv.Itoa` and `%d` produce, with parsers that
  invert it.
- `Naming` (naming.dfy): `S3Filename` and the per-partition object path.
- `Partitioning` (partitioning.dfy): Go's truncating division, the range plan, the `lo < id AND id < hi`
  filter as the predicate `Contains`, and the statement text. It also holds the corrected,
  covering filter described under Findings.
- `Probe` (probe.dfy): `TableInfo` and `TableInfos` as classes, and `New`, which appends in place.
- `Export` (export.dfy): the dump loop as a method with a `while` loop. It is proved against
  `SequentialRun`, a predicate over the task list that `Tasks` builds from the plan. `DumpPostgres` is
  the whole `if *dumppg` block.

Four behaviours of the code that the model keeps as written:

- the last partition is bounded by `splits*batchSize`, not open-ended;
- there is no error for a split count of zero or below, because the count is the constant 5;
- the dumps are sequential and stop at the first failure. The `errgroup.Group` at main.go:66 is
  never used; a Go compiler rejects that unused variable and then the unused import at main.go:9,
  so the block is modelled as it runs once that line and the import are removed;
- there is no error for a negative maximum id. Go's truncating division then gives a batch size of 0
  or below, and every range is empty.

## Model

| member | source | states |
|---|---|---|
| Decimal.NatToDecimal | main.go:71 | `strconv.Itoa` of a non-negative index is a non-empty string of digits; it starts with `0` exactly when the index is 0, and the text of 0 is `"0"` |
| Decimal.ParseNatToDecimal | main.go:71 | reading the decimal text back gives the index: the text is an exact encoding |
| Decimal.NatToDecimalInjective | main.go:71 | distinct indices have distinct decimal text |
| Decimal.IntToDecimal | main.go:70 | the `%d` text of a bound is non-empty, uses only digits and `-`, and starts with `-` exactly when the bound is negative |
| Decimal.ParseIntToDecimal | main.go:70 | reading the `%d` text back gives the bound |
| Decimal.IntToDecimalInjective | main.go:70 | distinct bounds have distinct `%d` text |
| Naming.S3Filename | main.go:38-40 | the file name is the prefix, then the table, then `.txt.gz`; its length is the sum of the two lengths plus 7 |
| Naming.S3FilenameInjective | main.go:38-40 | under one prefix, different tables get different file names |
| Naming.PartitionPath | main.go:71 | the object name of partition i; no contract of its own: `Naming.PartitionPathShape` and `Naming.PartitionPathInjective` state its properties |
| Naming.PartitionPathShape | main.go:71 | a partition's path starts with prefix and table, then has only digits, then ends with `.txt.gz`; it equals `S3Filename` of the table name with the index appended |
| Naming.PartitionPathInjective | main.go:71 | for a fixed prefix and table, distinct partition indices give distinct paths |
| Partitioning.GoDiv | main.go:65 | `size / splits` truncates toward zero: for a non-negative size the remainder is in `[0, splits)`, for a negative one in `(-splits, 0]` |
| Partitioning.Contains | main.go:70 | the filter `lo < id AND id < hi`; no contract of its own: `Partitioning.ExportedIff` and `Partitioning.PlanDisjoint` state which ids it selects |
| Partitioning.PartitionRange | main.go:68-69 | the `min` and `max` of step i; no contract of its own: `Partitioning.PlanShape` and `Export.TaskAt` state its bounds |
| Partitioning.Plan | main.go:64-69 | the ranges of all partitions, partition 0 first; no contract of its own: `Partitioning.PlanShape` and `Partitioning.PlanLastBound` state its shape |
| Partitioning.Statement | main.go:70 | the `Sprintf` text of a partition's query; no contract of its own: `Partitioning.StatementInjective` states that it determines both bounds |
| Partitioning.PlanShape | main.go:64-69 | the plan has `splits` partitions; partition i starts at `i*batchSize` and has width batchSize; partition 0 starts at 0; each partition ends where the next begins |
| Partitioning.PlanLastBound | main.go:64-69 | for a non-negative maximum id, the last partition is bounded at `splits*batchSize`, which is at most the maximum id and short of it by less than `splits` |
| Partitioning.PlanBoundsWithinSize | main.go:65-69 | every bound lies between 0 and the maximum id, so `i*batchSize` cannot overflow a Go int |
| Partitioning.PlanDisjoint | main.go:68-70 | no id is selected by two partitions, for any maximum id |
| Partitioning.PlanMemberIndex | main.go:68-70 | an id that partition k selects has `id / batchSize == k`, is not a multiple of batchSize, and lies strictly between 0 and the last bound |
| Partitioning.PlanMemberOf | main.go:68-70 | an id strictly between 0 and the last bound that is not a multiple of batchSize is selected by partition `id / batchSize` |
| Partitioning.ExportedIff | main.go:68-70 | an id is exported if and only if batchSize is positive, the id is strictly between 0 and `splits*batchSize`, and it is not a multiple of batchSize |
| Partitioning.MaxIdNotExported | main.go:57-70 | the probed maximum id itself is never exported |
| Partitioning.SmallSizeEmptyPlan | main.go:64-69 | when the maximum id lies strictly between `-splits` and `splits`, the truncated batch size is 0 and every partition is the empty range (0, 0) |
| Partitioning.FiveSplitsOfHundred | main.go:64-69 | for maximum id 100 and 5 splits the plan is (0,20), (20,40), (40,60), (60,80), (80,100) |
| Partitioning.StatementInjective | main.go:70 | a partition's SQL statement determines both of its bounds |
| Partitioning.BoundaryIdsLost | main.go:70 | for maximum id 100, the written filter drops ids 20 and 100, and the covering filter keeps them |
| Partitioning.CoveringTotal | main.go:67-70 | under the corrected filter (inclusive lower bound, open last partition) every non-negative id is in some partition |
| Partitioning.CoveringUnique | main.go:67-70 | under the corrected filter no id is in two partitions |
| Probe.TableInfo.constructor | main.go:33 | a new record holds size 0 |
| Probe.TableInfos.constructor | main.go:56 | the zero-value list is empty |
| Probe.TableInfos.New | main.go:32-36 | appends exactly one fresh record with size 0 and returns it as the new last element; earlier records and their sizes are unchanged |
| Export.Tasks | main.go:67-71 | its contract gives one dump request per partition (the count); the statement and path of each request come from the body and are stated by `Export.TaskAt` |
| Export.TaskAt | main.go:67-71 | request i carries the statement for `(i*batchSize, i*batchSize + batchSize)` and the path for index i |
| Export.SequentialRunUnique | main.go:67-75 | the attempted requests and the outcome of a sequential run are determined by the requests and the dump results |
| Export.CompletedIffAllSucceed | main.go:67-75 | the export completes if and only if every partition's dump succeeds, and a completed export attempted every partition |
| Export.TaskPathsDistinct | main.go:71 | the partitions of one export write to pairwise distinct objects |
| Export.ExportPartitions | main.go:64-75 | the loop attempts partitions 0, 1, … in order with the planned statement and path; it completes only if all dumps succeed; otherwise it stops right after the first failed dump and reports that partition |
| Export.DumpPostgres | main.go:55-76 | a failed probe query or an empty probe result stops the block before any dump; otherwise the first table is exported in 5 partitions as `ExportPartitions` states |

## Left out

- Flag and environment parsing (`flagutil`, `go-env`, `flag.Parse`): process configuration outside the
  export logic. The S3 prefix, the table list and the probe's outcome are parameters.
- Splitting the comma-separated table list (`strings.Split`). `DumpPostgres` takes the resulting list
  and requires it to be non-empty, which `strings.Split` with a non-empty separator always guarantees.
  Only the first table is exported.
- Postgres access (`NewDB`, `GetTableSchemas`, `Query`, `DumpTableToS3`): these are calls into a library.
  The probe is a success flag plus the `TableInfos` rows it filled in. How the library calls `New`
  and sets `size` per row is not modelled. The dump is a total oracle over (statement, path).
- The text of the probe query (`SELECT id AS size … limit 1`): it only goes to the library.
- The Redshift refresh (`NewRedshift`, `RefreshTables`) and its time-based temporary schema name:
  the staging, load and rename all happen inside a library, and the name comes from a clock read.
- `errgroup.Group` (main.go:66): created and never used. A Go compiler rejects the unused variable
  `group`, and without it the `errgroup` import at main.go:9 is unused, which Go rejects as well. The
  file builds only without that line and the import. The model describes the block as it then runs:
  one dump after another.
- Logging, `panic` and `log.Fatal`: the model returns an `Outcome` saying where the block stopped,
  instead of ending the process.
- 64-bit integer width: unbounded integers are used. `PlanBoundsWithinSize` shows that every bound
  lies between 0 and the probed id, so no product overflows.

## Findings

| source | as written | input that shows it | evidently intended | confidence | as-written member | corrected member |
|---|---|---|---|---|---|---|
| main.go:70 | `WHERE min < id AND id < max`, and the last partition is bounded by `5*batchSize` | maximum id 100: the rows with ids 20, 40, 60, 80 and 100 fall in no partition and are never exported | every row is exported exactly once: inclusive lower bound, exclusive upper bound, and no upper bound on the last partition | not executed; the loss follows from the proved `ExportedIff` | Partitioning.BoundaryIdsLost | Partitioning.CoveringTotal |

The as-written filter is what `Export.ExportPartitions` sends, because that model describes what the
program does. `Partitioning.CoveringContains` is the corrected filter over the same plan.
`CoveringTotal` and `CoveringUnique` prove that it puts every non-negative id in exactly one partition.
