/** The range plan of the export block: the probed maximum id is divided into
    `splits` batches, partition i covers the ids strictly between i*batchSize and
    i*batchSize + batchSize, and each partition is fetched with a SQL statement
    whose WHERE clause is that strict comparison. */
module Partitioning {
  import opened Decimal

  /** Go's integer division on int, which truncates toward zero (Dafny's `/`
      rounds toward negative infinity for a negative dividend). */
  function GoDiv(a: int, b: int): (q: int)
    requires b > 0
    ensures a >= 0 ==> q >= 0 && 0 <= a - q * b < b
    ensures a < 0 ==> q <= 0 && -b < a - q * b <= 0
  {
    if a >= 0 then a / b else -((-a) / b)
  }

  /** The bounds of one partition, as the two %d arguments of its statement. */
  datatype Range = Range(lo: int, hi: int)

  /** The statement's filter `lo < id AND id < hi`: exclusive at both ends. */
  predicate Contains(r: Range, id: int) {
    r.lo < id && id < r.hi
  }

  /** Partition i of the plan, as the loop computes min and max. */
  function PartitionRange(batchSize: int, i: nat): Range {
    Range(i * batchSize, i * batchSize + batchSize)
  }

  /** The whole plan for a probed maximum id `size`, partition 0 first. */
  function Plan(size: int, splits: nat): seq<Range>
    requires splits > 0
  {
    seq(splits, i requires 0 <= i => PartitionRange(GoDiv(size, splits), i))
  }

  /** An id that some partition of the plan selects. */
  predicate Exported(plan: seq<Range>, id: int) {
    exists k :: 0 <= k < |plan| && Contains(plan[k], id)
  }

  /** The text handed to the dump: a parenthesised SELECT over the table whose
      WHERE clause is the filter that Contains states. */
  function Statement(table: string, r: Range): string {
    "(SELECT * FROM " + table + " WHERE " + (IntToDecimal(r.lo) + (" < id AND id < " + (IntToDecimal(r.hi) + ")")))
  }

  // ---------------------------------------------------------------------------
  // Arithmetic helpers

  lemma MulMonotone(i: int, j: int, b: int)
    requires i <= j && b >= 0
    ensures i * b <= j * b
  {
    assert j * b - i * b == (j - i) * b;
  }

  lemma DivModUnique(id: int, b: int, k: int, r: int)
    requires b > 0 && id == k * b + r && 0 <= r < b
    ensures id / b == k && id % b == r
  {
    var q, m := id / b, id % b;
    assert id == q * b + m;
    assert (q - k) * b == r - m;
    if q > k {
      MulMonotone(1, q - k, b);
    } else if q < k {
      MulMonotone(1, k - q, b);
    }
  }

  // ---------------------------------------------------------------------------
  // Properties of the plan as written

  /** The plan has `splits` partitions; each has width batchSize, the first
      starts at 0, and each ends where the next begins. */
  lemma PlanShape(size: int, splits: nat)
    requires splits > 0
    ensures var p := Plan(size, splits); var b := GoDiv(size, splits);
      && |p| == splits
      && p[0].lo == 0
      && (forall i :: 0 <= i < splits ==> p[i].lo == i * b && p[i].hi - p[i].lo == b)
      && (forall i :: 0 <= i < splits - 1 ==> p[i].hi == p[i + 1].lo)
  {
    var p := Plan(size, splits);
    var b := GoDiv(size, splits);
    forall i | 0 <= i < splits - 1 ensures p[i].hi == p[i + 1].lo {
      assert (i + 1) * b == i * b + b;
    }
  }

  /** The last partition is bounded: it ends at splits*batchSize, which is at most
      `size` and falls short of it by less than `splits`. */
  lemma PlanLastBound(size: int, splits: nat)
    requires splits > 0 && size >= 0
    ensures var p := Plan(size, splits); var b := GoDiv(size, splits);
      && p[splits - 1].hi == splits * b
      && splits * b <= size
      && size - splits * b < splits
  {
    var b := GoDiv(size, splits);
    assert (splits - 1) * b + b == splits * b;
  }

  /** Every bound lies between 0 and `size`, so the loop's products never leave
      the range of the probed id (no 64-bit overflow for any int64 size). */
  lemma PlanBoundsWithinSize(size: int, splits: nat, k: nat)
    requires splits > 0 && k < splits
    ensures var r := Plan(size, splits)[k];
      if size >= 0 then 0 <= r.lo <= r.hi <= size else size <= r.hi <= r.lo <= 0
  {
    var b := GoDiv(size, splits);
    var r := Plan(size, splits)[k];
    assert r.hi == (k + 1) * b;
    if size >= 0 {
      MulMonotone(0, k, b);
      MulMonotone(k + 1, splits, b);
    } else {
      MulMonotone(0, k, -b);
      MulMonotone(k + 1, splits, -b);
      assert -(splits * b) == splits * (-b);
    }
  }

  /** Under any size, no id is selected by two partitions. */
  lemma PlanDisjoint(size: int, splits: nat, i: nat, j: nat, id: int)
    requires splits > 0 && i < splits && j < splits && i != j
    requires Contains(Plan(size, splits)[i], id)
    ensures !Contains(Plan(size, splits)[j], id)
  {
    var b := GoDiv(size, splits);
    var p := Plan(size, splits);
    assert b > 0;
    if i < j {
      assert p[i].hi == (i + 1) * b;
      MulMonotone(i + 1, j, b);
    } else {
      assert p[j].hi == (j + 1) * b;
      MulMonotone(j + 1, i, b);
    }
  }

  /** The partition an id falls in, if any, is id / batchSize, and the id is not
      a multiple of batchSize. */
  lemma PlanMemberIndex(size: int, splits: nat, k: nat, id: int)
    requires splits > 0 && k < splits
    requires Contains(Plan(size, splits)[k], id)
    ensures var b := GoDiv(size, splits);
      b > 0 && id / b == k && id % b != 0 && 0 < id < splits * b
  {
    var b := GoDiv(size, splits);
    var r := id - k * b;
    assert b > 0;
    DivModUnique(id, b, k, r);
    MulMonotone(0, k, b);
    MulMonotone(k + 1, splits, b);
  }

  /** An id strictly between 0 and the last bound that is not a multiple of
      batchSize is selected by partition id / batchSize. */
  lemma PlanMemberOf(size: int, splits: nat, id: int)
    requires splits > 0
    requires var b := GoDiv(size, splits); b > 0 && 0 < id < splits * b && id % b != 0
    ensures var b := GoDiv(size, splits); id / b < splits && Contains(Plan(size, splits)[id / b], id)
  {
    var b := GoDiv(size, splits);
    var k := id / b;
    assert id == k * b + id % b;
    if k >= splits {
      MulMonotone(splits, k, b);
    }
    assert Plan(size, splits)[k] == Range(k * b, k * b + b);
  }

  /** Exactly the ids strictly between 0 and splits*batchSize that are not
      multiples of batchSize are exported; every boundary id, 0 included, and
      every id beyond the last bound is dropped. */
  lemma ExportedIff(size: int, splits: nat, id: int)
    requires splits > 0
    ensures Exported(Plan(size, splits), id) <==>
      var b := GoDiv(size, splits); b > 0 && 0 < id < splits * b && id % b != 0
  {
    var b := GoDiv(size, splits);
    var p := Plan(size, splits);
    if Exported(p, id) {
      var k :| 0 <= k < |p| && Contains(p[k], id);
      PlanMemberIndex(size, splits, k, id);
    }
    if b > 0 && 0 < id < splits * b && id % b != 0 {
      PlanMemberOf(size, splits, id);
    }
  }

  /** The probed maximum id itself is never exported. */
  lemma MaxIdNotExported(size: int, splits: nat)
    requires splits > 0
    ensures !Exported(Plan(size, splits), size)
  {
    ExportedIff(size, splits, size);
    if size >= 0 {
      PlanLastBound(size, splits);
    }
  }

  /** When the maximum id lies strictly between -splits and splits, the
      truncated batchSize is 0 and every partition is the empty range (0, 0). */
  lemma SmallSizeEmptyPlan(size: int, splits: nat, k: nat)
    requires splits > 0 && -(splits as int) < size < splits && k < splits
    ensures Plan(size, splits)[k] == Range(0, 0)
  {
    assert GoDiv(size, splits) == 0;
  }

  /** An example: a maximum id of 100 and five splits. */
  lemma FiveSplitsOfHundred()
    ensures Plan(100, 5) == [Range(0, 20), Range(20, 40), Range(40, 60), Range(60, 80), Range(80, 100)]
  {
    assert GoDiv(100, 5) == 20;
  }

  /** The statement text determines the partition's bounds. */
  lemma StatementInjective(table: string, r1: Range, r2: Range)
    requires Statement(table, r1) == Statement(table, r2)
    ensures r1 == r2
  {
    var head := "(SELECT * FROM " + table + " WHERE ";
    var mid := " < id AND id < ";
    var lo1, lo2 := IntToDecimal(r1.lo), IntToDecimal(r2.lo);
    var hi1, hi2 := IntToDecimal(r1.hi) + ")", IntToDecimal(r2.hi) + ")";
    CancelHead(head, lo1 + (mid + hi1), lo2 + (mid + hi2));
    NumeralSplit(lo1, mid + hi1, lo2, mid + hi2);
    IntToDecimalInjective(r1.lo, r2.lo);
    CancelHead(mid, hi1, hi2);
    NumeralSplit(IntToDecimal(r1.hi), ")", IntToDecimal(r2.hi), ")");
    IntToDecimalInjective(r1.hi, r2.hi);
  }

  // ---------------------------------------------------------------------------
  // The evidently intended plan: half-open ranges with an open last partition

  /** Membership in partition k when the lower bound is inclusive and the last
      partition has no upper bound. */
  predicate CoveringContains(plan: seq<Range>, k: nat, id: int)
    requires k < |plan|
  {
    plan[k].lo <= id && (k == |plan| - 1 || id < plan[k].hi)
  }

  /** Under the corrected filter every non-negative id lies in some partition. */
  lemma CoveringTotal(size: int, splits: nat, id: int)
    requires splits > 0 && id >= 0
    ensures exists k :: 0 <= k < splits && CoveringContains(Plan(size, splits), k, id)
  {
    var b := GoDiv(size, splits);
    var p := Plan(size, splits);
    var last := splits - 1;
    assert p[last].lo == last * b;
    if b <= 0 {
      MulMonotone(0, last, -b);
      assert last * b == -(last * (-b));
      assert CoveringContains(p, last, id);
    } else {
      var k := id / b;
      var r := id % b;
      assert id == k * b + r && 0 <= r < b;
      if k >= last {
        MulMonotone(last, k, b);
        assert CoveringContains(p, last, id);
      } else {
        assert p[k] == Range(k * b, k * b + b);
        assert CoveringContains(p, k, id);
      }
    }
  }

  /** Under the corrected filter no id lies in two partitions. */
  lemma CoveringUnique(size: int, splits: nat, i: nat, j: nat, id: int)
    requires splits > 0 && i < splits && j < splits
    requires CoveringContains(Plan(size, splits), i, id)
    requires CoveringContains(Plan(size, splits), j, id)
    ensures i == j
  {
    var b := GoDiv(size, splits);
    var p := Plan(size, splits);
    if i < j {
      assert p[i].hi == (i + 1) * b;
      MulMonotone(i + 1, j, b);
    } else if j < i {
      assert p[j].hi == (j + 1) * b;
      MulMonotone(j + 1, i, b);
    }
  }

  /** The ids the written filter drops in that example: the boundary
      id 20 and the probed maximum 100, both of which the corrected filter keeps. */
  lemma BoundaryIdsLost()
    ensures !Exported(Plan(100, 5), 20) && CoveringContains(Plan(100, 5), 1, 20)
    ensures !Exported(Plan(100, 5), 100) && CoveringContains(Plan(100, 5), 4, 100)
  {
    FiveSplitsOfHundred();
    ExportedIff(100, 5, 20);
    ExportedIff(100, 5, 100);
  }
}
