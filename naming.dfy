/** Object names in the S3 bucket: the whole-table file name and the name of
    each exported partition. */
module Naming {
  import opened Decimal

  /** Every exported object is a gzip-compressed text file. */
  const Suffix: string := ".txt.gz"

  /** S3Filename: the prefix, then the table name, then the suffix. */
  function S3Filename(prefix: string, table: string): (r: string)
    ensures |r| == |prefix| + |table| + 7
    ensures r[..|prefix|] == prefix
    ensures r[|prefix|..|prefix| + |table|] == table
    ensures r[|r| - 7..] == Suffix
  {
    prefix + table + Suffix
  }

  /** Under one prefix, different tables get different file names. */
  lemma S3FilenameInjective(prefix: string, t1: string, t2: string)
    requires S3Filename(prefix, t1) == S3Filename(prefix, t2)
    ensures t1 == t2
  {
    var r := S3Filename(prefix, t1);
    assert t1 == r[|prefix|..|r| - 7];
  }

  /** The object name of partition i of a table: the table name with the
      decimal index appended, then the suffix, all under the prefix. */
  function PartitionPath(prefix: string, table: string, i: nat): string {
    prefix + table + NatToDecimal(i) + Suffix
  }

  /** A partition's path is the file name of the table with the index appended:
      prefix and table, then only digits, then the suffix. */
  lemma PartitionPathShape(prefix: string, table: string, i: nat)
    ensures var r := PartitionPath(prefix, table, i);
      && r == S3Filename(prefix, table + NatToDecimal(i))
      && |r| >= |prefix| + |table| + 8
      && r[..|prefix| + |table|] == prefix + table
      && IsDigits(r[|prefix| + |table|..|r| - 7])
      && r[|r| - 7..] == Suffix
  {
    var r := PartitionPath(prefix, table, i);
    var d := NatToDecimal(i);
    assert r == (prefix + table) + d + Suffix;
    assert r[|prefix| + |table|..|r| - 7] == d;
  }

  /** For a fixed prefix and table, distinct partition indices give distinct paths. */
  lemma PartitionPathInjective(prefix: string, table: string, i: nat, j: nat)
    requires PartitionPath(prefix, table, i) == PartitionPath(prefix, table, j)
    ensures i == j
  {
    var head := prefix + table;
    assert PartitionPath(prefix, table, i) == head + (NatToDecimal(i) + Suffix);
    assert PartitionPath(prefix, table, j) == head + (NatToDecimal(j) + Suffix);
    CancelHead(head, NatToDecimal(i) + Suffix, NatToDecimal(j) + Suffix);
    NumeralSplit(NatToDecimal(i), Suffix, NatToDecimal(j), Suffix);
    NatToDecimalInjective(i, j);
  }
}
