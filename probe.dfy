/** The rows that the maximum-id probe query fills in: a growable list of
    TableInfo records, each holding one `size` value. */
module Probe {

  /** One result row of the probe query; a new record holds 0 until filled. */
  class TableInfo {
    var size: int

    constructor ()
      ensures size == 0
    {
      size := 0;
    }
  }

  /** The slice of records that the query appends to, one per row. */
  class TableInfos {
    var items: seq<TableInfo>

    /** The zero value: an empty list. */
    constructor ()
      ensures items == []
    {
      items := [];
    }

    /** New: allocates a zeroed record, appends it, and returns it. Earlier
        records stay in place and keep their values. */
    method New() returns (ti: TableInfo)
      modifies this
      ensures fresh(ti) && ti.size == 0
      ensures items == old(items) + [ti]
      ensures |items| == |old(items)| + 1 && items[|items| - 1] == ti
      ensures forall k :: 0 <= k < |old(items)| ==> items[k] == old(items[k]) && items[k].size == old(items[k].size)
    {
      ti := new TableInfo();
      items := items + [ti];
    }
  }
}
