/**
 * The `bq` package's client wrapper: table names with an optional per-host
 * prefix, and rows queued for streaming inserts. The BigQuery client and the
 * streaming worker group are not modelled; the worker group is reduced to the
 * queue of rows handed to it.
 */
module Bq {
  import opened Wrappers
  import Util
  import BqEncode

  /** A row as handed to the streaming inserter: where it goes and what it holds. */
  datatype StreamRow = StreamRow(projectId: string, datasetId: string, tableId: string, data: BqEncode.Row)

  /** The package-wide insert worker group, seen as the rows enqueued on it so far. */
  class InsertWorker {
    var queue: seq<StreamRow>

    constructor ()
      ensures queue == []
    {
      queue := [];
    }

    method Enqueue(row: StreamRow)
      modifies this
      ensures queue == old(queue) + [row]
    {
      queue := queue + [row];
    }
  }

  /** The table name a prefix gives: `<prefix>_<id>`, or the id alone when there is no prefix. */
  function PrefixedTableId(prefix: string, tableId: string): (r: string)
    ensures prefix == "" ==> r == tableId
    ensures prefix != "" ==> |r| == |prefix| + 1 + |tableId| && r[..|prefix|] == prefix &&
                             r[|prefix|] == '_' && r[|prefix| + 1..] == tableId
  {
    if prefix != "" then prefix + "_" + tableId else tableId
  }

  /** Under one prefix, two table ids never share a table name. */
  lemma PrefixedTableIdInjective(prefix: string, a: string, b: string)
    requires PrefixedTableId(prefix, a) == PrefixedTableId(prefix, b)
    ensures a == b
  {
    if prefix != "" {
      var r := PrefixedTableId(prefix, a);
      assert a == r[|prefix| + 1..];
    }
  }

  /** With an 8-character prefix, such as a host hash, the prefix and the id are read back from the table name. */
  lemma HostPrefixSplits(prefix: string, tableId: string)
    requires |prefix| == 8
    ensures var r := PrefixedTableId(prefix, tableId);
            r[..8] == prefix && r[8] == '_' && r[9..] == tableId
  {
  }

  class BigQueryWrapper {
    var projectId: string
    var datasetId: string
    var tablePrefix: string

    /** `NewBigQueryWrapper`: the given project and dataset, and no table prefix. */
    constructor (projectId: string, datasetId: string)
      ensures this.projectId == projectId && this.datasetId == datasetId && tablePrefix == ""
    {
      this.projectId := projectId;
      this.datasetId := datasetId;
      tablePrefix := "";
    }

    /** `TableId`: the table name under the wrapper's current prefix. */
    function TableId(tableId: string): (r: string)
      reads this
      ensures tablePrefix == "" ==> r == tableId
      ensures tablePrefix != "" ==> |r| == |tablePrefix| + 1 + |tableId| && r[..|tablePrefix|] == tablePrefix && r[|tablePrefix|] == '_' &&
                                    r[|tablePrefix| + 1..] == tableId
    {
      PrefixedTableId(tablePrefix, tableId)
    }

    /**
     * `UseTablePrefix(useIt)`: with `useIt`, the prefix becomes the 32-bit
     * FNV-1 hash of the host name in 8 hex digits, and a failed host-name
     * lookup panics leaving the wrapper as it was; without it the prefix is cleared.
     */
    method UseTablePrefix(useIt: bool, hostname: Result<string, string>) returns (o: Util.Outcome)
      modifies this
      ensures projectId == old(projectId) && datasetId == old(datasetId)
      ensures o.Panic? <==> useIt && hostname.Err?
      ensures o.Panic? ==> o.msg == "Cannot get hostname" + hostname.error && tablePrefix == old(tablePrefix)
      ensures !useIt ==> tablePrefix == ""
      ensures useIt && hostname.Ok? ==>
                tablePrefix == Util.HexString(Util.BigEndian(Util.Fnv1(Util.Utf8(hostname.value)))) &&
                |tablePrefix| == 8 && forall i :: 0 <= i < 8 ==> Util.IsHexDigit(tablePrefix[i])
    {
      if useIt {
        o := Util.PanicOnError("Cannot get hostname", if hostname.Err? then Some(hostname.error) else None);
        if o.Panic? {
          return;
        }
        tablePrefix := Util.Hash32(hostname.value);
      } else {
        o := Util.Continue;
        tablePrefix := "";
      }
    }

    /**
     * `AddRow(tableId, row)`: encodes the row, dropping empty values; an
     * encoding error is returned and nothing is queued, otherwise exactly one
     * row for the prefixed table is queued on the insert worker.
     */
    method AddRow(worker: InsertWorker, tableId: string, row: BqEncode.Value) returns (err: Option<BqEncode.EncodeError>)
      requires BqEncode.NoNilPointer(row)
      modifies worker
      ensures BqEncode.EncodeLegacy(row, true).Err? ==>
                err == Some(BqEncode.EncodeLegacy(row, true).error) && worker.queue == old(worker.queue)
      ensures BqEncode.EncodeLegacy(row, true).Ok? ==>
                err == None &&
                worker.queue == old(worker.queue) + [StreamRow(projectId, datasetId, TableId(tableId), BqEncode.EncodeLegacy(row, true).value)]
    {
      var data := BqEncode.Encode(row, true);
      if data.Err? {
        return Some(data.error);
      }
      worker.Enqueue(StreamRow(projectId, datasetId, TableId(tableId), data.value));
      return None;
    }
  }

  /** A wrapper whose host prefix is set files every table under that prefix. */
  method PrefixedWrapperExample(worker: InsertWorker, hostname: string) returns (w: BigQueryWrapper)
    modifies worker
    ensures worker.queue == old(worker.queue) + [StreamRow("some-project", "some_dataset", w.tablePrefix + "_mytable", map[])]
    ensures |w.tablePrefix| == 8
  {
    w := new BigQueryWrapper("some-project", "some_dataset");
    var o := w.UseTablePrefix(true, Ok(hostname));
    var err := w.AddRow(worker, "mytable", BqEncode.Struct([]));
    assert BqEncode.EncodeLegacy(BqEncode.Struct([]), true) == Ok(map[]);
    assert w.TableId("mytable") == w.tablePrefix + "_mytable";
  }
}
