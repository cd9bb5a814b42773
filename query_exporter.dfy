/**
 * The coordinator: `QueryExporter` keeps the current export thread, and each
 * new export first emits `exit`, which stops every thread ever connected to
 * it, and only then creates and connects the new one. Connections are never
 * removed, so every earlier thread stays subscribed to `exit` and keeps its
 * `error` and `rows_exported` signals relayed.
 */
module QueryExport {
  import opened Cells
  import opened ExportSql

  class QueryExporter {
    /** `self.thread`: the most recently started export thread. */
    var thread: ExportSqlThread?
    /** The threads connected to `exit` (and relayed), oldest first. */
    var connected: seq<ExportSqlThread>

    ghost predicate Valid()
      reads this
    {
      (thread == null <==> connected == [])
      && (thread != null ==> thread == connected[|connected| - 1])
    }

    constructor ()
      ensures Valid() && thread == null && connected == []
    {
      thread := null;
      connected := [];
    }

    /** `self.signals.exit.emit()`: call `stop()` on every connected thread, in connection order. */
    method EmitExit()
      modifies connected`stopEverything
      ensures forall j :: 0 <= j < |connected| ==> connected[j].stopEverything
    {
      var i := 0;
      while i < |connected|
        invariant 0 <= i <= |connected|
        invariant forall j :: 0 <= j < i ==> connected[j].stopEverything
      {
        connected[i].Stop();
        i := i + 1;
      }
    }

    /**
     * `start_export`: stop every earlier thread, then create the new one,
     * make it current and connect it; the new thread is not stopped.
     */
    method StartExport(rows: seq<seq<Cell>>, header: seq<string>, tableName: string)
      requires Valid()
      modifies this, connected`stopEverything
      ensures Valid()
      ensures thread != null && fresh(thread)
      ensures connected == old(connected) + [thread] && |connected| == |old(connected)| + 1
      ensures thread.rows == rows && thread.header == header && thread.tableName == tableName
      ensures !thread.stopEverything && thread.rowsExported == [] && thread.fileEffects == []
      ensures forall j :: 0 <= j < |old(connected)| ==> old(connected)[j].stopEverything
    {
      EmitExit();
      var t := new ExportSqlThread(rows, header, tableName);
      thread := t;
      connected := connected + [t];
    }
  }
}
