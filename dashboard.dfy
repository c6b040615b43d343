/** One reactive pass of the dashboard, from the folder listing to the detail view. */
module Dashboard {
  import opened Wrappers
  import opened Collections
  import opened Records
  import opened Ingestion
  import opened Presentation

  /**
   * Runs the whole pipeline once. `names` is the folder listing in the order
   * the operating system returns it, `read` stands for parsing the file at a
   * path, `upload` is the parsed uploaded file, the two sets are the checked
   * sidebar boxes and `selectedRows` the table widget's selection.
   */
  method RunPass(
    names: seq<string>, read: string -> Table, upload: Option<Table>,
    selectedOs: set<string>, selectedStatus: set<Status>, selectedRows: seq<nat>)
    returns (o: Outcome)
    ensures o.NoData? <==> (forall i :: 0 <= i < |names| ==> !IsCsvName(names[i])) && upload.None?
    ensures !o.NoData? ==>
      o == Render(Distinct(Flatten(LoadedTables(names, read, upload))), selectedOs, selectedStatus, selectedRows)
  {
    var tables := LoadTables(names, read, upload);
    NothingLoaded(names, read, upload);
    if |tables| == 0 {
      return NoData;
    }
    var combined := DropDuplicates(Flatten(tables));
    o := Render(combined, selectedOs, selectedStatus, selectedRows);
  }
}
