/**
 * Loading: every ".csv" entry of the working folder is read, in listing
 * order, then the uploaded file if there is one; the tables are then
 * concatenated and exact duplicate rows dropped.
 */
module Ingestion {
  import opened Wrappers
  import opened Collections
  import opened Records

  /** The working folder whose CSV files are loaded. */
  const Folder: string := "./"

  function EndsWith(s: string, suffix: string): bool {
    |suffix| <= |s| && s[|s| - |suffix|..] == suffix
  }

  /** Only entries whose name ends in ".csv" (case-sensitively) are loaded. */
  predicate IsCsvName(name: string) {
    EndsWith(name, ".csv")
  }

  /** `os.path.join` of the folder and a bare entry name. */
  function JoinPath(folder: string, name: string): string {
    folder + name
  }

  /** The tables read from the folder listing `names`, one per CSV entry, in listing order. */
  function LocalTables(names: seq<string>, read: string -> Table): (ts: seq<Table>)
    ensures forall k :: 0 <= k < |ts| ==>
      exists i :: 0 <= i < |names| && IsCsvName(names[i]) && ts[k] == read(JoinPath(Folder, names[i]))
    ensures forall i :: 0 <= i < |names| && IsCsvName(names[i]) ==> read(JoinPath(Folder, names[i])) in ts
  {
    if names == [] then []
    else
      var last := names[|names| - 1];
      LocalTables(names[..|names| - 1], read)
        + if IsCsvName(last) then [read(JoinPath(Folder, last))] else []
  }

  /** The folder's tables followed by the uploaded one, if any. */
  function LoadedTables(names: seq<string>, read: string -> Table, upload: Option<Table>): (ts: seq<Table>)
    ensures forall t :: t in ts <==> t in LocalTables(names, read) || upload == Some(t)
  {
    LocalTables(names, read) + if upload.Some? then [upload.value] else []
  }

  /** Nothing is loaded exactly when no entry is a CSV file and nothing was uploaded. */
  lemma {:induction false} NothingLoaded(names: seq<string>, read: string -> Table, upload: Option<Table>)
    ensures LoadedTables(names, read, upload) == [] <==>
      (forall i :: 0 <= i < |names| ==> !IsCsvName(names[i])) && upload.None?
  {
    var ts := LocalTables(names, read);
    if ts != [] {
      assert ts[0] in ts;
    }
  }

  /** One table per CSV entry of the listing. */
  lemma {:induction false} LocalTablesCount(names: seq<string>, read: string -> Table)
    ensures |LocalTables(names, read)| == |Filter(names, IsCsvName)|
  {
    if names != [] {
      var init := names[..|names| - 1];
      assert names == init + [names[|names| - 1]];
      LocalTablesCount(init, read);
    }
  }

  /** Walks the folder listing, reading each CSV entry, then adds the upload. */
  method LoadTables(names: seq<string>, read: string -> Table, upload: Option<Table>) returns (tables: seq<Table>)
    ensures tables == LoadedTables(names, read, upload)
  {
    tables := [];
    var i := 0;
    while i < |names|
      invariant 0 <= i <= |names|
      invariant tables == LocalTables(names[..i], read)
    {
      var name := names[i];
      assert names[..i + 1][..i] == names[..i];
      if IsCsvName(name) {
        tables := tables + [read(JoinPath(Folder, name))];
      }
      i := i + 1;
    }
    assert names[..i] == names;
    if upload.Some? {
      tables := tables + [upload.value];
    }
  }

  /** `pd.concat`: the rows of every table, table after table; a row is in it exactly when it is in one of the tables. */
  function Flatten(tables: seq<Table>): (rows: seq<Row>)
    ensures forall r :: r in rows <==> exists k :: 0 <= k < |tables| && r in tables[k]
  {
    if tables == [] then []
    else
      var rest := Flatten(tables[1..]);
      assert forall k :: 0 < k < |tables| ==> tables[k] == tables[1..][k - 1];
      tables[0] + rest
  }

  /** Concatenating two lists of tables concatenates their rows. */
  lemma {:induction false} FlattenAppend(a: seq<Table>, b: seq<Table>)
    ensures Flatten(a + b) == Flatten(a) + Flatten(b)
  {
    if a != [] {
      assert (a + b)[1..] == a[1..] + b;
      FlattenAppend(a[1..], b);
    } else {
      assert a + b == b;
    }
  }

  /** `drop_duplicates(inplace=True)`: keeps each distinct row at its first occurrence. */
  method DropDuplicates(rows: seq<Row>) returns (kept: seq<Row>)
    ensures kept == Distinct(rows)
  {
    kept := [];
    var i := 0;
    while i < |rows|
      invariant 0 <= i <= |rows|
      invariant kept == Distinct(rows[..i])
    {
      assert rows[..i + 1][..i] == rows[..i];
      if rows[i] !in kept {
        kept := kept + [rows[i]];
      }
      i := i + 1;
    }
    assert rows[..i] == rows;
  }

  /** The combined table holds exactly the rows of the loaded tables. */
  lemma CombinedRows(tables: seq<Table>, r: Row)
    ensures r in Distinct(Flatten(tables)) <==> exists k :: 0 <= k < |tables| && r in tables[k]
  {
  }

  /** Loading a table whose rows are all already loaded (the same file uploaded again) changes nothing. */
  lemma RedundantUpload(tables: seq<Table>, upload: Table)
    requires forall r :: r in upload ==> r in Flatten(tables)
    ensures Distinct(Flatten(tables + [upload])) == Distinct(Flatten(tables))
  {
    FlattenAppend(tables, [upload]);
    assert Flatten([upload]) == upload + Flatten([]);
    assert Flatten([upload]) == upload;
    DistinctAbsorbs(Flatten(tables), upload);
  }

  /** Loading every table twice yields the same combined table as loading it once. */
  lemma DoubledTables(tables: seq<Table>)
    ensures Distinct(Flatten(tables + tables)) == Distinct(Flatten(tables))
  {
    FlattenAppend(tables, tables);
    DistinctOfDoubled(Flatten(tables));
  }
}
