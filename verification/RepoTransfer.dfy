/** Dump, clean-up and restore of one repository's rows.

    A table is a list of rows and its unique keys. `INSERT OR IGNORE` skips a row that agrees
    with a stored one on all columns of some key; NULLs never agree. The dump goes
    through JSON, which turns every blob into the text of its Python form. */
module RepoTransfer {
  import opened Sequences
  import opened Wrappers

  datatype Value = Null | Int(i: int) | Real(r: real) | Text(t: string) | Blob(bytes: seq<bv8>)

  type Row = map<string, Value>

  datatype Table = Table(columns: set<string>, keys: seq<set<string>>, rows: seq<Row>)

  type Db = map<string, Table>

  datatype TableDump = TableDump(name: string, rows: seq<Row>)

  datatype Dump = Dump(repoId: Value, tables: seq<TableDump>)

  const REPO_COLUMN := "repository_id"
  const DUMPED := ["files", "directories", "symbols", "edges"]
  const CLEANED := ["files", "directories", "symbols", "edges", "audit_findings", "test_results", "execution_tasks",
                    "file_tree", "disk_usage", "repo_sync_state", "index_stats", "index_query_cache",
                    "embeddings", "edge_hashes"]

  // ---- rows of a repository ----

  predicate IsMine(row: Row, rid: Value) {
    REPO_COLUMN in row && row[REPO_COLUMN] == rid && rid != Null
  }

  function Mine(rows: seq<Row>, rid: Value): seq<Row> {
    if rows == [] then [] else if IsMine(rows[0], rid) then [rows[0]] + Mine(rows[1..], rid) else Mine(rows[1..], rid)
  }

  function Others(rows: seq<Row>, rid: Value): seq<Row> {
    if rows == [] then [] else if IsMine(rows[0], rid) then Others(rows[1..], rid) else [rows[0]] + Others(rows[1..], rid)
  }

  // ---- unique keys ----

  function At(row: Row, c: string): Value {
    if c in row then row[c] else Null
  }

  predicate Agree(key: set<string>, a: Row, b: Row) {
    forall c :: c in key ==> At(a, c) != Null && At(a, c) == At(b, c)
  }

  predicate Conflict(keys: seq<set<string>>, a: Row, b: Row) {
    exists k :: 0 <= k < |keys| && Agree(keys[k], a, b)
  }

  /** Some key of the row is filled in completely. */
  predicate HasKey(keys: seq<set<string>>, row: Row) {
    exists k :: 0 <= k < |keys| && forall c :: c in keys[k] ==> At(row, c) != Null
  }

  predicate Blocked(keys: seq<set<string>>, rows: seq<Row>, row: Row) {
    exists i :: 0 <= i < |rows| && Conflict(keys, rows[i], row)
  }

  ghost predicate Consistent(keys: seq<set<string>>, rows: seq<Row>) {
    forall i, j :: 0 <= i < j < |rows| ==> !Conflict(keys, rows[i], rows[j])
  }

  ghost predicate ValidTable(t: Table) {
    Consistent(t.keys, t.rows) && forall i :: 0 <= i < |t.rows| ==> t.rows[i].Keys == t.columns
  }

  // ---- the three operations ----

  function CleanTable(t: Table, rid: Value): Table {
    if REPO_COLUMN in t.columns then t.(rows := Others(t.rows, rid)) else t
  }

  function WithoutId(rows: seq<Row>, rid: Value): seq<Row> {
    if rows == [] then []
    else if At(rows[0], "id") == rid && rid != Null then WithoutId(rows[1..], rid)
    else [rows[0]] + WithoutId(rows[1..], rid)
  }

  /** One table after the clean-up. */
  function CleanedTable(name: string, t: Table, rid: Value): Table {
    if name == "repositories" then t.(rows := WithoutId(t.rows, rid))
    else if name in CLEANED then CleanTable(t, rid)
    else t
  }

  function CleanDb(db: Db, rid: Value): Db {
    map name | name in db :: CleanedTable(name, db[name], rid)
  }

  /** A value after `json.dump(default=str)` and `json.load`. */
  function Json(v: Value, str: seq<bv8> -> string): Value {
    if v.Blob? then Text(str(v.bytes)) else v
  }

  function JsonRow(row: Row, str: seq<bv8> -> string): Row {
    map c | c in row :: Json(row[c], str)
  }

  function JsonRows(rows: seq<Row>, str: seq<bv8> -> string): (r: seq<Row>)
    ensures |r| == |rows| && forall k :: 0 <= k < |rows| ==> r[k] == JsonRow(rows[k], str)
  {
    if rows == [] then [] else [JsonRow(rows[0], str)] + JsonRows(rows[1..], str)
  }

  /** Tables without the column, or missing altogether, raise and are left out of the dump. */
  function DumpTables(db: Db, names: seq<string>, rid: Value, str: seq<bv8> -> string): seq<TableDump> {
    if names == [] then []
    else
      var last := |names| - 1;
      var before := DumpTables(db, names[..last], rid, str);
      if names[last] in db && REPO_COLUMN in db[names[last]].columns
      then before + [TableDump(names[last], JsonRows(Mine(db[names[last]].rows, rid), str))]
      else before
  }

  /** `INSERT OR IGNORE` of one row; an unknown column raises, which is swallowed. */
  function InsertOrIgnore(t: Table, row: Row): Table {
    if !(row.Keys <= t.columns) || Blocked(t.keys, t.rows, row) then t
    else t.(rows := t.rows + [map c | c in t.columns :: At(row, c)])
  }

  function RestoreTable(t: Table, rows: seq<Row>): Table {
    if rows == [] then t else InsertOrIgnore(RestoreTable(t, rows[..|rows| - 1]), rows[|rows| - 1])
  }

  function RestoreDb(db: Db, tables: seq<TableDump>): Db {
    if tables == [] then db
    else
      var last := |tables| - 1;
      var before := RestoreDb(db, tables[..last]);
      if tables[last].name in before
      then before[tables[last].name := RestoreTable(before[tables[last].name], tables[last].rows)]
      else before
  }

  /** How a request ends: done, only announced, no such repository, or an error half-way. */
  datatype Reply = Done | DryRun | NotFound | Failed

  class RepoDatabase {
    var tables: Db

    constructor (tables: Db)
      ensures this.tables == tables
    {
      this.tables := tables;
    }

    /** The loop of deletes; a table that raises is passed over, but not the last, the list of repositories. */
    method Cleanup(rid: Option<Value>, dryRun: bool) returns (r: Reply)
      modifies this
      ensures rid.None? || dryRun ==> tables == old(tables)
      ensures rid.Some? && !dryRun ==> tables == CleanDb(old(tables), rid.value)
      ensures r == if rid.None? then NotFound else if dryRun then DryRun
                   else if "repositories" in old(tables) then Done else Failed
    {
      if rid.None? {
        return NotFound;
      }
      if dryRun {
        return DryRun;
      }
      DeleteRows(rid.value);
      RepositoriesIsApart();
      if "repositories" in tables {
        tables := tables["repositories" := tables["repositories"].(rows := WithoutId(tables["repositories"].rows, rid.value))];
        return Done;
      }
      return Failed;
    }

    method DeleteRows(rid: Value)
      modifies this
      ensures tables.Keys == old(tables).Keys
      ensures forall name :: name in tables ==>
                tables[name] == if name in CLEANED then CleanTable(old(tables)[name], rid) else old(tables)[name]
    {
      var names := CLEANED;
      for i := 0 to |names|
        invariant tables.Keys == old(tables).Keys
        invariant forall name :: name in tables ==>
                    tables[name] == if name in names[..i] then CleanTable(old(tables)[name], rid) else old(tables)[name]
      {
        assert forall name :: name in names[..i + 1] <==> name in names[..i] || name == names[i];
        assert names[i] !in names[..i];
        if names[i] in tables {
          if REPO_COLUMN in tables[names[i]].columns {
            tables := tables[names[i] := tables[names[i]].(rows := Others(tables[names[i]].rows, rid))];
          }
        }
      }
      assert names[..|names|] == names;
    }

    method DumpRepository(rid: Value, str: seq<bv8> -> string) returns (dump: Dump)
      ensures dump == Dump(rid, DumpTables(tables, DUMPED, rid, str))
    {
      var out: seq<TableDump> := [];
      var names := DUMPED;
      for i := 0 to |names|
        invariant out == DumpTables(tables, names[..i], rid, str)
      {
        assert names[..i + 1][..i] == names[..i];
        if names[i] in tables && REPO_COLUMN in tables[names[i]].columns {
          out := out + [TableDump(names[i], JsonRows(Mine(tables[names[i]].rows, rid), str))];
        }
      }
      assert names[..|names|] == names;
      dump := Dump(rid, out);
    }

    /** The two nested loops of the restore. */
    method Restore(dump: Dump, dryRun: bool) returns (r: Reply)
      modifies this
      ensures tables == if dryRun then old(tables) else RestoreDb(old(tables), dump.tables)
      ensures r == if dryRun then DryRun else Done
    {
      if dryRun {
        return DryRun;
      }
      for i := 0 to |dump.tables|
        invariant tables == RestoreDb(old(tables), dump.tables[..i])
      {
        assert dump.tables[..i + 1][..i] == dump.tables[..i];
        var name, rows := dump.tables[i].name, dump.tables[i].rows;
        if name in tables {
          ghost var before := tables;
          for j := 0 to |rows|
            invariant tables == before[name := RestoreTable(before[name], rows[..j])]
          {
            assert rows[..j + 1][..j] == rows[..j];
            tables := tables[name := InsertOrIgnore(tables[name], rows[j])];
          }
          assert rows[..|rows|] == rows;
        }
      }
      assert dump.tables[..|dump.tables|] == dump.tables;
      return Done;
    }
  }

  lemma RepositoriesIsApart()
    ensures "repositories" !in CLEANED
  {
  }

  // ---- what the clean-up takes ----

  /** The row belongs to the repository: in the list of repositories by its id, in a table of files, symbols and
      so on by its repository_id. Nothing belongs to NULL, and no table but these is looked at. */
  predicate BelongsTo(name: string, row: Row, rid: Value) {
    rid != Null &&
    if name == "repositories" then "id" in row && row["id"] == rid
    else
      name in {"files", "directories", "symbols", "edges", "audit_findings", "test_results", "execution_tasks",
               "file_tree", "disk_usage", "repo_sync_state", "index_stats", "index_query_cache", "embeddings",
               "edge_hashes"} &&
      "repository_id" in row && row["repository_id"] == rid
  }

  lemma {:induction false} WithoutIdCounts(rows: seq<Row>, rid: Value, row: Row)
    ensures multiset(WithoutId(rows, rid))[row] ==
            if rid != Null && At(row, "id") == rid then 0 else multiset(rows)[row]
  {
    if rows != [] {
      WithoutIdCounts(rows[1..], rid, row);
      MultisetHead(rows);
      if !(At(rows[0], "id") == rid && rid != Null) {
        assert ([rows[0]] + WithoutId(rows[1..], rid))[1..] == WithoutId(rows[1..], rid);
        MultisetHead([rows[0]] + WithoutId(rows[1..], rid));
      }
    }
  }

  lemma {:induction false} OthersCounts(rows: seq<Row>, rid: Value, row: Row)
    ensures multiset(Others(rows, rid))[row] == if IsMine(row, rid) then 0 else multiset(rows)[row]
    ensures multiset(Mine(rows, rid))[row] == if IsMine(row, rid) then multiset(rows)[row] else 0
  {
    SplitRows(rows, rid);
    SplitMembers(rows, rid);
    var others, mine := multiset(Others(rows, rid)), multiset(Mine(rows, rid));
    assert multiset(rows)[row] == others[row] + mine[row];
    assert row in others <==> row in Others(rows, rid);
    assert row in mine <==> row in Mine(rows, rid);
  }

  lemma CleanedNames(name: string)
    ensures name in CLEANED <==>
            name in {"files", "directories", "symbols", "edges", "audit_findings", "test_results", "execution_tasks",
                     "file_tree", "disk_usage", "repo_sync_state", "index_stats", "index_query_cache", "embeddings",
                     "edge_hashes"}
  {
    assert CLEANED[0] == "files" && CLEANED[1] == "directories" && CLEANED[2] == "symbols" && CLEANED[3] == "edges" &&
           CLEANED[4] == "audit_findings" && CLEANED[5] == "test_results" && CLEANED[6] == "execution_tasks" &&
           CLEANED[7] == "file_tree" && CLEANED[8] == "disk_usage" && CLEANED[9] == "repo_sync_state" &&
           CLEANED[10] == "index_stats" && CLEANED[11] == "index_query_cache" && CLEANED[12] == "embeddings" &&
           CLEANED[13] == "edge_hashes";
  }

  /** Exactly the rows that belong to the repository go, from the list of repositories as from every other table;
      every other row is there as often as before. */
  lemma CleanTakesExactly(db: Db, rid: Value, name: string, row: Row)
    requires name in db && (row in db[name].rows ==> row.Keys == db[name].columns)
    ensures name in CleanDb(db, rid)
    ensures multiset(CleanDb(db, rid)[name].rows)[row] ==
            if BelongsTo(name, row, rid) then 0 else multiset(db[name].rows)[row]
  {
    CleanedNames(name);
    var rows := db[name].rows;
    WithoutIdCounts(rows, rid, row);
    OthersCounts(rows, rid, row);
    assert row in rows <==> multiset(rows)[row] > 0;
  }

  lemma {:induction false} WithoutIdConcat(a: seq<Row>, b: seq<Row>, rid: Value)
    ensures WithoutId(a + b, rid) == WithoutId(a, rid) + WithoutId(b, rid)
  {
    if a == [] {
      assert a + b == b;
    } else {
      WithoutIdConcat(a[1..], b, rid);
      HeadAndTail(a, b);
      Regroup([a[0]], WithoutId(a[1..], rid), WithoutId(b, rid));
    }
  }

  /** The rows that stay keep their order: cleaning two stretches of a table is cleaning the table. */
  lemma CleanKeepsOrder(t: Table, name: string, a: seq<Row>, b: seq<Row>, rid: Value)
    ensures CleanedTable(name, t.(rows := a + b), rid).rows ==
            CleanedTable(name, t.(rows := a), rid).rows + CleanedTable(name, t.(rows := b), rid).rows
  {
    WithoutIdConcat(a, b, rid);
    OthersConcat(a, b, rid);
  }

  /** The dump holds exactly the rows of files, directories, symbols and edges that belong to the repository. */
  lemma DumpHoldsExactly(db: Db, rid: Value, str: seq<bv8> -> string, name: string)
    requires name in db && "repository_id" in db[name].columns
    requires name in {"files", "directories", "symbols", "edges"}
    ensures exists k :: 0 <= k < |DumpTables(db, DUMPED, rid, str)| &&
              DumpTables(db, DUMPED, rid, str)[k] == TableDump(name, JsonRows(Mine(db[name].rows, rid), str))
    ensures forall row :: multiset(Mine(db[name].rows, rid))[row] ==
                          if BelongsTo(name, row, rid) then multiset(db[name].rows)[row] else 0
  {
    assert DUMPED[0] == "files" && DUMPED[1] == "directories" && DUMPED[2] == "symbols" && DUMPED[3] == "edges";
    DumpedThere(db, DUMPED, rid, str, name);
    forall row ensures multiset(Mine(db[name].rows, rid))[row] ==
                       if BelongsTo(name, row, rid) then multiset(db[name].rows)[row] else 0
    {
      OthersCounts(db[name].rows, rid, row);
    }
  }

  lemma {:induction false} DumpedThere(db: Db, names: seq<string>, rid: Value, str: seq<bv8> -> string, name: string)
    requires name in names && name in db && REPO_COLUMN in db[name].columns
    ensures exists k :: 0 <= k < |DumpTables(db, names, rid, str)| &&
              DumpTables(db, names, rid, str)[k] == TableDump(name, JsonRows(Mine(db[name].rows, rid), str))
  {
    var last := |names| - 1;
    var all := DumpTables(db, names, rid, str);
    if names[last] == name {
      assert all[|all| - 1] == TableDump(name, JsonRows(Mine(db[name].rows, rid), str));
    } else {
      DumpedThere(db, names[..last], rid, str, name);
      var before := DumpTables(db, names[..last], rid, str);
      var k :| 0 <= k < |before| && before[k] == TableDump(name, JsonRows(Mine(db[name].rows, rid), str));
      assert all[k] == before[k];
    }
  }

  /** A row that is not refused is stored last, with its own values, and NULL in the columns it does not name. */
  lemma InsertedAsGiven(t: Table, row: Row)
    ensures var after := InsertOrIgnore(t, row);
            after == t ||
            (|after.rows| == |t.rows| + 1 && t.rows <= after.rows &&
             after.rows[|t.rows|].Keys == t.columns &&
             forall c :: c in t.columns ==> after.rows[|t.rows|][c] == if c in row then row[c] else Null)
  {
  }

  // ---- what restore does to a table ----

  /** Restore only adds at the end: no stored row is altered, moved or removed. */
  lemma {:induction false} RestoreOnlyAdds(t: Table, rows: seq<Row>)
    ensures t.rows <= RestoreTable(t, rows).rows
    ensures RestoreTable(t, rows).keys == t.keys && RestoreTable(t, rows).columns == t.columns
  {
    if rows != [] {
      RestoreOnlyAdds(t, rows[..|rows| - 1]);
    }
  }

  lemma ConflictNeedsKey(keys: seq<set<string>>, a: Row, b: Row)
    requires Conflict(keys, a, b)
    ensures HasKey(keys, a) && HasKey(keys, b)
  {
    var k :| 0 <= k < |keys| && Agree(keys[k], a, b);
    assert forall c :: c in keys[k] ==> At(a, c) != Null && At(b, c) != Null;
  }

  lemma KeylessIsFree(keys: seq<set<string>>, rows: seq<Row>, row: Row)
    requires !HasKey(keys, row)
    ensures !Blocked(keys, rows, row)
  {
    forall i | 0 <= i < |rows| ensures !Conflict(keys, rows[i], row) {
      if Conflict(keys, rows[i], row) {
        ConflictNeedsKey(keys, rows[i], row);
      }
    }
  }

  /** Same values on all columns of the keys, same conflicts. */
  lemma ConflictOfCompleted(t: Table, row: Row, other: Row)
    requires row.Keys <= t.columns
    requires forall k :: 0 <= k < |t.keys| ==> t.keys[k] <= t.columns
    ensures var stored: Row := map c | c in t.columns :: At(row, c);
            Conflict(t.keys, stored, other) <==> Conflict(t.keys, row, other)
  {
    var stored: Row := map c | c in t.columns :: At(row, c);
    assert forall c :: At(stored, c) == At(row, c);
    assert forall k :: 0 <= k < |t.keys| ==> (Agree(t.keys[k], stored, other) <==> Agree(t.keys[k], row, other));
  }

  ghost predicate KeysInColumns(t: Table) {
    forall k :: 0 <= k < |t.keys| ==> t.keys[k] <= t.columns
  }

  /** After an insert that is not refused, the row conflicts with what is stored iff it has a complete key. */
  lemma InsertedBlocks(t: Table, row: Row)
    requires KeysInColumns(t) && row.Keys <= t.columns
    ensures Blocked(t.keys, InsertOrIgnore(t, row).rows, row) <==> HasKey(t.keys, row)
  {
    var after := InsertOrIgnore(t, row);
    if HasKey(t.keys, row) {
      if !Blocked(t.keys, t.rows, row) {
        var k :| 0 <= k < |t.keys| && forall c :: c in t.keys[k] ==> At(row, c) != Null;
        assert Agree(t.keys[k], row, row);
        ConflictOfCompleted(t, row, row);
        assert Conflict(t.keys, after.rows[|after.rows| - 1], row);
      }
    } else {
      KeylessIsFree(t.keys, after.rows, row);
    }
  }

  lemma BlockedStays(keys: seq<set<string>>, rows: seq<Row>, more: seq<Row>, row: Row)
    requires rows <= more && Blocked(keys, rows, row)
    ensures Blocked(keys, more, row)
  {
    var i :| 0 <= i < |rows| && Conflict(keys, rows[i], row);
    assert more[i] == rows[i];
  }

  /** A row is settled: inserting it again changes nothing. */
  ghost predicate Settled(t: Table, row: Row) {
    !(row.Keys <= t.columns) || HasKey(t.keys, row)
  }

  lemma {:induction false} RestoredRowBlocks(t: Table, rows: seq<Row>, k: nat)
    requires KeysInColumns(t) && k < |rows| && rows[k].Keys <= t.columns && HasKey(t.keys, rows[k])
    ensures Blocked(t.keys, RestoreTable(t, rows).rows, rows[k])
  {
    var last := |rows| - 1;
    var before := RestoreTable(t, rows[..last]);
    RestoreOnlyAdds(t, rows[..last]);
    if k == last {
      InsertedBlocks(before, rows[last]);
    } else {
      RestoredRowBlocks(t, rows[..last], k);
      BlockedStays(t.keys, before.rows, InsertOrIgnore(before, rows[last]).rows, rows[k]);
    }
  }

  lemma {:induction false} NothingToAdd(t: Table, rows: seq<Row>)
    requires forall k :: 0 <= k < |rows| && rows[k].Keys <= t.columns ==> Blocked(t.keys, t.rows, rows[k])
    ensures RestoreTable(t, rows) == t
  {
    if rows != [] {
      var last := |rows| - 1;
      assert forall k :: 0 <= k < last ==> rows[..last][k] == rows[k];
      NothingToAdd(t, rows[..last]);
    }
  }

  lemma {:induction false} KeylessRowGrows(t: Table, rows: seq<Row>, k: nat)
    requires k < |rows| && rows[k].Keys <= t.columns && !HasKey(t.keys, rows[k])
    ensures |RestoreTable(t, rows).rows| > |t.rows|
  {
    var last := |rows| - 1;
    var before := RestoreTable(t, rows[..last]);
    RestoreOnlyAdds(t, rows[..last]);
    if k < last {
      assert rows[..last][k] == rows[k];
      KeylessRowGrows(t, rows[..last], k);
    } else {
      KeylessIsFree(before.keys, before.rows, rows[k]);
    }
  }

  /** Restoring twice is restoring once, exactly when every row of the dump that fits the table has
      some key filled in; a row without one is added again each time. */
  lemma RestoreTwice(t: Table, rows: seq<Row>)
    requires KeysInColumns(t)
    ensures RestoreTable(RestoreTable(t, rows), rows) == RestoreTable(t, rows) <==>
            forall k :: 0 <= k < |rows| ==> Settled(t, rows[k])
  {
    var once := RestoreTable(t, rows);
    RestoreOnlyAdds(t, rows);
    if forall k :: 0 <= k < |rows| ==> Settled(t, rows[k]) {
      forall k | 0 <= k < |rows| && rows[k].Keys <= t.columns ensures Blocked(once.keys, once.rows, rows[k]) {
        assert Settled(t, rows[k]);
        RestoredRowBlocks(t, rows, k);
      }
      NothingToAdd(once, rows);
    } else {
      var k :| 0 <= k < |rows| && !Settled(t, rows[k]);
      KeylessRowGrows(once, rows, k);
    }
  }

  /** A row whose only key is NULL, in a table that holds nothing yet: each restore adds it again. */
  lemma KeylessRowComesTwice()
    ensures var row: Row := map["id" := Null, REPO_COLUMN := Text("r")];
            var t := Table({"id", REPO_COLUMN}, [{"id"}], []);
            ValidTable(t) && KeysInColumns(t) && RestoreTable(t, [row]).rows == [row] &&
            RestoreTable(RestoreTable(t, [row]), [row]).rows == [row, row]
  {
    var row: Row := map["id" := Null, REPO_COLUMN := Text("r")];
    var t := Table({"id", REPO_COLUMN}, [{"id"}], []);
    assert row.Keys == t.columns;
    assert !HasKey(t.keys, row) by { assert "id" in t.keys[0] && At(row, "id") == Null; }
    KeylessIsFree(t.keys, [], row);
    KeylessIsFree(t.keys, [row], row);
    assert (map c | c in t.columns :: At(row, c)) == row;
    RestoreOne(t, row);
    RestoreOne(t.(rows := [row]), row);
    assert [row] + [row] == [row, row] && [] + [row] == [row];
  }

  lemma RestoreOne(t: Table, row: Row)
    ensures RestoreTable(t, [row]) == InsertOrIgnore(t, row)
  {
    assert [row][..0] == [];
  }

  // ---- the round trip ----

  ghost predicate NoBlobs(rows: seq<Row>) {
    forall i, c :: 0 <= i < |rows| && c in rows[i] ==> !rows[i][c].Blob?
  }

  lemma {:induction false} JsonWithoutBlobs(rows: seq<Row>, str: seq<bv8> -> string)
    requires NoBlobs(rows)
    ensures JsonRows(rows, str) == rows
  {
    forall k | 0 <= k < |rows| ensures JsonRow(rows[k], str) == rows[k] {}
  }

  lemma {:induction false} SplitMembers(rows: seq<Row>, rid: Value)
    ensures forall r :: r in Others(rows, rid) <==> r in rows && !IsMine(r, rid)
    ensures forall r :: r in Mine(rows, rid) <==> r in rows && IsMine(r, rid)
  {
    if rows != [] {
      SplitMembers(rows[1..], rid);
      assert rows == [rows[0]] + rows[1..];
    }
  }

  /** The repository's rows and the others make up the table. */
  lemma {:induction false} SplitRows(rows: seq<Row>, rid: Value)
    ensures multiset(Others(rows, rid)) + multiset(Mine(rows, rid)) == multiset(rows)
  {
    if rows != [] {
      SplitRows(rows[1..], rid);
      MultisetHead(rows);
      if IsMine(rows[0], rid) {
        MultisetHead(Mine(rows, rid));
        assert Mine(rows, rid)[1..] == Mine(rows[1..], rid);
      } else {
        MultisetHead(Others(rows, rid));
        assert Others(rows, rid)[1..] == Others(rows[1..], rid);
      }
    }
  }

  lemma MultisetHead(rows: seq<Row>)
    requires rows != []
    ensures multiset(rows) == multiset{rows[0]} + multiset(rows[1..])
  {
    assert rows == [rows[0]] + rows[1..];
  }

  lemma ConflictSymmetric(keys: seq<set<string>>, a: Row, b: Row)
    requires Conflict(keys, a, b)
    ensures Conflict(keys, b, a)
  {
    var k :| 0 <= k < |keys| && Agree(keys[k], a, b);
    assert Agree(keys[k], b, a);
  }

  ghost predicate Apart(keys: seq<set<string>>, r: Row, rows: seq<Row>) {
    forall x :: x in rows ==> !Conflict(keys, r, x) && !Conflict(keys, x, r)
  }

  lemma ConsistentHead(keys: seq<set<string>>, rows: seq<Row>)
    requires Consistent(keys, rows) && rows != []
    ensures Consistent(keys, rows[1..]) && Apart(keys, rows[0], rows[1..])
  {
    forall x | x in rows[1..] ensures !Conflict(keys, rows[0], x) && !Conflict(keys, x, rows[0]) {
      var j :| 0 <= j < |rows[1..]| && rows[1..][j] == x;
      assert rows[j + 1] == x;
      if Conflict(keys, x, rows[0]) {
        ConflictSymmetric(keys, x, rows[0]);
      }
    }
  }

  lemma ConsistentInsert(keys: seq<set<string>>, a: seq<Row>, r: Row, b: seq<Row>)
    requires Consistent(keys, a + b) && Apart(keys, r, a) && Apart(keys, r, b)
    ensures Consistent(keys, a + ([r] + b))
  {
    var all := a + ([r] + b);
    forall i, j | 0 <= i < j < |all| ensures !Conflict(keys, all[i], all[j]) {
      var i', j' := if i <= |a| then i else i - 1, if j <= |a| then j else j - 1;
      if i != |a| && j != |a| {
        assert all[i] == (a + b)[i'] && all[j] == (a + b)[j'];
      } else if i == |a| {
        assert all[j] == b[j - |a| - 1];
      } else {
        assert all[i] == a[i];
      }
    }
  }

  lemma {:induction false} SplitConsistent(keys: seq<set<string>>, rows: seq<Row>, rid: Value)
    requires Consistent(keys, rows)
    ensures Consistent(keys, Others(rows, rid) + Mine(rows, rid))
  {
    if rows != [] {
      ConsistentHead(keys, rows);
      var rest := rows[1..];
      SplitConsistent(keys, rest, rid);
      SplitMembers(rest, rid);
      if IsMine(rows[0], rid) {
        ConsistentInsert(keys, Others(rest, rid), rows[0], Mine(rest, rid));
      } else {
        assert [] + (Others(rest, rid) + Mine(rest, rid)) == Others(rest, rid) + Mine(rest, rid);
        ConsistentInsert(keys, [], rows[0], Others(rest, rid) + Mine(rest, rid));
        assert [] + ([rows[0]] + (Others(rest, rid) + Mine(rest, rid))) == [rows[0]] + Others(rest, rid) + Mine(rest, rid);
      }
    }
  }

  /** Rows that agree with nothing are all added, unchanged. */
  lemma {:induction false} RestoreAddsAll(t: Table, rows: seq<Row>)
    requires Consistent(t.keys, t.rows + rows) && forall k :: 0 <= k < |rows| ==> rows[k].Keys == t.columns
    ensures RestoreTable(t, rows) == t.(rows := t.rows + rows)
  {
    if rows != [] {
      var last := |rows| - 1;
      assert t.rows + rows == (t.rows + rows[..last]) + [rows[last]];
      ConsistentPrefix(t.keys, t.rows + rows[..last], rows[last]);
      RestoreAddsAll(t, rows[..last]);
      var row := rows[last];
      assert (map c | c in t.columns :: At(row, c)) == row;
    } else {
      assert t.rows + rows == t.rows;
    }
  }

  lemma ConsistentPrefix(keys: seq<set<string>>, rows: seq<Row>, row: Row)
    requires Consistent(keys, rows + [row])
    ensures Consistent(keys, rows) && !Blocked(keys, rows, row)
  {
    var all := rows + [row];
    forall i | 0 <= i < |rows| ensures !Conflict(keys, rows[i], row) {
      assert all[i] == rows[i] && all[|rows|] == row;
    }
    forall i, j | 0 <= i < j < |rows| ensures !Conflict(keys, rows[i], rows[j]) {
      assert all[i] == rows[i] && all[j] == rows[j];
    }
  }

  lemma {:induction false} RestoredAreTextual(t: Table, rows: seq<Row>)
    requires NoBlobs(rows)
    ensures forall r :: r in RestoreTable(t, rows).rows ==> r in t.rows || NoBlobs([r])
  {
    if rows != [] {
      var last := |rows| - 1;
      assert forall k :: 0 <= k < last ==> rows[..last][k] == rows[k];
      RestoredAreTextual(t, rows[..last]);
    }
  }

  lemma BlobRowIsLost(t: Table, rid: Value, str: seq<bv8> -> string, row: Row, c: string)
    requires REPO_COLUMN in t.columns && row in Mine(t.rows, rid) && c in row && row[c].Blob?
    ensures row in t.rows && row !in RestoreTable(CleanTable(t, rid), JsonRows(Mine(t.rows, rid), str)).rows
  {
    SplitMembers(t.rows, rid);
    var dumped := JsonRows(Mine(t.rows, rid), str);
    assert NoBlobs(dumped);
    RestoredAreTextual(CleanTable(t, rid), dumped);
    assert [row][0] == row && !NoBlobs([row]);
  }

  /** One table through dump, clean-up and restore: the same rows, exactly when none of the
      repository's rows holds a blob. */
  lemma TableRoundTrip(t: Table, rid: Value, str: seq<bv8> -> string)
    requires ValidTable(t) && REPO_COLUMN in t.columns
    ensures multiset(RestoreTable(CleanTable(t, rid), JsonRows(Mine(t.rows, rid), str)).rows) == multiset(t.rows)
            <==> NoBlobs(Mine(t.rows, rid))
  {
    var mine := Mine(t.rows, rid);
    SplitMembers(t.rows, rid);
    if NoBlobs(mine) {
      SplitRows(t.rows, rid);
      JsonWithoutBlobs(mine, str);
      SplitConsistent(t.keys, t.rows, rid);
      forall k | 0 <= k < |mine| ensures mine[k].Keys == t.columns {
        assert mine[k] in t.rows;
      }
      RestoreAddsAll(CleanTable(t, rid), mine);
      assert multiset(Others(t.rows, rid) + mine) == multiset(Others(t.rows, rid)) + multiset(mine);
    } else {
      var i, c :| 0 <= i < |mine| && c in mine[i] && mine[i][c].Blob?;
      BlobRowIsLost(t, rid, str, mine[i], c);
      var after := RestoreTable(CleanTable(t, rid), JsonRows(mine, str)).rows;
      assert mine[i] in multiset(t.rows) && mine[i] !in multiset(after);
    }
  }

  lemma OneMineRow(row: Row, rid: Value, str: seq<bv8> -> string)
    requires IsMine(row, rid)
    ensures Mine([row], rid) == [row] && Others([row], rid) == [] && JsonRows([row], str) == [JsonRow(row, str)]
  {
    assert [row][1..] == [];
  }

  lemma OneRowTrip(t: Table, row: Row, rid: Value, str: seq<bv8> -> string)
    requires t.rows == [row] && row.Keys == t.columns && REPO_COLUMN in t.columns && IsMine(row, rid)
    ensures RestoreTable(CleanTable(t, rid), JsonRows(Mine(t.rows, rid), str)).rows == [JsonRow(row, str)]
  {
    var back := JsonRow(row, str);
    OneMineRow(row, rid, str);
    RestoreOne(CleanTable(t, rid), back);
    assert (map c | c in t.columns :: At(back, c)) == back;
    assert [] + [back] == [back];
  }

  /** A row with a blob comes back with the text of its Python form instead. */
  lemma BlobComesBackAsText(str: seq<bv8> -> string)
    ensures var row: Row := map[REPO_COLUMN := Text("r"), "body" := Blob([1])];
            var t := Table({REPO_COLUMN, "body"}, [], [row]);
            ValidTable(t) &&
            RestoreTable(CleanTable(t, Text("r")), JsonRows(Mine(t.rows, Text("r")), str)).rows ==
              [row["body" := Text(str([1]))]]
  {
    var row: Row := map[REPO_COLUMN := Text("r"), "body" := Blob([1])];
    var t := Table({REPO_COLUMN, "body"}, [], [row]);
    assert row.Keys == t.columns;
    OneRowTrip(t, row, Text("r"), str);
    assert JsonRow(row, str) == row["body" := Text(str([1]))];
  }

  // ---- the whole database ----

  ghost predicate Distinct(names: seq<string>) {
    forall i, j :: 0 <= i < j < |names| ==> names[i] != names[j]
  }

  predicate Dumpable(db: Db, name: string) {
    name in db && REPO_COLUMN in db[name].columns
  }

  /** Restoring a dump of db into a database with the same tables touches the dumped tables only. */
  lemma {:induction false} RestoreDumped(into: Db, db: Db, names: seq<string>, rid: Value, str: seq<bv8> -> string)
    requires Distinct(names) && into.Keys == db.Keys
    ensures var after := RestoreDb(into, DumpTables(db, names, rid, str));
            after.Keys == db.Keys &&
            forall name :: name in db ==>
              after[name] == if name in names && Dumpable(db, name)
                             then RestoreTable(into[name], JsonRows(Mine(db[name].rows, rid), str)) else into[name]
  {
    if names != [] {
      var last := |names| - 1;
      RestoreDumped(into, db, names[..last], rid, str);
      var before := DumpTables(db, names[..last], rid, str);
      assert names[last] !in names[..last];
      assert forall name :: name in names <==> name in names[..last] || name == names[last];
      if Dumpable(db, names[last]) {
        var all := DumpTables(db, names, rid, str);
        assert all[..|all| - 1] == before;
      }
    }
  }

  /** The whole trip through the three operations. */
  function Trip(db: Db, rid: Value, str: seq<bv8> -> string): Db {
    RestoreDb(CleanDb(db, rid), DumpTables(db, DUMPED, rid, str))
  }

  /** Dump, clean-up, restore is the identity on a dumped table's rows iff no blob is among the
      repository's rows there. */
  lemma RoundTrip(db: Db, rid: Value, str: seq<bv8> -> string, name: string)
    requires name in db && name in DUMPED && ValidTable(db[name])
    ensures name in Trip(db, rid, str)
    ensures multiset(Trip(db, rid, str)[name].rows) == multiset(db[name].rows) <==>
            (REPO_COLUMN in db[name].columns ==> NoBlobs(Mine(db[name].rows, rid)))
  {
    RestoreDumped(CleanDb(db, rid), db, DUMPED, rid, str);
    DumpedAreCleaned(name);
    if REPO_COLUMN in db[name].columns {
      TableRoundTrip(db[name], rid, str);
    }
  }

  lemma DumpedAreCleaned(name: string)
    requires name in DUMPED
    ensures name in CLEANED && name != "repositories"
  {
    assert DUMPED[0] == CLEANED[0] && DUMPED[1] == CLEANED[1] && DUMPED[2] == CLEANED[2] && DUMPED[3] == CLEANED[3];
  }

  /** Nothing brings back what the clean-up took from the other tables, the repository's own entry among them. */
  lemma OtherTablesStayCleaned(db: Db, rid: Value, str: seq<bv8> -> string, name: string)
    requires name in db && name !in DUMPED
    ensures name in Trip(db, rid, str) && Trip(db, rid, str)[name] == CleanedTable(name, db[name], rid)
  {
    RestoreDumped(CleanDb(db, rid), db, DUMPED, rid, str);
  }

  // ---- other repositories ----

  lemma {:induction false} OthersConcat(a: seq<Row>, b: seq<Row>, rid: Value)
    ensures Others(a + b, rid) == Others(a, rid) + Others(b, rid)
  {
    if a == [] {
      assert a + b == b;
    } else {
      OthersConcat(a[1..], b, rid);
      HeadAndTail(a, b);
      Regroup([a[0]], Others(a[1..], rid), Others(b, rid));
    }
  }

  lemma {:induction false} OthersTwice(rows: seq<Row>, rid: Value)
    ensures Others(Others(rows, rid), rid) == Others(rows, rid)
  {
    if rows != [] {
      OthersTwice(rows[1..], rid);
      if !IsMine(rows[0], rid) {
        assert ([rows[0]] + Others(rows[1..], rid))[1..] == Others(rows[1..], rid);
      }
    }
  }

  /** After any number of the dumped rows have been put back, the other repositories' rows are as before. */
  lemma {:induction false} RestoreLeavesOthers(t: Table, rows: seq<Row>, rid: Value)
    requires REPO_COLUMN in t.columns && forall k :: 0 <= k < |rows| ==> IsMine(rows[k], rid)
    ensures Others(RestoreTable(t, rows).rows, rid) == Others(t.rows, rid)
  {
    if rows != [] {
      var last := |rows| - 1;
      assert forall k :: 0 <= k < last ==> rows[..last][k] == rows[k];
      RestoreLeavesOthers(t, rows[..last], rid);
      RestoreOnlyAdds(t, rows[..last]);
      var before, row := RestoreTable(t, rows[..last]), rows[last];
      var stored: Row := map c | c in t.columns :: At(row, c);
      OthersConcat(before.rows, [stored], rid);
      assert IsMine(stored, rid) && Others([stored], rid) == [] by { assert [stored][1..] == []; }
    }
  }

  /** In the list of repositories the trip leaves every entry but the repository's own as it was. */
  lemma OtherEntriesStay(db: Db, rid: Value, str: seq<bv8> -> string, row: Row)
    requires "repositories" in db && (row in db["repositories"].rows ==> row.Keys == db["repositories"].columns)
    ensures "repositories" in Trip(db, rid, str)
    ensures multiset(Trip(db, rid, str)["repositories"].rows)[row] ==
            if rid != Null && "id" in row && row["id"] == rid then 0 else multiset(db["repositories"].rows)[row]
  {
    OtherTablesStayCleaned(db, rid, str, "repositories");
    CleanTakesExactly(db, rid, "repositories", row);
  }

  /** Throughout the trip, however far the restore has got, every other table keeps the other repositories' rows,
      in order. */
  lemma OthersUntouched(db: Db, rid: Value, str: seq<bv8> -> string, name: string, n: nat)
    requires name in db && REPO_COLUMN in db[name].columns && name != "repositories" && !rid.Blob?
    requires n <= |Mine(db[name].rows, rid)|
    ensures Others(CleanDb(db, rid)[name].rows, rid) == Others(db[name].rows, rid)
    ensures Others(RestoreTable(CleanDb(db, rid)[name], JsonRows(Mine(db[name].rows, rid), str)[..n]).rows, rid) ==
            Others(db[name].rows, rid)
  {
    var mine := Mine(db[name].rows, rid);
    var dumped := JsonRows(mine, str);
    OthersTwice(db[name].rows, rid);
    SplitMembers(db[name].rows, rid);
    forall k | 0 <= k < n ensures IsMine(dumped[..n][k], rid) {
      assert mine[k] in mine;
    }
    RestoreLeavesOthers(CleanDb(db, rid)[name], dumped[..n], rid);
  }
}
