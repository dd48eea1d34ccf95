/**
 * The relational store behind the `DB` wrapper of `src/Database/DBClass.py`,
 * as the scanner uses it: named tables with declared columns, rows with
 * AUTOINCREMENT ids, and the NOT NULL and foreign-key checks of the
 * connection (which turns foreign keys on). A failed check is the
 * exception sqlite raises; a missing table is the `None` that `insert`
 * returns after logging.
 */
module TableStore {
  import opened Wrappers
  import opened PyValues
  import opened FileSystem

  /** A stored value. A path is stored as its string form, represented here by the path itself. */
  datatype Cell = Null | Int(i: int) | Text(s: string) | PathText(p: Path) | Json(v: Value) | Day(d: Date) | Stamp(t: int)

  /** A column: its name, whether it is NOT NULL, and the table whose `id` it references. */
  datatype Column = Column(name: string, notNull: bool, references: Option<string>)

  datatype Row = Row(id: nat, cells: map<string, Cell>)

  /** A table: its columns, its rows in insertion order, and the id the next row will get. */
  datatype Table = Table(columns: seq<Column>, rows: seq<Row>, nextId: nat)

  type Tables = map<string, Table>

  /** What an insert gives: the new row id, `None` for a missing table, or the exception sqlite raises. */
  datatype InsertOutcome = Inserted(id: nat) | NoTable | Raised

  /** A freshly created table: no rows, ids start at 1. */
  function EmptyTable(columns: seq<Column>): Table {
    Table(columns, [], 1)
  }

  function ColumnNames(columns: seq<Column>): (r: seq<string>)
    ensures |r| == |columns| && forall i :: 0 <= i < |columns| ==> r[i] == columns[i].name
  {
    seq(|columns|, i requires 0 <= i < |columns| => columns[i].name)
  }

  /** Table `table` holds a row with this id. */
  predicate HasRow(ts: Tables, table: string, id: int) {
    table in ts && exists i :: 0 <= i < |ts[table].rows| && ts[table].rows[i].id == id
  }

  /** One column's checks: NOT NULL, and a non-null reference names an existing row. */
  predicate ColumnAccepts(ts: Tables, c: Column, cells: map<string, Cell>) {
    && (c.notNull ==> c.name in cells && !cells[c.name].Null?)
    && (c.references.Some? && c.name in cells && !cells[c.name].Null? ==>
          cells[c.name].Int? && HasRow(ts, c.references.value, cells[c.name].i))
  }

  /** sqlite accepts the row: every given column exists and every column's checks pass. */
  predicate Accepts(ts: Tables, t: Table, cells: map<string, Cell>) {
    && (forall k :: k in cells ==> k in ColumnNames(t.columns))
    && (forall i :: 0 <= i < |t.columns| ==> ColumnAccepts(ts, t.columns[i], cells))
  }

  /** `DB.insert(table_name, data)`: the outcome and the tables afterwards. */
  function InsertInto(ts: Tables, name: string, cells: map<string, Cell>): (r: (InsertOutcome, Tables))
    ensures r.0.NoTable? <==> name !in ts
    ensures r.0.Raised? <==> name in ts && !Accepts(ts, ts[name], cells)
    ensures !r.0.Inserted? ==> r.1 == ts
    ensures r.0.Inserted? ==>
      && r.0.id == ts[name].nextId
      && r.1 == ts[name := ts[name].(rows := ts[name].rows + [Row(r.0.id, cells)], nextId := r.0.id + 1)]
  {
    if name !in ts then (NoTable, ts)
    else
      var t := ts[name];
      if !Accepts(ts, t, cells) then (Raised, ts)
      else (Inserted(t.nextId), ts[name := Table(t.columns, t.rows + [Row(t.nextId, cells)], t.nextId + 1)])
  }

  // ---------------------------------------------------------------------------
  // Invariants of the store
  // ---------------------------------------------------------------------------

  /** Ids are at least 1, increase along the rows and stay below the next id. */
  predicate TableWellFormed(t: Table) {
    && t.nextId >= 1
    && (forall i :: 0 <= i < |t.rows| ==> 1 <= t.rows[i].id < t.nextId)
    && (forall i, j :: 0 <= i < j < |t.rows| ==> t.rows[i].id < t.rows[j].id)
  }

  predicate WellFormed(ts: Tables) {
    forall name :: name in ts ==> TableWellFormed(ts[name])
  }

  /** Every stored non-null reference names an existing row of the referenced table. */
  predicate RefClosed(ts: Tables) {
    forall name, i, c :: name in ts && 0 <= i < |ts[name].rows| && c in ts[name].columns ==>
      ColumnRefOk(ts, c, ts[name].rows[i].cells)
  }

  predicate ColumnRefOk(ts: Tables, c: Column, cells: map<string, Cell>) {
    c.references.Some? && c.name in cells && !cells[c.name].Null? ==>
      cells[c.name].Int? && HasRow(ts, c.references.value, cells[c.name].i)
  }

  /**
   * `ts'` extends `ts`: the same tables with the same columns, each
   * keeping its rows as a prefix.
   */
  predicate Grows(ts: Tables, ts': Tables) {
    && ts'.Keys == ts.Keys
    && forall name :: name in ts ==>
         ts'[name].columns == ts[name].columns && ts[name].rows <= ts'[name].rows
  }

  lemma GrowsRefl(ts: Tables)
    ensures Grows(ts, ts)
  {
  }

  lemma GrowsTrans(a: Tables, b: Tables, c: Tables)
    requires Grows(a, b) && Grows(b, c)
    ensures Grows(a, c)
  {
    forall name | name in a ensures a[name].rows <= c[name].rows {
      assert a[name].rows == b[name].rows[..|a[name].rows|];
    }
  }

  /** A row that exists keeps existing as the tables grow. */
  lemma GrowsHasRow(ts: Tables, ts': Tables, table: string, id: int)
    requires Grows(ts, ts') && HasRow(ts, table, id)
    ensures HasRow(ts', table, id)
  {
    var i :| 0 <= i < |ts[table].rows| && ts[table].rows[i].id == id;
    assert ts'[table].rows[i] == ts[table].rows[i];
  }

  /** An insert only appends, and only to its own table. */
  lemma InsertGrows(ts: Tables, name: string, cells: map<string, Cell>)
    ensures Grows(ts, InsertInto(ts, name, cells).1)
    ensures forall n :: n in ts && n != name ==> InsertInto(ts, name, cells).1[n] == ts[n]
  {
  }

  /**
   * An inserted row gets a fresh, truthy id: at least 1 and different
   * from every id already in its table.
   */
  lemma InsertFreshId(ts: Tables, name: string, cells: map<string, Cell>)
    requires WellFormed(ts) && InsertInto(ts, name, cells).0.Inserted?
    ensures InsertInto(ts, name, cells).0.id >= 1
    ensures forall i :: 0 <= i < |ts[name].rows| ==> ts[name].rows[i].id != InsertInto(ts, name, cells).0.id
    ensures HasRow(InsertInto(ts, name, cells).1, name, InsertInto(ts, name, cells).0.id)
  {
    var r := InsertInto(ts, name, cells);
    assert r.1[name].rows[|ts[name].rows|].id == r.0.id;
  }

  /** Inserts keep ids well formed. */
  lemma InsertWellFormed(ts: Tables, name: string, cells: map<string, Cell>)
    requires WellFormed(ts)
    ensures WellFormed(InsertInto(ts, name, cells).1)
  {
    var r := InsertInto(ts, name, cells);
    if r.0.Inserted? {
      var t := r.1[name];
      assert TableWellFormed(ts[name]);
      assert TableWellFormed(t) by {
        forall i, j | 0 <= i < j < |t.rows| ensures t.rows[i].id < t.rows[j].id {
          if j < |ts[name].rows| {
            assert t.rows[i] == ts[name].rows[i] && t.rows[j] == ts[name].rows[j];
          } else {
            assert t.rows[i] == ts[name].rows[i];
          }
        }
      }
      forall n | n in r.1 ensures TableWellFormed(r.1[n]) {
        if n != name {
          assert r.1[n] == ts[n];
        }
      }
    }
  }

  /** The foreign-key check keeps every stored reference resolvable. */
  lemma InsertRefClosed(ts: Tables, name: string, cells: map<string, Cell>)
    requires RefClosed(ts)
    ensures RefClosed(InsertInto(ts, name, cells).1)
  {
    var r := InsertInto(ts, name, cells);
    if r.0.Inserted? {
      var ts' := r.1;
      forall n, i, c | n in ts' && 0 <= i < |ts'[n].rows| && c in ts'[n].columns
        ensures ColumnRefOk(ts', c, ts'[n].rows[i].cells)
      {
        var row := ts'[n].rows[i];
        if c.references.Some? && c.name in row.cells && !row.cells[c.name].Null? {
          if n == name && i == |ts[name].rows| {
            var j :| 0 <= j < |ts[name].columns| && ts[name].columns[j] == c;
            assert ColumnAccepts(ts, ts[name].columns[j], cells);
          } else {
            assert row == ts[n].rows[i];
            assert ColumnRefOk(ts, c, row.cells);
          }
          GrowsHasRow(ts, ts', c.references.value, row.cells[c.name].i);
        }
      }
    }
  }

  // ---------------------------------------------------------------------------
  // The connection
  // ---------------------------------------------------------------------------

  /** The `DB` wrapper: the tables of its sqlite connection. */
  class Database {
    var tables: Tables

    /** A connection to a new, empty database file. */
    constructor ()
      ensures tables == map[]
    {
      tables := map[];
    }

    /** `check_table_existance` */
    function TableExists(name: string): (b: bool)
      reads this
      ensures b <==> name in tables
    {
      name in tables
    }

    /** `create_table`: a table that already exists is left as it is (with a warning). */
    method CreateTable(name: string, columns: seq<Column>)
      modifies this
      ensures name in old(tables) ==> tables == old(tables)
      ensures name !in old(tables) ==> tables == old(tables)[name := EmptyTable(columns)]
    {
      if TableExists(name) {
        return;
      }
      tables := tables[name := EmptyTable(columns)];
    }

    /** `DROP TABLE IF EXISTS name` */
    method DropTableIfExists(name: string)
      modifies this
      ensures tables == old(tables) - {name}
    {
      tables := tables - {name};
    }

    /** `insert(table_name, data)`, committing the row at once. */
    method Insert(name: string, cells: map<string, Cell>) returns (r: InsertOutcome)
      modifies this
      ensures (r, tables) == InsertInto(old(tables), name, cells)
    {
      if !TableExists(name) {
        return NoTable;
      }
      var t := tables[name];
      if !Accepts(tables, t, cells) {
        return Raised;
      }
      r := Inserted(t.nextId);
      tables := tables[name := Table(t.columns, t.rows + [Row(t.nextId, cells)], t.nextId + 1)];
    }
  }
}
