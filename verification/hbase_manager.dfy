/**
 * HbaseManager: reading one cell and clearing a table, against an abstract
 * HBase store. The store is a map from qualified table names to tables; each
 * table is enabled or disabled, declares its column families, and holds, for
 * every cell, its versions newest first. Every call the manager makes on the connection, its admin interface
 * or a table handle is appended to a trace, so the order of the calls and the
 * closing of the connection can be stated.
 */
module HbaseManager {
  import opened Wrappers
  import opened Bytes

  /** One stored version of a cell. */
  datatype Version = Version(timestamp: int, value: seq<byte>)

  /** The cell a Get names: row key, column family and column qualifier. */
  datatype Coordinate = Coordinate(row: seq<byte>, family: seq<byte>, column: seq<byte>)

  /** A table: its enabled flag, its column families and, for each cell, its versions newest first. */
  datatype Table = Table(enabled: bool, families: set<seq<byte>>, cells: map<Coordinate, seq<Version>>)

  /** The exceptions the admin interface and a table handle raise. */
  datatype StoreError =
    | TableNotFound(name: string)
    | TableNotEnabled(name: string)
    | TableNotDisabled(name: string)
    | NoSuchColumnFamily(name: string, family: seq<byte>)

  /** The calls the manager makes, in the order it makes them. */
  datatype StoreCall =
    | Connect
    | TableExists(name: string)
    | GetTable(name: string)
    | Get(name: string, at: Coordinate, pinned: Option<int>)
    | CloseTable(name: string)
    | DisableTable(name: string)
    | DeleteTable(name: string)
    | TruncateTable(name: string, preserveSplits: bool)
    | Close

  /** Versions are kept with strictly decreasing timestamps, as HBase returns them. */
  predicate NewestFirst(vs: seq<Version>)
  {
    forall i, j :: 0 <= i < j < |vs| ==> vs[i].timestamp > vs[j].timestamp
  }

  /**
   * A store in which every cell of every table belongs to one of the table's
   * column families and keeps its versions newest first.
   */
  predicate WellKept(tables: map<string, Table>)
  {
    forall name, at :: name in tables && at in tables[name].cells ==>
      at.family in tables[name].families && NewestFirst(tables[name].cells[at])
  }

  /** The first version written at exactly `ts`. */
  function FindVersion(vs: seq<Version>, ts: int): (r: Option<seq<byte>>)
    ensures r.None? <==> forall i :: 0 <= i < |vs| ==> vs[i].timestamp != ts
    ensures r.Some? ==> exists i :: 0 <= i < |vs| && vs[i] == Version(ts, r.value)
  {
    if vs == [] then None
    else if vs[0].timestamp == ts then Some(vs[0].value)
    else
      var r := FindVersion(vs[1..], ts);
      assert forall i :: 1 <= i < |vs| ==> vs[i] == vs[1..][i - 1];
      r
  }

  /** Get.setTimeStamp pins the read to one timestamp; only a positive timestamp is passed on. */
  function Pin(timestamp: int): (r: Option<int>)
    ensures r.Some? <==> timestamp > 0
    ensures r.Some? ==> r.value == timestamp
  {
    if timestamp > 0 then Some(timestamp) else None
  }

  /** The value a Get reads from a cell's versions: the pinned version if asked for, otherwise the newest. */
  function ReadVersion(vs: seq<Version>, pinned: Option<int>): (r: Option<seq<byte>>)
    ensures pinned.None? ==> (r.Some? <==> vs != [])
    ensures pinned.None? && r.Some? ==> r.value == vs[0].value
    ensures pinned.Some? ==> (r.Some? <==> exists i :: 0 <= i < |vs| && vs[i].timestamp == pinned.value)
    ensures pinned.Some? && r.Some? ==> exists i :: 0 <= i < |vs| && vs[i] == Version(pinned.value, r.value)
  {
    match pinned
    case None => if vs == [] then None else Some(vs[0].value)
    case Some(ts) => FindVersion(vs, ts)
  }

  /** A pinned read returns the value stored at that timestamp, whichever position it holds. */
  lemma {:induction false} PinnedReadFindsVersion(vs: seq<Version>, i: nat)
    requires NewestFirst(vs)
    requires i < |vs|
    ensures ReadVersion(vs, Some(vs[i].timestamp)) == Some(vs[i].value)
  {
    if i > 0 {
      assert vs[0].timestamp > vs[i].timestamp;
      assert NewestFirst(vs[1..]) by {
        forall a, b | 0 <= a < b < |vs[1..]| ensures vs[1..][a].timestamp > vs[1..][b].timestamp {
          assert vs[1..][a] == vs[a + 1] && vs[1..][b] == vs[b + 1];
        }
      }
      assert vs[1..][i - 1] == vs[i];
      PinnedReadFindsVersion(vs[1..], i - 1);
    }
  }

  /** An unpinned read returns the version with the greatest timestamp. */
  lemma UnpinnedReadIsNewest(vs: seq<Version>)
    requires NewestFirst(vs)
    requires vs != []
    ensures ReadVersion(vs, None) == Some(vs[0].value)
    ensures forall j :: 0 <= j < |vs| ==> vs[j].timestamp <= vs[0].timestamp
  {
  }

  /** The value of a cell in a table, or nothing when the cell holds no matching version. */
  function ReadCell(t: Table, at: Coordinate, pinned: Option<int>): (r: Option<seq<byte>>)
    ensures at !in t.cells ==> r.None?
    ensures at in t.cells ==> r == ReadVersion(t.cells[at], pinned)
  {
    if at in t.cells then ReadVersion(t.cells[at], pinned) else None
  }

  /** What getDataFromHbase returns, or the exception it raises. */
  function GetOutcome(tables: map<string, Table>, tableName: string, formattedKey: seq<byte>,
                      family: seq<byte>, column: seq<byte>, timestamp: int): Result<Option<seq<byte>>, StoreError>
  {
    if tableName !in tables then Ok(None)
    else if !tables[tableName].enabled then Err(TableNotEnabled(tableName))
    else if family !in tables[tableName].families then Err(NoSuchColumnFamily(tableName, family))
    else Ok(ReadCell(tables[tableName], Coordinate(formattedKey, family, column), Pin(timestamp)))
  }

  /**
   * In a well-kept store, getDataFromHbase pinned to the positive timestamp
   * of a stored version of an enabled table's cell returns that version's value.
   */
  lemma GetFindsStoredVersion(tables: map<string, Table>, tableName: string, at: Coordinate, i: nat)
    requires WellKept(tables)
    requires tableName in tables && tables[tableName].enabled
    requires at in tables[tableName].cells && i < |tables[tableName].cells[at]|
    requires tables[tableName].cells[at][i].timestamp > 0
    ensures GetOutcome(tables, tableName, at.row, at.family, at.column, tables[tableName].cells[at][i].timestamp)
         == Ok(Some(tables[tableName].cells[at][i].value))
  {
    var vs := tables[tableName].cells[at];
    PinnedReadFindsVersion(vs, i);
    assert Coordinate(at.row, at.family, at.column) == at;
  }

  /**
   * A value getDataFromHbase returns was stored: the table exists, is enabled
   * and declares the family, and the cell holds a version with that value.
   */
  lemma ReadValueWasStored(tables: map<string, Table>, tableName: string, formattedKey: seq<byte>,
                           family: seq<byte>, column: seq<byte>, timestamp: int)
    requires GetOutcome(tables, tableName, formattedKey, family, column, timestamp).Ok?
    requires GetOutcome(tables, tableName, formattedKey, family, column, timestamp).value.Some?
    ensures tableName in tables && tables[tableName].enabled && family in tables[tableName].families
    ensures var at := Coordinate(formattedKey, family, column);
      && at in tables[tableName].cells
      && exists i :: 0 <= i < |tables[tableName].cells[at]|
           && tables[tableName].cells[at][i].value == GetOutcome(tables, tableName, formattedKey, family, column, timestamp).value.value
  {
  }

  /** The calls getDataFromHbase makes. */
  function GetCalls(tables: map<string, Table>, tableName: string, formattedKey: seq<byte>,
                    family: seq<byte>, column: seq<byte>, timestamp: int): seq<StoreCall>
  {
    if tableName !in tables then [Connect, TableExists(tableName), Close]
    else
      [Connect, TableExists(tableName), GetTable(tableName),
       Get(tableName, Coordinate(formattedKey, family, column), Pin(timestamp)),
       CloseTable(tableName), Close]
  }

  /** What deleteMessagesFromTopic returns, or the exception it raises. */
  function DeleteOutcome(tables: map<string, Table>, tableName: string, dataQualifier: seq<byte>): Result<seq<byte>, StoreError>
  {
    if tableName in tables && !tables[tableName].enabled then Err(TableNotEnabled(tableName))
    else Ok(dataQualifier)
  }

  /** The tables after deleteMessagesFromTopic: the named table dropped, or emptied and enabled again. */
  function DeleteState(tables: map<string, Table>, tableName: string, deleteEntireTable: bool): (r: map<string, Table>)
    ensures forall n :: n != tableName ==> (n in r <==> n in tables)
    ensures forall n :: n != tableName && n in r ==> r[n] == tables[n]
    ensures tableName !in tables || !tables[tableName].enabled ==> r == tables
    ensures tableName in tables && tables[tableName].enabled && deleteEntireTable ==> tableName !in r
    ensures tableName in tables && tables[tableName].enabled && !deleteEntireTable ==>
      tableName in r && r[tableName] == Table(true, tables[tableName].families, map[])
  {
    if tableName !in tables || !tables[tableName].enabled then tables
    else if deleteEntireTable then tables - {tableName}
    else tables[tableName := Table(true, tables[tableName].families, map[])]
  }

  /** Dropping or emptying a table keeps every other cell's versions as they were, so they stay newest first. */
  lemma DeleteStateWellKept(tables: map<string, Table>, tableName: string, deleteEntireTable: bool)
    requires WellKept(tables)
    ensures WellKept(DeleteState(tables, tableName, deleteEntireTable))
  {
    if tableName in tables && tables[tableName].enabled && !deleteEntireTable {
      var after := tables[tableName := Table(true, tables[tableName].families, map[])];
      forall name, at | name in after && at in after[name].cells
        ensures at.family in after[name].families && NewestFirst(after[name].cells[at])
      {
        assert name != tableName;
      }
    }
  }

  /** Disabling and then dropping a table leaves what dropping it alone leaves. */
  lemma DropAfterDisable(tables: map<string, Table>, tableName: string, disabled: Table)
    ensures tables[tableName := disabled] - {tableName} == tables - {tableName}
  {
  }

  /** Disabling and then emptying a table leaves what emptying it alone leaves. */
  lemma EmptyAfterDisable(tables: map<string, Table>, tableName: string, disabled: Table, emptied: Table)
    ensures tables[tableName := disabled][tableName := emptied] == tables[tableName := emptied]
  {
  }

  /** The calls deleteMessagesFromTopic makes. */
  function DeleteCalls(tables: map<string, Table>, tableName: string, deleteEntireTable: bool): seq<StoreCall>
  {
    if tableName !in tables then [Connect, TableExists(tableName), Close]
    else if !tables[tableName].enabled then [Connect, TableExists(tableName), DisableTable(tableName), Close]
    else
      [Connect, TableExists(tableName), DisableTable(tableName),
       if deleteEntireTable then DeleteTable(tableName) else TruncateTable(tableName, false), Close]
  }

  /** The number of times a call occurs in a trace. */
  function Occurrences(calls: seq<StoreCall>, c: StoreCall): (n: nat)
    ensures n <= |calls|
    ensures n == 0 <==> c !in calls
  {
    if calls == [] then 0
    else (if calls[0] == c then 1 else 0) + Occurrences(calls[1..], c)
  }

  /** A trace that opens the connection first and closes it once, as its last call. */
  predicate ClosedOnce(calls: seq<StoreCall>)
  {
    |calls| >= 2 && calls[0] == Connect && calls[|calls| - 1] == Close
    && Occurrences(calls, Connect) == 1 && Occurrences(calls, Close) == 1
  }

  /** Does a call change a table? */
  predicate Mutates(c: StoreCall)
  {
    c.DisableTable? || c.DeleteTable? || c.TruncateTable?
  }

  /** Does a call open or use a table handle? */
  predicate UsesTableHandle(c: StoreCall)
  {
    c.GetTable? || c.Get? || c.CloseTable?
  }

  lemma OccurrencesOfThree(a: StoreCall, b: StoreCall, d: StoreCall, c: StoreCall)
    ensures Occurrences([a, b, d], c) == (if a == c then 1 else 0) + (if b == c then 1 else 0) + (if d == c then 1 else 0)
  {
    assert [a, b, d][1..] == [b, d];
    assert [b, d][1..] == [d];
    assert [d][1..] == [];
  }

  lemma OccurrencesAppend(xs: seq<StoreCall>, ys: seq<StoreCall>, c: StoreCall)
    ensures Occurrences(xs + ys, c) == Occurrences(xs, c) + Occurrences(ys, c)
  {
    if xs == [] {
      assert xs + ys == ys;
    } else {
      assert (xs + ys)[1..] == xs[1..] + ys;
      OccurrencesAppend(xs[1..], ys, c);
    }
  }

  /** getDataFromHbase opens one connection and closes it exactly once, on both of its returns. */
  lemma GetClosesConnection(tables: map<string, Table>, tableName: string, formattedKey: seq<byte>,
                            family: seq<byte>, column: seq<byte>, timestamp: int)
    ensures ClosedOnce(GetCalls(tables, tableName, formattedKey, family, column, timestamp))
  {
    var calls := GetCalls(tables, tableName, formattedKey, family, column, timestamp);
    var at := Coordinate(formattedKey, family, column);
    if tableName in tables {
      assert calls == [Connect, TableExists(tableName), GetTable(tableName)]
        + [Get(tableName, at, Pin(timestamp)), CloseTable(tableName), Close];
      OccurrencesOfThree(Connect, TableExists(tableName), GetTable(tableName), Connect);
      OccurrencesOfThree(Get(tableName, at, Pin(timestamp)), CloseTable(tableName), Close, Connect);
      OccurrencesOfThree(Connect, TableExists(tableName), GetTable(tableName), Close);
      OccurrencesOfThree(Get(tableName, at, Pin(timestamp)), CloseTable(tableName), Close, Close);
      OccurrencesAppend([Connect, TableExists(tableName), GetTable(tableName)],
                        [Get(tableName, at, Pin(timestamp)), CloseTable(tableName), Close], Connect);
      OccurrencesAppend([Connect, TableExists(tableName), GetTable(tableName)],
                        [Get(tableName, at, Pin(timestamp)), CloseTable(tableName), Close], Close);
    } else {
      OccurrencesOfThree(Connect, TableExists(tableName), Close, Connect);
      OccurrencesOfThree(Connect, TableExists(tableName), Close, Close);
    }
  }

  /** deleteMessagesFromTopic opens one connection and closes it exactly once, whether it returns or raises. */
  lemma DeleteClosesConnection(tables: map<string, Table>, tableName: string, deleteEntireTable: bool)
    ensures ClosedOnce(DeleteCalls(tables, tableName, deleteEntireTable))
  {
    if tableName !in tables {
      OccurrencesOfThree(Connect, TableExists(tableName), Close, Connect);
      OccurrencesOfThree(Connect, TableExists(tableName), Close, Close);
    } else if !tables[tableName].enabled {
      DisableThenClose(tableName, []);
      assert [Connect, TableExists(tableName), DisableTable(tableName)] + [] + [Close]
          == [Connect, TableExists(tableName), DisableTable(tableName), Close];
    } else {
      var m := if deleteEntireTable then DeleteTable(tableName) else TruncateTable(tableName, false);
      DisableThenClose(tableName, [m]);
      assert [Connect, TableExists(tableName), DisableTable(tableName)] + [m] + [Close]
          == [Connect, TableExists(tableName), DisableTable(tableName), m, Close];
    }
  }

  /** After the disable, at most one more admin call and then the close. */
  lemma DisableThenClose(tableName: string, admin: seq<StoreCall>)
    requires admin == [] || (|admin| == 1 && (admin[0].DeleteTable? || admin[0].TruncateTable?))
    ensures ClosedOnce([Connect, TableExists(tableName), DisableTable(tableName)] + admin + [Close])
  {
    var head := [Connect, TableExists(tableName), DisableTable(tableName)];
    var tail := admin + [Close];
    assert head + admin + [Close] == head + tail;
    OccurrencesOfThree(Connect, TableExists(tableName), DisableTable(tableName), Connect);
    OccurrencesOfThree(Connect, TableExists(tableName), DisableTable(tableName), Close);
    OccurrencesAppend(head, tail, Connect);
    OccurrencesAppend(head, tail, Close);
    if admin != [] {
      assert tail == [admin[0], Close] && tail[1..] == [Close];
    }
  }

  /** Neither delete mode opens a table handle or reads a cell. */
  lemma DeleteUsesNoTableHandle(tables: map<string, Table>, tableName: string, deleteEntireTable: bool)
    ensures forall c :: c in DeleteCalls(tables, tableName, deleteEntireTable) ==> !UsesTableHandle(c)
  {
  }

  /** A missing table gets no admin mutation and no table handle, from either operation, and nothing changes. */
  lemma AbsentTableUntouched(tables: map<string, Table>, tableName: string, deleteEntireTable: bool,
                             formattedKey: seq<byte>, family: seq<byte>, column: seq<byte>, timestamp: int)
    requires tableName !in tables
    ensures forall c :: c in DeleteCalls(tables, tableName, deleteEntireTable) ==> !Mutates(c) && !UsesTableHandle(c)
    ensures forall c :: c in GetCalls(tables, tableName, formattedKey, family, column, timestamp) ==> !Mutates(c) && !UsesTableHandle(c)
    ensures DeleteState(tables, tableName, deleteEntireTable) == tables
  {
  }

  /** Deleting the entire table disables it and then deletes it, never truncating. */
  lemma EntireTableDeleted(tables: map<string, Table>, tableName: string)
    requires tableName in tables && tables[tableName].enabled
    ensures DeleteCalls(tables, tableName, true)[2..4] == [DisableTable(tableName), DeleteTable(tableName)]
    ensures forall p :: TruncateTable(tableName, p) !in DeleteCalls(tables, tableName, true)
    ensures tableName !in DeleteState(tables, tableName, true)
  {
  }

  /** Clearing disables the table and then truncates it without keeping its splits, never deleting it. */
  lemma TableTruncated(tables: map<string, Table>, tableName: string)
    requires tableName in tables && tables[tableName].enabled
    ensures DeleteCalls(tables, tableName, false)[2..4] == [DisableTable(tableName), TruncateTable(tableName, false)]
    ensures DeleteTable(tableName) !in DeleteCalls(tables, tableName, false)
    ensures tableName in DeleteState(tables, tableName, false)
  {
  }

  /**
   * After a successful delete, in either mode, a read of the table finds no
   * value. The one exception it can raise is for a family the truncated table
   * never had: truncation keeps the table's families.
   */
  lemma NothingReadAfterDelete(tables: map<string, Table>, tableName: string, deleteEntireTable: bool,
                               dataQualifier: seq<byte>, formattedKey: seq<byte>, family: seq<byte>,
                               column: seq<byte>, timestamp: int)
    requires DeleteOutcome(tables, tableName, dataQualifier).Ok?
    ensures GetOutcome(DeleteState(tables, tableName, deleteEntireTable), tableName, formattedKey, family, column, timestamp)
         == if !deleteEntireTable && tableName in tables && family !in tables[tableName].families
            then Err(NoSuchColumnFamily(tableName, family)) else Ok(None)
  {
  }

  /** Repeating a delete changes nothing more. */
  lemma DeleteIdempotent(tables: map<string, Table>, tableName: string, deleteEntireTable: bool)
    ensures DeleteState(DeleteState(tables, tableName, deleteEntireTable), tableName, deleteEntireTable)
         == DeleteState(tables, tableName, deleteEntireTable)
  {
  }

  /**
   * The manager over its store. The admin interface and the table handles are
   * the store's own methods below; getDataFromHbase and
   * deleteMessagesFromTopic use them only through a connection they open and
   * close themselves.
   */
  class HbaseManager {
    var tables: map<string, Table>
    var connectionOpen: bool
    var trace: seq<StoreCall>

    /** The store invariant: every cell's versions are newest first. */
    predicate Valid()
      reads this
    {
      WellKept(tables)
    }

    constructor (tables: map<string, Table>)
      requires WellKept(tables)
      ensures Valid()
      ensures this.tables == tables && !connectionOpen && trace == []
    {
      this.tables := tables;
      connectionOpen := false;
      trace := [];
    }

    /** hbaseConnection(): a new connection to the cluster. */
    method OpenConnection()
      modifies this
      ensures connectionOpen && tables == old(tables) && trace == old(trace) + [Connect]
    {
      connectionOpen := true;
      trace := trace + [Connect];
    }

    /** The end of the `use` block: the connection is closed, whatever happened inside it. */
    method CloseConnection()
      modifies this
      ensures !connectionOpen && tables == old(tables) && trace == old(trace) + [Close]
    {
      connectionOpen := false;
      trace := trace + [Close];
    }

    /** Admin.tableExists: disabled tables exist too. */
    method TableExistsCall(name: string) returns (found: bool)
      requires connectionOpen
      modifies this`trace
      ensures found <==> name in tables
      ensures trace == old(trace) + [TableExists(name)]
    {
      found := name in tables;
      trace := trace + [TableExists(name)];
    }

    /** Connection.getTable: a handle on the table, closed again by CloseTableCall. */
    method GetTableCall(name: string)
      requires connectionOpen
      modifies this`trace
      ensures trace == old(trace) + [GetTable(name)]
    {
      trace := trace + [GetTable(name)];
    }

    /**
     * Table.get followed by Result.getValue: the cell's value, or nothing. A
     * family the table does not declare raises NoSuchColumnFamilyException.
     */
    method GetCall(name: string, at: Coordinate, pinned: Option<int>) returns (r: Result<Option<seq<byte>>, StoreError>)
      requires connectionOpen
      modifies this`trace
      ensures name !in tables ==> r == Err(TableNotFound(name))
      ensures name in tables && !tables[name].enabled ==> r == Err(TableNotEnabled(name))
      ensures name in tables && tables[name].enabled && at.family !in tables[name].families ==>
        r == Err(NoSuchColumnFamily(name, at.family))
      ensures name in tables && tables[name].enabled && at.family in tables[name].families ==>
        r == Ok(ReadCell(tables[name], at, pinned))
      ensures trace == old(trace) + [Get(name, at, pinned)]
    {
      if name !in tables {
        r := Err(TableNotFound(name));
      } else if !tables[name].enabled {
        r := Err(TableNotEnabled(name));
      } else if at.family !in tables[name].families {
        r := Err(NoSuchColumnFamily(name, at.family));
      } else {
        r := Ok(ReadCell(tables[name], at, pinned));
      }
      trace := trace + [Get(name, at, pinned)];
    }

    /** The end of the table's `use` block. */
    method CloseTableCall(name: string)
      requires connectionOpen
      modifies this`trace
      ensures trace == old(trace) + [CloseTable(name)]
    {
      trace := trace + [CloseTable(name)];
    }

    /** Admin.disableTable: only an enabled table can be disabled. */
    method DisableTableCall(name: string) returns (failure: Option<StoreError>)
      requires connectionOpen
      modifies this`tables, this`trace
      ensures name !in old(tables) ==> failure == Some(TableNotFound(name)) && tables == old(tables)
      ensures name in old(tables) && !old(tables)[name].enabled ==> failure == Some(TableNotEnabled(name)) && tables == old(tables)
      ensures name in old(tables) && old(tables)[name].enabled ==>
        failure.None? && tables == old(tables)[name := old(tables)[name].(enabled := false)]
      ensures trace == old(trace) + [DisableTable(name)]
    {
      if name !in tables {
        failure := Some(TableNotFound(name));
      } else if !tables[name].enabled {
        failure := Some(TableNotEnabled(name));
      } else {
        failure := None;
        tables := tables[name := tables[name].(enabled := false)];
      }
      trace := trace + [DisableTable(name)];
    }

    /** Admin.deleteTable: only a disabled table can be deleted. */
    method DeleteTableCall(name: string) returns (failure: Option<StoreError>)
      requires connectionOpen
      modifies this`tables, this`trace
      ensures name !in old(tables) ==> failure == Some(TableNotFound(name)) && tables == old(tables)
      ensures name in old(tables) && old(tables)[name].enabled ==> failure == Some(TableNotDisabled(name)) && tables == old(tables)
      ensures name in old(tables) && !old(tables)[name].enabled ==> failure.None? && tables == old(tables) - {name}
      ensures trace == old(trace) + [DeleteTable(name)]
    {
      if name !in tables {
        failure := Some(TableNotFound(name));
      } else if tables[name].enabled {
        failure := Some(TableNotDisabled(name));
      } else {
        failure := None;
        tables := tables - {name};
      }
      trace := trace + [DeleteTable(name)];
    }

    /** Admin.truncateTable: a disabled table loses all its cells and comes back enabled. */
    method TruncateTableCall(name: string, preserveSplits: bool) returns (failure: Option<StoreError>)
      requires connectionOpen
      modifies this`tables, this`trace
      ensures name !in old(tables) ==> failure == Some(TableNotFound(name)) && tables == old(tables)
      ensures name in old(tables) && old(tables)[name].enabled ==> failure == Some(TableNotDisabled(name)) && tables == old(tables)
      ensures name in old(tables) && !old(tables)[name].enabled ==>
        failure.None? && tables == old(tables)[name := Table(true, old(tables)[name].families, map[])]
      ensures trace == old(trace) + [TruncateTable(name, preserveSplits)]
    {
      if name !in tables {
        failure := Some(TableNotFound(name));
      } else if tables[name].enabled {
        failure := Some(TableNotDisabled(name));
      } else {
        failure := None;
        tables := tables[name := Table(true, tables[name].families, map[])];
      }
      trace := trace + [TruncateTable(name, preserveSplits)];
    }

    /**
     * getDataFromHbase: nothing when the table is missing; an exception when it
     * is disabled or lacks the family; otherwise the value of (formattedKey,
     * family, column), pinned to `timestamp` when it is positive and the newest
     * version otherwise. The store is not changed.
     */
    method GetDataFromHbase(tableName: string, formattedKey: seq<byte>, family: seq<byte>, column: seq<byte>, timestamp: int)
      returns (r: Result<Option<seq<byte>>, StoreError>)
      requires Valid()
      modifies this
      ensures Valid()
      ensures r == GetOutcome(old(tables), tableName, formattedKey, family, column, timestamp)
      ensures tables == old(tables)
      ensures trace == old(trace) + GetCalls(old(tables), tableName, formattedKey, family, column, timestamp)
      ensures !connectionOpen
    {
      OpenConnection();
      var found := TableExistsCall(tableName);
      if !found {
        CloseConnection();
        return Ok(None);
      }
      GetTableCall(tableName);
      var pinned := if timestamp > 0 then Some(timestamp) else None;
      r := GetCall(tableName, Coordinate(formattedKey, family, column), pinned);
      CloseTableCall(tableName);
      CloseConnection();
    }

    /**
     * deleteMessagesFromTopic: an existing table is disabled and then deleted
     * (deleteEntireTable) or truncated; a missing table is left alone; the
     * qualifier is returned in every mode.
     */
    method DeleteMessagesFromTopic(dataFamily: seq<byte>, dataQualifier: seq<byte>, tableName: string, deleteEntireTable: bool)
      returns (r: Result<seq<byte>, StoreError>)
      requires Valid()
      modifies this
      ensures Valid()
      ensures r == DeleteOutcome(old(tables), tableName, dataQualifier)
      ensures tables == DeleteState(old(tables), tableName, deleteEntireTable)
      ensures trace == old(trace) + DeleteCalls(old(tables), tableName, deleteEntireTable)
      ensures !connectionOpen
    {
      OpenConnection();
      var found := TableExistsCall(tableName);
      if found {
        var disabled := DisableTableCall(tableName);
        if disabled.Some? {
          CloseConnection();
          assert trace == old(trace) + [Connect, TableExists(tableName), DisableTable(tableName), Close];
          return Err(disabled.value);
        }
        var failure;
        if deleteEntireTable {
          failure := DeleteTableCall(tableName);
          DropAfterDisable(old(tables), tableName, old(tables)[tableName].(enabled := false));
        } else {
          failure := TruncateTableCall(tableName, false);
          EmptyAfterDisable(old(tables), tableName, old(tables)[tableName].(enabled := false),
                            Table(true, old(tables)[tableName].families, map[]));
        }
        assert failure.None?;
      }
      assert tables == DeleteState(old(tables), tableName, deleteEntireTable);
      CloseConnection();
      assert trace == old(trace) + DeleteCalls(old(tables), tableName, deleteEntireTable);
      r := Ok(dataQualifier);
      DeleteStateWellKept(old(tables), tableName, deleteEntireTable);
    }
  }
}
