/** The resilient storage client: byte conversion, column namespacing, the
    table-handle cache, table life cycle and the bounded retry of `put`,
    over an abstract store whose remote calls fail as a failure oracle
    dictates. */
module HBase {
  import opened Common
  import opened Utils
  import Config

  type Bytes = seq<byte>

  /** A row: column name to cell value. */
  type Row = map<Bytes, Bytes>

  /** A table of the store: the `max_versions` of its single column family
      'cf1', whether it is enabled, and its rows. */
  datatype Table = Table(maxVersions: int, enabled: bool, rows: map<Bytes, Row>)

  // ---------------------------------------------------------------------
  // The failure oracle

  /** Whether the remote call number `i` (from 0) fails. Calls past the end
      of the oracle succeed. */
  predicate FaultAt(faults: seq<bool>, i: nat)
  {
    i < |faults| && faults[i]
  }

  /** The oracle after `n` remote calls. */
  function DropN(faults: seq<bool>, n: nat): (r: seq<bool>)
    ensures forall i: nat :: FaultAt(r, i) == FaultAt(faults, n + i)
  {
    if n < |faults| then faults[n..] else []
  }

  lemma DropNAdd(faults: seq<bool>, n: nat)
    ensures DropN(DropN(faults, n), 1) == DropN(faults, n + 1)
  {
  }

  /** A write into table `name` is accepted when the table exists and is
      enabled (the oracle aside). */
  predicate Writable(tables: map<Bytes, Table>, name: Bytes)
  {
    name in tables && tables[name].enabled
  }

  /** `Table.put`: the given columns are written into the row; the row's
      other columns stay. */
  function PutRow(t: Table, key: Bytes, data: Row): (t': Table)
    ensures t'.maxVersions == t.maxVersions && t'.enabled == t.enabled
    ensures t'.rows.Keys == t.rows.Keys + {key}
    ensures forall c :: c in data ==> c in t'.rows[key] && t'.rows[key][c] == data[c]
    ensures key in t.rows ==> forall c :: c in t.rows[key] && c !in data ==> c in t'.rows[key] && t'.rows[key][c] == t.rows[key][c]
    ensures forall k :: k in t.rows && k != key ==> t'.rows[k] == t.rows[k]
  {
    var old_ := if key in t.rows then t.rows[key] else map[];
    t.(rows := t.rows[key := old_ + data])
  }

  /** `check_table` on the table set: an existing table is enabled, an
      absent one is created (single family, enabled, no rows). */
  function CheckedTables(tables: map<Bytes, Table>, name: Bytes, maxVersions: int): (r: map<Bytes, Table>)
    ensures r.Keys == tables.Keys + {name}
    ensures Writable(r, name)
    ensures name !in tables ==> r[name] == Table(maxVersions, true, map[])
    ensures name in tables ==> r[name].maxVersions == tables[name].maxVersions && r[name].rows == tables[name].rows
    ensures forall n :: n in tables && n != name ==> r[n] == tables[n]
  {
    if name in tables then tables[name := tables[name].(enabled := true)]
    else tables[name := Table(maxVersions, true, map[])]
  }

  /** An existing enabled table is left alone. */
  lemma CheckedTablesKeepsEnabled(tables: map<Bytes, Table>, name: Bytes, maxVersions: int)
    requires Writable(tables, name)
    ensures CheckedTables(tables, name, maxVersions) == tables
  {
    assert tables[name].(enabled := true) == tables[name];
  }

  /** Checking a table twice changes nothing the first check did not. */
  lemma {:induction false} CheckedTablesIdempotent(tables: map<Bytes, Table>, name: Bytes, maxVersions: int, maxVersions': int)
    ensures CheckedTables(CheckedTables(tables, name, maxVersions), name, maxVersions')
         == CheckedTables(tables, name, maxVersions)
  {
    CheckedTablesKeepsEnabled(CheckedTables(tables, name, maxVersions), name, maxVersions');
  }

  /** The HBase server reached through the Thrift gateway. Every remote data
      call consumes one entry of `faults`; an entry `true` makes that call
      raise. */
  class Store {
    var tables: map<Bytes, Table>
    var faults: seq<bool>

    constructor(faults: seq<bool>)
      ensures tables == map[] && this.faults == faults
    {
      tables := map[];
      this.faults := faults;
    }

    /** `Table.put` of one row. */
    method TablePut(name: Bytes, key: Bytes, data: Row) returns (ok: bool)
      modifies this
      ensures faults == DropN(old(faults), 1)
      ensures ok == (Writable(old(tables), name) && !FaultAt(old(faults), 0))
      ensures ok ==> tables == old(tables)[name := PutRow(old(tables)[name], key, data)]
      ensures !ok ==> tables == old(tables)
    {
      ok := Writable(tables, name) && !FaultAt(faults, 0);
      if ok {
        tables := tables[name := PutRow(tables[name], key, data)];
      }
      faults := DropN(faults, 1);
    }

    /** `Table.row`: the columns of a row, empty for an absent row; None
        when the call raises. */
    method TableRow(name: Bytes, key: Bytes) returns (r: Option<Row>)
      modifies this
      ensures faults == DropN(old(faults), 1) && tables == old(tables)
      ensures r.Some? == (Writable(tables, name) && !FaultAt(old(faults), 0))
      ensures r.Some? ==> r.value == if key in tables[name].rows then tables[name].rows[key] else map[]
    {
      if Writable(tables, name) && !FaultAt(faults, 0) {
        r := Some(if key in tables[name].rows then tables[name].rows[key] else map[]);
      } else {
        r := None;
      }
      faults := DropN(faults, 1);
    }
  }

  // ---------------------------------------------------------------------
  // Serialisation

  /** `to_bytes`: bytes stay as they are, text is UTF-8 encoded, a dict is
      BSON when `dict2bson` is set, and everything else is JSON text
      encoded as UTF-8. A serialiser that raises yields the empty string,
      so the conversion itself never raises. */
  function ToBytes(v: Value, dict2bson: bool, bson: Value -> Option<Bytes>, json: Value -> Option<string>): (r: Bytes)
    ensures v.Bytes? ==> r == v.bs
    ensures v.Str? ==> r == Utf8Encode(v.s)
    ensures v.Dict? && dict2bson ==> r == (if bson(v).Some? then bson(v).value else [])
    ensures !v.Bytes? && !v.Str? && !(v.Dict? && dict2bson) ==>
      r == (if json(v).Some? then Utf8Encode(json(v).value) else [])
  {
    match v
    case Bytes(bs) => bs
    case Str(s) => Utf8Encode(s)
    case _ =>
      if v.Dict? && dict2bson then
        match bson(v) case Some(b) => b case None => []
      else
        match json(v) case Some(s) => Utf8Encode(s) case None => []
  }

  /** Text converts to the same bytes whichever serialisers are plugged in,
      and ASCII text converts byte for byte. */
  lemma ToBytesText(s: string, d: bool, d': bool, bson: Value -> Option<Bytes>, bson': Value -> Option<Bytes>,
                    json: Value -> Option<string>, json': Value -> Option<string>)
    ensures ToBytes(Str(s), d, bson, json) == ToBytes(Str(s), d', bson', json')
    ensures IsAscii(s) ==> |ToBytes(Str(s), d, bson, json)| == |s|
  {
    if IsAscii(s) {
      Utf8EncodeAscii(s);
    }
  }

  /** "kůň" is encoded as UTF-8. */
  lemma ToBytesExample(bson: Value -> Option<Bytes>, json: Value -> Option<string>)
    ensures ToBytes(Str("kůň"), true, bson, json) == [0x6B, 0xC5, 0xAF, 0xC5, 0x88]
  {
    assert Utf8Char('k') == [0x6B];
    assert Utf8Char(0x16F as char) == [0xC5, 0xAF];
    assert Utf8Char(0x148 as char) == [0xC5, 0x88];
  }

  /** The column family prefix "cf1:". */
  const CF1: Bytes := [0x63, 0x66, 0x31, 0x3A]

  /** A column name in the 'cf1' family: prefixed with "cf1:" unless it
      already starts with it. */
  function Namespace(k: Bytes): (c: Bytes)
    ensures IsPrefix(CF1, c)
    ensures IsPrefix(CF1, k) ==> c == k
    ensures !IsPrefix(CF1, k) ==> c == CF1 + k
  {
    if IsPrefix(CF1, k) then k else CF1 + k
  }

  /** Namespacing a namespaced name changes nothing. */
  lemma NamespaceIdempotent(k: Bytes)
    ensures Namespace(Namespace(k)) == Namespace(k)
  {
  }

  /** The column a key of `put`'s data is written to. */
  function Column(k: string): Bytes
  {
    Namespace(Utf8Encode(k))
  }

  /** The columns the keys of `data` are written to. */
  function Columns(data: ODict): set<Bytes>
  {
    set i | 0 <= i < |data| :: Column(data[i].0)
  }

  /** The row `put` builds: every key converted and namespaced, every
      value converted; a later key that lands on the same column wins. */
  function EncodeRow(data: ODict, dict2bson: bool, bson: Value -> Option<Bytes>, json: Value -> Option<string>): Row
    decreases |data|
  {
    if data == [] then map[]
    else
      var init := data[..|data| - 1];
      var last := data[|data| - 1];
      EncodeRow(init, dict2bson, bson, json)[Column(last.0) := ToBytes(last.1, dict2bson, bson, json)]
  }

  /** One more entry of the data writes its column over the row so far. */
  lemma EncodeRowStep(data: ODict, i: nat, dict2bson: bool, bson: Value -> Option<Bytes>, json: Value -> Option<string>)
    requires i < |data|
    ensures EncodeRow(data[..i + 1], dict2bson, bson, json)
      == EncodeRow(data[..i], dict2bson, bson, json)[Column(data[i].0) := ToBytes(data[i].1, dict2bson, bson, json)]
  {
    var s := data[..i + 1];
    assert s[..|s| - 1] == data[..i] && s[|s| - 1] == data[i];
  }

  /** The row has exactly the namespaced columns of the data's keys. */
  lemma {:induction false} EncodeRowColumns(data: ODict, dict2bson: bool, bson: Value -> Option<Bytes>,
                                             json: Value -> Option<string>)
    ensures EncodeRow(data, dict2bson, bson, json).Keys == Columns(data)
    ensures forall c :: c in EncodeRow(data, dict2bson, bson, json) ==> IsPrefix(CF1, c)
    decreases |data|
  {
    if data != [] {
      var init := data[..|data| - 1];
      EncodeRowColumns(init, dict2bson, bson, json);
      assert Columns(data) == Columns(init) + {Column(data[|data| - 1].0)} by {
        assert forall i :: 0 <= i < |init| ==> init[i] == data[i];
      }
    }
  }

  /** Each column holds the value of the last entry written to it. */
  lemma {:induction false} EncodeRowLastWins(data: ODict, dict2bson: bool, bson: Value -> Option<Bytes>,
                                              json: Value -> Option<string>, i: int)
    requires 0 <= i < |data|
    requires forall j :: i < j < |data| ==> Column(data[j].0) != Column(data[i].0)
    ensures Column(data[i].0) in EncodeRow(data, dict2bson, bson, json)
    ensures EncodeRow(data, dict2bson, bson, json)[Column(data[i].0)] == ToBytes(data[i].1, dict2bson, bson, json)
    decreases |data|
  {
    if i < |data| - 1 {
      var init := data[..|data| - 1];
      assert init[i] == data[i];
      forall j | i < j < |init| ensures Column(init[j].0) != Column(init[i].0) {
        assert init[j] == data[j];
      }
      EncodeRowLastWins(init, dict2bson, bson, json, i);
    }
  }

  // ---------------------------------------------------------------------
  // The retry loop of put

  /** The number of attempts `put` allows: `max_fails`, but at least one. */
  function MaxAttempts(maxFails: int): (n: nat)
    ensures n >= 1 && n >= maxFails
    ensures maxFails >= 1 ==> n == maxFails
  {
    if maxFails < 1 then 1 else maxFails
  }

  /** The first attempt, from `i` on and below `bound`, that the store
      accepts, or `bound` when all of them fail. */
  function FirstSuccess(writable: bool, faults: seq<bool>, i: nat, bound: nat): (k: nat)
    ensures i <= bound ==> i <= k <= bound
    ensures i > bound ==> k == bound
    ensures k < bound ==> writable && !FaultAt(faults, k)
    ensures forall j :: i <= j < k && j < bound ==> !writable || FaultAt(faults, j)
    decreases bound - i
  {
    if i >= bound then bound
    else if writable && !FaultAt(faults, i) then i
    else FirstSuccess(writable, faults, i + 1, bound)
  }

  /** The attempt of `put` that succeeds, or `MaxAttempts` when none
      does. */
  function PutFirst(tables: map<Bytes, Table>, name: Bytes, faults: seq<bool>, maxFails: int): (k: nat)
    ensures k <= MaxAttempts(maxFails)
  {
    FirstSuccess(Writable(tables, name), faults, 0, MaxAttempts(maxFails))
  }

  /** The number of attempts `put` makes: up to and including the first
      that succeeds, else all that are allowed. */
  function PutAttempts(tables: map<Bytes, Table>, name: Bytes, faults: seq<bool>, maxFails: int): (n: nat)
    ensures 1 <= n <= MaxAttempts(maxFails)
  {
    var k := PutFirst(tables, name, faults, maxFails);
    if k < MaxAttempts(maxFails) then k + 1 else MaxAttempts(maxFails)
  }

  /** What `put` leaves behind: whether it succeeded, the tables (the row
      is written only on success) and the failure oracle after its
      attempts. */
  function PutEffect(tables: map<Bytes, Table>, faults: seq<bool>, name: Bytes, key: Bytes, data: Row,
                     maxFails: int): (bool, map<Bytes, Table>, seq<bool>)
  {
    var ok := PutFirst(tables, name, faults, maxFails) < MaxAttempts(maxFails);
    (ok, if ok then tables[name := PutRow(tables[name], key, data)] else tables,
     DropN(faults, PutAttempts(tables, name, faults, maxFails)))
  }

  /** A put succeeds exactly when the table is writable and one of the
      allowed attempts does not fail; a failed put uses them all and
      writes nothing. */
  lemma PutEffectSucceeds(tables: map<Bytes, Table>, faults: seq<bool>, name: Bytes, key: Bytes, data: Row, maxFails: int)
    ensures var e := PutEffect(tables, faults, name, key, data, maxFails);
      && (e.0 <==> Writable(tables, name) && exists j :: 0 <= j < MaxAttempts(maxFails) && !FaultAt(faults, j))
      && (!e.0 ==> e.1 == tables && e.2 == DropN(faults, MaxAttempts(maxFails)))
  {
    var k := PutFirst(tables, name, faults, maxFails);
    if Writable(tables, name) && exists j :: 0 <= j < MaxAttempts(maxFails) && !FaultAt(faults, j) {
      var j :| 0 <= j < MaxAttempts(maxFails) && !FaultAt(faults, j);
      assert k <= j;
    }
  }

  /** What `has_row` answers for key `k` of table `name` when the read is
      the next remote call: the read succeeds and the row is not empty. */
  predicate RowFound(tables: map<Bytes, Table>, faults: seq<bool>, name: Bytes, k: Bytes)
  {
    Writable(tables, name) && !FaultAt(faults, 0) && k in tables[name].rows && tables[name].rows[k] != map[]
  }

  /** The table-handle type: a table bound to one connection. */
  datatype Handle = Handle(name: Bytes, conn: nat)

  /** `HBase`: a connection to the store and the cache of table handles.
      `conn` counts connections: a restart opens the next one. */
  class Client {
    const logger: string
    const host: string
    const port: int
    const bson: Value -> Option<Bytes>
    const json: Value -> Option<string>
    const store: Store
    var conn: nat
    var cache: map<Bytes, Handle>

    /** Every cached handle belongs to the open connection and to the table
        it is cached under. */
    predicate Valid()
      reads this
    {
      forall n :: n in cache ==> cache[n] == Handle(n, conn)
    }

    /** Construction stores the address, opens a connection and starts
        with an empty cache. */
    constructor(host: string, port: int, store: Store,
                bson: Value -> Option<Bytes>, json: Value -> Option<string>)
      ensures this.host == host && this.port == port && this.store == store
      ensures this.bson == bson && this.json == json
      ensures conn == 0 && cache == map[] && Valid()
      ensures logger == "HBase"
    {
      logger := "HBase";
      this.host := host;
      this.port := port;
      this.store := store;
      this.bson := bson;
      this.json := json;
      conn := 0;
      cache := map[];
    }

    /** `restart_connection`: a new connection and an empty cache. */
    method RestartConnection()
      modifies this
      ensures conn == old(conn) + 1 && cache == map[] && Valid()
    {
      conn := conn + 1;
      cache := map[];
    }

    /** `get_table`: the cached handle, or a new handle of the open
        connection, which is then cached. */
    method GetTable(name: string) returns (h: Handle)
      requires Valid()
      modifies this
      ensures Valid() && conn == old(conn)
      ensures h == Handle(Utf8Encode(name), conn)
      ensures cache == old(cache)[Utf8Encode(name) := h]
    {
      var n := Utf8Encode(name);
      if n in cache {
        h := cache[n];
      } else {
        h := Handle(n, conn);
        cache := cache[n := h];
      }
    }

    /** `has_table` */
    function HasTable(name: string): (b: bool)
      reads this, store
      ensures b <==> Utf8Encode(name) in store.tables
    {
      Utf8Encode(name) in store.tables
    }

    /** `check_table`: afterwards the table exists and is enabled; a table
        that already was is not touched. */
    method CheckTable(name: string, maxVersions: int)
      modifies store
      ensures store.tables == CheckedTables(old(store.tables), Utf8Encode(name), maxVersions)
      ensures store.faults == old(store.faults)
    {
      var n := Utf8Encode(name);
      if n in store.tables && store.tables[n].enabled {
        return;
      }
      if n !in store.tables {
        store.tables := store.tables[n := Table(maxVersions, true, map[])];
      }
      if !store.tables[n].enabled {
        store.tables := store.tables[n := store.tables[n].(enabled := true)];
      }
    }

    /** `check_tables`: the four tables of the application. */
    method CheckTables()
      modifies store
      ensures store.faults == old(store.faults)
      ensures store.tables ==
        CheckedTables(CheckedTables(CheckedTables(CheckedTables(old(store.tables),
          Utf8Encode(Config.HBASE_MAIN_TABLE), 1), Utf8Encode(Config.HBASE_HARV_TABLE), 1),
          Utf8Encode(Config.HBASE_CONF_TABLE), 100), Utf8Encode(Config.HBASE_PROC_TABLE), 1)
    {
      CheckTable(Config.HBASE_MAIN_TABLE, 1);
      CheckTable(Config.HBASE_HARV_TABLE, 1);
      CheckTable(Config.HBASE_CONF_TABLE, 100);
      CheckTable(Config.HBASE_PROC_TABLE, 1);
    }

    /** `delete_table`: the table is gone; a failure is only logged. */
    method DeleteTable(name: string)
      modifies store
      ensures store.tables == old(store.tables) - {Utf8Encode(name)}
      ensures store.faults == old(store.faults)
    {
      store.tables := store.tables - {Utf8Encode(name)};
    }

    /** The loop of `put` that builds the row to write. */
    method EncodeData(data: ODict, dict2bson: bool) returns (dataBytes: Row)
      ensures dataBytes == EncodeRow(data, dict2bson, bson, json)
    {
      dataBytes := map[];
      var i := 0;
      while i < |data|
        invariant 0 <= i <= |data|
        invariant dataBytes == EncodeRow(data[..i], dict2bson, bson, json)
      {
        EncodeRowStep(data, i, dict2bson, bson, json);
        dataBytes := dataBytes[Column(data[i].0) := ToBytes(data[i].1, dict2bson, bson, json)];
        i := i + 1;
      }
      assert data[..|data|] == data;
    }

    /** `put`: converts the key and the data, then writes, restarting the
        connection after each failed attempt but the last. It answers
        whether the row was saved and never raises. */
    method Put(tableName: string, key: Value, data: ODict, maxFails: int, dict2bson: bool) returns (ok: bool)
      requires Valid()
      modifies this, store
      ensures Valid()
      ensures ok == (PutFirst(old(store.tables), Utf8Encode(tableName), old(store.faults), maxFails) < MaxAttempts(maxFails))
      ensures conn == old(conn) + PutAttempts(old(store.tables), Utf8Encode(tableName), old(store.faults), maxFails) - 1
      ensures store.faults == DropN(old(store.faults), PutAttempts(old(store.tables), Utf8Encode(tableName), old(store.faults), maxFails))
      ensures ok ==> store.tables == old(store.tables)[Utf8Encode(tableName) := PutRow(old(store.tables)[Utf8Encode(tableName)],
              ToBytes(key, true, bson, json), EncodeRow(data, dict2bson, bson, json))]
      ensures !ok ==> store.tables == old(store.tables)
    {
      var name := Utf8Encode(tableName);
      ghost var writable := Writable(store.tables, name);
      ghost var f0 := store.faults;
      ghost var bound := MaxAttempts(maxFails);
      ghost var k := PutFirst(store.tables, name, f0, maxFails);
      var h := GetTable(tableName);
      var keyBytes := ToBytes(key, true, bson, json);
      var dataBytes := EncodeData(data, dict2bson);
      var fails: nat := 0;
      while true
        invariant Valid() && fails < bound && fails <= k
        invariant conn == old(conn) + fails
        invariant store.faults == DropN(f0, fails)
        invariant store.tables == old(store.tables)
        decreases bound - fails
      {
        h := GetTable(tableName);
        ok := store.TablePut(h.name, keyBytes, dataBytes);
        DropNAdd(f0, fails);
        if ok {
          assert k == fails;
          assert PutAttempts(old(store.tables), name, f0, maxFails) == fails + 1;
          return;
        }
        fails := fails + 1;
        if fails < maxFails {
          RestartConnection();
        } else {
          assert k == bound;
          assert PutAttempts(old(store.tables), name, f0, maxFails) == fails;
          return;
        }
      }
    }

    /** `get_row`: the row's columns, or None when the read raises. */
    method GetRow(tableName: string, key: Value) returns (r: Option<Row>)
      requires Valid()
      modifies this, store
      ensures Valid() && conn == old(conn) && store.tables == old(store.tables)
      ensures store.faults == DropN(old(store.faults), 1)
      ensures var name, k := Utf8Encode(tableName), ToBytes(key, true, bson, json);
        && (r.Some? <==> Writable(store.tables, name) && !FaultAt(old(store.faults), 0))
        && (r.Some? ==> r.value == if k in store.tables[name].rows then store.tables[name].rows[k] else map[])
    {
      var h := GetTable(tableName);
      var k := ToBytes(key, true, bson, json);
      r := store.TableRow(h.name, k);
    }

    /** `has_row`: whether the read succeeded with a non-empty row. */
    method HasRow(tableName: string, key: Value) returns (b: bool)
      requires Valid()
      modifies this, store
      ensures Valid() && conn == old(conn) && store.tables == old(store.tables)
      ensures store.faults == DropN(old(store.faults), 1)
      ensures var name, k := Utf8Encode(tableName), ToBytes(key, true, bson, json);
        b <==> Writable(store.tables, name) && !FaultAt(old(store.faults), 0)
               && k in store.tables[name].rows && store.tables[name].rows[k] != map[]
    {
      var r := GetRow(tableName, key);
      b := r.Some? && r.value != map[];
    }
  }

  /** A row put with some data reads back as present and non-empty. */
  lemma PutRowReadsBack(t: Table, key: Bytes, data: ODict, dict2bson: bool,
                        bson: Value -> Option<Bytes>, json: Value -> Option<string>)
    requires data != []
    ensures var t' := PutRow(t, key, EncodeRow(data, dict2bson, bson, json));
      key in t'.rows && t'.rows[key] != map[]
  {
    EncodeRowLastWins(data, dict2bson, bson, json, |data| - 1);
  }

  /** After a put of some data succeeds, a later `has_row` whose read does
      not fail finds the row. */
  lemma PutEffectFound(tables: map<Bytes, Table>, faults: seq<bool>, name: Bytes, key: Bytes, data: ODict,
                       dict2bson: bool, bson: Value -> Option<Bytes>, json: Value -> Option<string>,
                       maxFails: int, later: seq<bool>)
    requires data != [] && !FaultAt(later, 0)
    requires PutEffect(tables, faults, name, key, EncodeRow(data, dict2bson, bson, json), maxFails).0
    ensures RowFound(PutEffect(tables, faults, name, key, EncodeRow(data, dict2bson, bson, json), maxFails).1, later, name, key)
  {
    PutRowReadsBack(tables[name], key, data, dict2bson, bson, json);
  }

  /** A session against a fresh store that never fails: after checking a
      table and putting a row with some data, `has_row` finds the row. */
  method PutThenHasRow(tableName: string, key: Value, data: ODict) returns (has: bool)
    requires data != []
    ensures has
  {
    var store := new Store([]);
    var hb := new Client("100.100.100.100", 1234, store, _ => None, _ => None);
    hb.CheckTable(tableName, 1);
    ghost var before := store.tables;
    var ok := hb.Put(tableName, key, data, 3, true);
    assert FirstSuccess(true, [], 0, 3) == 0;
    assert ok && store.faults == [];
    ghost var name, k := Utf8Encode(tableName), ToBytes(key, true, hb.bson, hb.json);
    PutRowReadsBack(before[name], k, data, true, hb.bson, hb.json);
    assert Writable(store.tables, name) && k in store.tables[name].rows && store.tables[name].rows[k] != map[];
    assert !FaultAt(store.faults, 0);
    has := hb.HasRow(tableName, key);
  }

  /** b'datakey' */
  lemma DatakeyBytes()
    ensures Utf8Encode("datakey") == [0x64, 0x61, 0x74, 0x61, 0x6B, 0x65, 0x79]
  {
    Utf8EncodeAscii("datakey");
  }

  /** b'value' */
  lemma ValueBytes()
    ensures Utf8Encode("value") == [0x76, 0x61, 0x6C, 0x75, 0x65]
  {
    Utf8EncodeAscii("value");
  }

  /** Putting {'datakey': 'value'} writes b'value' into the column
      b'cf1:datakey' and nothing else. */
  lemma EncodeRowExample(dict2bson: bool, bson: Value -> Option<Bytes>, json: Value -> Option<string>)
    ensures EncodeRow([("datakey", Str("value"))], dict2bson, bson, json)
      == map[[0x63, 0x66, 0x31, 0x3A, 0x64, 0x61, 0x74, 0x61, 0x6B, 0x65, 0x79] := [0x76, 0x61, 0x6C, 0x75, 0x65]]
  {
    DatakeyBytes();
    ValueBytes();
    var data := [("datakey", Str("value"))];
    assert data[..|data| - 1] == [] && data[|data| - 1] == ("datakey", Str("value"));
    assert Column("datakey") == [0x63, 0x66, 0x31, 0x3A, 0x64, 0x61, 0x74, 0x61, 0x6B, 0x65, 0x79] by {
      assert Utf8Encode("datakey")[0] != CF1[0];
    }
    assert ToBytes(Str("value"), dict2bson, bson, json) == [0x76, 0x61, 0x6C, 0x75, 0x65];
  }

  /** Against a fresh store, a checked table exists and is gone once
      deleted, leaving no table. */
  method DeleteSession() returns (existed: bool, remaining: nat)
    ensures existed && remaining == 0
  {
    var store := new Store([]);
    var hb := new Client("100.100.100.100", 1234, store, _ => None, _ => None);
    hb.CheckTable("my_table", 1);
    existed := hb.HasTable("my_table");
    hb.DeleteTable("my_table");
    remaining := |store.tables|;
  }
}
