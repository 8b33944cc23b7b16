/** The archive processor object: its configuration, the algorithm table,
    the MIME-type cache, the counters and the harvest accumulator, and the
    per-record, per-partition and storage steps that update them. */
module ArchiveProcessor {
  import opened Common
  import opened PyStr
  import opened Utils
  import opened Config
  import opened BaseAlgorithms
  import opened ArchivePipeline
  import HBase

  const HBASE_TABLE := "hbase_table"
  const RDD_TEXTFILE := "rdd_textFile"
  const RDD_TEXTFILE_EXTRA := "rdd_textFile_extra"

  /** Attempts `put` makes before giving up, and its BSON switch, as the
      processor calls it. */
  const PUT_MAX_FAILS := 3
  const PUT_DICT2BSON := true

  /** The output format: the storage table when asked for, otherwise a
      text file of rows, otherwise a text file of EXTRA columns. */
  function OutputFormat(outputHbase: bool, outputTextfile: string): (f: string)
    ensures f == HBASE_TABLE <==> outputHbase
    ensures f == RDD_TEXTFILE_EXTRA <==> !outputHbase && outputTextfile == ""
    ensures f in {HBASE_TABLE, RDD_TEXTFILE, RDD_TEXTFILE_EXTRA}
  {
    if outputHbase then HBASE_TABLE
    else if outputTextfile != "" then RDD_TEXTFILE
    else RDD_TEXTFILE_EXTRA
  }

  /** A Spark accumulator over `ListAccumulatorParam`: it starts from the
      zero value `[]`, and `addInPlace` appends one value to the list. */
  class ListAccumulator<T> {
    var value: seq<T>

    constructor()
      ensures value == []
    {
      value := [];
    }

    method AddInPlace(v: T)
      modifies this
      ensures value == old(value) + [v]
    {
      value := value + [v];
    }
  }

  /** Every algorithm name any chain mentions. */
  function AllNames(algseq: seq<(string, seq<string>)>): set<string>
  {
    if algseq == [] then {} else Elems(algseq[0].1) + AllNames(algseq[1..])
  }

  /** `_init_algorithms`: one instance per distinct name, whichever chains
      mention it. An instance is identified by its creation number.
      `constructible(n)` says a class of that name is imported and its
      constructor does not raise; otherwise the program terminates, which
      is None here. */
  method InitAlgorithms(algseq: seq<(string, seq<string>)>, constructible: string -> bool)
    returns (table: Option<map<string, nat>>)
    ensures table.Some? <==> forall a :: a in AllNames(algseq) ==> constructible(a)
    ensures table.Some? ==> table.value.Keys == AllNames(algseq)
    ensures table.Some? ==> Injective(table.value)
  {
    table := InstantiateAll(AllNames(algseq), constructible);
  }

  /** No two keys share a value. */
  ghost predicate Injective<T>(m: map<T, nat>)
  {
    forall a, b :: a in m && b in m && a != b ==> m[a] != m[b]
  }

  /** A key given a value no other key has keeps the map injective. */
  lemma InjectiveExtend<T>(m: map<T, nat>, a: T, next: nat)
    requires Injective(m) && forall x :: x in m ==> m[x] < next
    ensures Injective(m[a := next])
  {
  }

  /** The loop of `_decompose_record` in separate-column mode: pops each
      listed column out of the data, `""` when missing, and keeps the rest. */
  method SplitSeparateCols(data: map<string, Value>) returns (row: seq<Value>, rest: map<string, Value>)
    ensures row == SeparateCols(data) && rest == data - Elems(OUTPUT_SEPARATE_COLS)
  {
    SeparateColsDistinct();
    row := [];
    rest := data;
    for i := 0 to |OUTPUT_SEPARATE_COLS|
      invariant row == SeparateCols(data)[..i]
      invariant rest == data - Elems(OUTPUT_SEPARATE_COLS[..i])
    {
      var field := OUTPUT_SEPARATE_COLS[i];
      assert field !in Elems(OUTPUT_SEPARATE_COLS[..i]);
      assert Elems(OUTPUT_SEPARATE_COLS[..i + 1]) == Elems(OUTPUT_SEPARATE_COLS[..i]) + {field} by {
        assert OUTPUT_SEPARATE_COLS[..i + 1] == OUTPUT_SEPARATE_COLS[..i] + [field];
      }
      var val := if field in rest then rest[field] else Str("");
      rest := rest - {field};
      row := row + [val];
    }
    assert OUTPUT_SEPARATE_COLS[..|OUTPUT_SEPARATE_COLS|] == OUTPUT_SEPARATE_COLS;
  }

  /** The loop of `_init_algorithms` over the set of names. */
  method InstantiateAll<T>(names: set<T>, constructible: T -> bool) returns (table: Option<map<T, nat>>)
    ensures table.Some? <==> forall a :: a in names ==> constructible(a)
    ensures table.Some? ==> table.value.Keys == names && Injective(table.value)
  {
    var todo := names;
    var t: map<T, nat> := map[];
    var next: nat := 0;
    while todo != {}
      invariant todo <= names && t.Keys == names - todo
      invariant forall a :: a in t ==> constructible(a)
      invariant forall a :: a in t ==> t[a] < next
      invariant Injective(t)
      decreases |todo|
    {
      var a :| a in todo;
      if !constructible(a) {
        assert a in names;
        return None;
      }
      InjectiveExtend(t, a, next);
      assert t[a := next].Keys == names - (todo - {a});
      t := t[a := next];
      next := next + 1;
      todo := todo - {a};
    }
    assert t.Keys == names;
    return Some(t);
  }

  /** The ids listed under "harvests" in the process info. */
  function InfoHarvests(info: ODict): seq<Value>
  {
    match Lookup(info, "harvests")
    case Some(List(items)) => items
    case _ => []
  }

  function StrValues(ss: seq<string>): (vs: seq<Value>)
    ensures |vs| == |ss| && forall i :: 0 <= i < |ss| ==> vs[i] == Str(ss[i])
  {
    seq(|ss|, i requires 0 <= i < |ss| => Str(ss[i]))
  }

  /** `dict(zip(names, values))`: as many entries as the shorter list. */
  function Zip(names: seq<string>, values: seq<Value>): (d: ODict)
    ensures |d| == if |names| < |values| then |names| else |values|
    ensures forall i :: 0 <= i < |d| ==> d[i] == (names[i], values[i])
  {
    if names == [] || values == [] then [] else [(names[0], values[0])] + Zip(names[1..], values[1..])
  }

  /** The row `_check_hbase_harvest_table` puts for a new harvest: the type
      and date parsed from the WARC file name, '' each when it does not
      parse. */
  function HarvestRowData(warcName: string): (d: ODict)
  {
    var hmeta := WarcNameToHarvestInfo(warcName);
    [("type", Str(if hmeta.Some? then hmeta.value.htype else "")),
     ("date", Str(if hmeta.Some? then hmeta.value.date else ""))]
  }

  /** The output column names are distinct, so the saved dict keeps
      every column. */
  lemma OutputColumnsDistinct()
    ensures forall i, j :: 0 <= i < j < |OUTPUT_SEPARATE_COLS + ["IF"]| ==>
      (OUTPUT_SEPARATE_COLS + ["IF"])[i] != (OUTPUT_SEPARATE_COLS + ["IF"])[j]
  {
    SeparateColsDistinct();
    assert forall i :: 0 <= i < |OUTPUT_SEPARATE_COLS| ==> OUTPUT_SEPARATE_COLS[i] != "IF";
  }

  /** The columns a standard row is saved under: one per separately saved
      field, holding that field's value, and 'IF' holding the rest. */
  lemma SavedColumns(record: Record)
    requires OutputRow(false, record).Some?
    ensures var row := OutputRow(false, record).value;
      var d := Zip(OUTPUT_SEPARATE_COLS + ["IF"], row[1..]);
      && |d| == |OUTPUT_SEPARATE_COLS| + 1
      && KeysUnique(d)
      && (forall i :: 0 <= i < |OUTPUT_SEPARATE_COLS| ==> d[i] == (OUTPUT_SEPARATE_COLS[i],
            if OUTPUT_SEPARATE_COLS[i] in record.data then record.data[OUTPUT_SEPARATE_COLS[i]] else Str("")))
      && d[|OUTPUT_SEPARATE_COLS|] == ("IF", Dict(record.data - Elems(OUTPUT_SEPARATE_COLS)))
  {
    var row := OutputRow(false, record).value;
    RowShapes(false, record);
    var names := OUTPUT_SEPARATE_COLS + ["IF"];
    OutputColumnsDistinct();
    ZipColumns(names, row[1..]);
  }

  /** Zipping distinct names with as many values names each value once. */
  lemma ZipColumns(names: seq<string>, values: seq<Value>)
    requires |names| == |values|
    requires forall i, j :: 0 <= i < j < |names| ==> names[i] != names[j]
    ensures |Zip(names, values)| == |names| && KeysUnique(Zip(names, values))
  {
  }

  predicate IsFinal(status: string)
  {
    status == PROC_STATUS_FINISHED || status == PROC_STATUS_FAILED
  }

  /** The status update of the process info: the status, and the
      finishing time for a final status. */
  function WithStatus(info: ODict, status: string, now: int): (info': ODict)
    ensures Lookup(info', "operation_status") == Some(Str(status))
    ensures IsFinal(status) ==> Lookup(info', "t_finished") == Some(Int(now))
    ensures !IsFinal(status) ==> Lookup(info', "t_finished") == Lookup(info, "t_finished")
    ensures forall k :: k != "operation_status" && k != "t_finished" ==> Lookup(info', k) == Lookup(info, k)
    ensures KeysUnique(info) ==> KeysUnique(info')
  {
    var info1 := Put(info, "operation_status", Str(status));
    if IsFinal(status) then Put(info1, "t_finished", Int(now)) else info1
  }

  /** The counters and the harvest list added to the process info. */
  function WithTotals(info: ODict, processed: nat, failed: nat, harvests: seq<string>): (info': ODict)
    ensures Lookup(info', "records_processed") == Some(Int(processed))
    ensures Lookup(info', "records_failed") == Some(Int(failed))
    ensures Lookup(info', "harvests") == Some(List(StrValues(harvests)))
    ensures forall k :: k != "records_processed" && k != "records_failed" && k != "harvests" ==> Lookup(info', k) == Lookup(info, k)
    ensures KeysUnique(info) ==> KeysUnique(info')
  {
    Put(Put(Put(info, "records_processed", Int(processed)), "records_failed", Int(failed)), "harvests", List(StrValues(harvests)))
  }

  /** The process info after `_update_proc_status`, and whether the
      harvest fold raised: the status always, the counters and the sorted,
      duplicate-free harvest list when asked for and the fold succeeds.
      Sorting raises when a harvest id is not a string. */
  function UpdatedInfo(info: ODict, status: string, now: int, withTotals: bool,
                       processed: nat, failed: nat, subs: seq<seq<Value>>): (r: (ODict, bool))
    ensures r.1 <==> withTotals && !AllStr(Flatten(subs))
    ensures Lookup(r.0, "operation_status") == Some(Str(status))
    ensures IsFinal(status) ==> Lookup(r.0, "t_finished") == Some(Int(now))
    ensures withTotals && !r.1 ==>
      && Lookup(r.0, "records_processed") == Some(Int(processed))
      && Lookup(r.0, "records_failed") == Some(Int(failed))
      && Lookup(r.0, "harvests") == Some(List(StrValues(HarvestList(subs))))
    ensures forall k :: k != "operation_status" && k != "t_finished" && (withTotals && !r.1 ==> k != "records_processed" && k != "records_failed" && k != "harvests") ==>
      Lookup(r.0, k) == Lookup(info, k)
    ensures KeysUnique(info) ==> KeysUnique(r.0)
  {
    var info1 := WithStatus(info, status, now);
    if withTotals && AllStr(Flatten(subs)) then
      var info2 := WithTotals(info1, processed, failed, HarvestList(subs));
      assert Lookup(info2, "operation_status") == Lookup(info1, "operation_status");
      assert Lookup(info2, "t_finished") == Lookup(info1, "t_finished");
      (info2, false)
    else (info1, withTotals)
  }

  /** Whether a record's result is a row, and how many failures it adds. */
  function RowOf(r: RecordResult): Option<seq<Value>>
  {
    if r.Saved? then Some(r.row) else None
  }

  function FailCount(r: RecordResult): nat
  {
    if r.Failed? then 1 else 0
  }

  /** Number of true (or false) entries. */
  function Count(bs: seq<bool>, b: bool): nat
  {
    if bs == [] then 0 else Count(bs[..|bs| - 1], b) + (if bs[|bs| - 1] == b then 1 else 0)
  }

  /** `ArchiveProcessor`. */
  class ArchiveProcessor {
    const logger: string
    const oracles: Oracles
    const algseq: seq<(string, seq<string>)>
    const algorithms: map<string, nat>
    const processIDs: set<string>
    const outputHbase: bool
    const outputFormat: string
    const outputColNames: seq<string>
    const processId: string
    const store: HBase.Store
    const bson: Value -> Option<HBase.Bytes>
    const json: Value -> Option<string>
    /** The accumulator as a worker sees it, and its merged value at the
        driver: one list per worker. */
    const taskHarvests: ListAccumulator<Value>
    const harvests: ListAccumulator<seq<Value>>
    var cache: map<Value, Option<seq<string>>>
    var processInfo: ODict
    var accumulatorsReady: bool
    var nProcessed: nat
    var nFailed: nat

    /** Every chain's group is configured, every name has an instance, and
        every cached MIME value holds the chain the lookup gives it. */
    predicate Valid()
      reads this
    {
      && GroupsKnown(algseq)
      && AllNames(algseq) <= algorithms.Keys
      && (outputHbase <==> outputFormat == HBASE_TABLE)
      && (forall m :: m in cache ==> Resolve(oracles.mimeMatch, algseq, m) == Chain(cache[m]))
    }

    /** What `process_record` gives for a record under this
        configuration, leaving out the harvest-table side effect. */
    function Expected(record: Record): RecordResult
    {
      Pipeline(oracles, processIDs, algseq, outputFormat == RDD_TEXTFILE_EXTRA, record)
    }

    /** The harvest-table check can only raise in the storage-table mode
        and for a record whose WARC file name is not a string. */
    predicate HarvestSafe(record: Record)
    {
      outputFormat != HBASE_TABLE || Get(record, WARCFILENAME).Str?
    }

    /** The store after the harvest-table part of
        `_check_hbase_harvest_table`: whether it raised, then the tables
        and the failure oracle. `has_row` is asked first; only when it
        finds no row is the WARC file name needed, and a name that is not a
        string raises before anything is written. */
    function HarvestRowEffect(tables: map<HBase.Bytes, HBase.Table>, faults: seq<bool>, hid: Value, warc: Value)
      : (bool, map<HBase.Bytes, HBase.Table>, seq<bool>)
    {
      var name, k := Utf8Encode(HBASE_HARV_TABLE), HBase.ToBytes(hid, true, bson, json);
      var after := HBase.DropN(faults, 1);
      if HBase.RowFound(tables, faults, name, k) then (false, tables, after)
      else if !warc.Str? then (true, tables, after)
      else
        var e := HBase.PutEffect(tables, after, name, k, HBase.EncodeRow(HarvestRowData(warc.s), PUT_DICT2BSON, bson, json), PUT_MAX_FAILS);
        (false, e.1, e.2)
    }

    /** Only the row test keeps a harvest row from being written twice: on
        an enabled harvest table whose first write attempt does not fail,
        a check with a string file name leaves a row that a later check
        finds when its read does not fail; that check then writes nothing
        and does not raise, whatever its file name. A row the first check
        writes holds the type and date of the file name. */
    lemma HarvestRowWrittenOnce(tables: map<HBase.Bytes, HBase.Table>, faults: seq<bool>, hid: Value, warc: string,
                                later: seq<bool>, warc2: Value)
      requires HBase.Writable(tables, Utf8Encode(HBASE_HARV_TABLE)) && !HBase.FaultAt(faults, 1) && !HBase.FaultAt(later, 0)
      ensures var name, k := Utf8Encode(HBASE_HARV_TABLE), HBase.ToBytes(hid, true, bson, json);
        var e1 := HarvestRowEffect(tables, faults, hid, Str(warc));
        var e2 := HarvestRowEffect(e1.1, later, hid, warc2);
        && !e1.0 && HBase.RowFound(e1.1, later, name, k)
        && !e2.0 && e2.1 == e1.1
        && (!HBase.RowFound(tables, faults, name, k) ==>
              var d := HBase.EncodeRow(HarvestRowData(warc), PUT_DICT2BSON, bson, json);
              forall c :: c in d ==> c in e1.1[name].rows[k] && e1.1[name].rows[k][c] == d[c])
    {
      var name, k := Utf8Encode(HBASE_HARV_TABLE), HBase.ToBytes(hid, true, bson, json);
      if !HBase.RowFound(tables, faults, name, k) {
        var after := HBase.DropN(faults, 1);
        var d := HBase.EncodeRow(HarvestRowData(warc), PUT_DICT2BSON, bson, json);
        assert !HBase.FaultAt(after, 0);
        HBase.PutEffectSucceeds(tables, after, name, k, d, PUT_MAX_FAILS);
        HBase.PutEffectFound(tables, after, name, k, HarvestRowData(warc), PUT_DICT2BSON, bson, json, PUT_MAX_FAILS, later);
      }
    }

    /** The store after the write at the end of `_update_proc_status`: the
        process info is put into the process table under the process id,
        only when writing to storage. */
    function ProcessRowEffect(tables: map<HBase.Bytes, HBase.Table>, faults: seq<bool>, info: ODict)
      : (map<HBase.Bytes, HBase.Table>, seq<bool>)
    {
      if outputHbase then
        var e := HBase.PutEffect(tables, faults, Utf8Encode(HBASE_PROC_TABLE), HBase.ToBytes(Str(processId), true, bson, json),
                                 HBase.EncodeRow(info, PUT_DICT2BSON, bson, json), PUT_MAX_FAILS);
        (e.1, e.2)
      else (tables, faults)
    }

    /** In the storage-table mode, on an enabled process table whose first
        attempt does not fail, the process id's row afterwards holds every
        column of the process info; otherwise the tables stay as they
        were. */
    lemma ProcessRowWritten(tables: map<HBase.Bytes, HBase.Table>, faults: seq<bool>, info: ODict)
      ensures var name, k := Utf8Encode(HBASE_PROC_TABLE), HBase.ToBytes(Str(processId), true, bson, json);
        var t := ProcessRowEffect(tables, faults, info).0;
        var d := HBase.EncodeRow(info, PUT_DICT2BSON, bson, json);
        && (outputHbase && HBase.Writable(tables, name) && !HBase.FaultAt(faults, 0) ==>
              name in t && k in t[name].rows && forall c :: c in d ==> c in t[name].rows[k] && t[name].rows[k][c] == d[c])
        && (!outputHbase || !HBase.Writable(tables, name) ==> t == tables)
    {
      var name, k := Utf8Encode(HBASE_PROC_TABLE), HBase.ToBytes(Str(processId), true, bson, json);
      HBase.PutEffectSucceeds(tables, faults, name, k, HBase.EncodeRow(info, PUT_DICT2BSON, bson, json), PUT_MAX_FAILS);
    }

    /** The rows the records give, one by one. */
    function Results(rs: seq<Record>): (ys: seq<Option<seq<Value>>>)
      ensures |ys| == |rs|
    {
      if rs == [] then [] else Results(rs[..|rs| - 1]) + [RowOf(Expected(rs[|rs| - 1]))]
    }

    function Failures(rs: seq<Record>): nat
    {
      if rs == [] then 0 else Failures(rs[..|rs| - 1]) + FailCount(Expected(rs[|rs| - 1]))
    }

    /** What a record adds to the worker's harvest list: in the
        storage-table mode, the truthy harvest id of an admitted record
        that the process info's list `listed` does not hold. */
    function NewHarvest(listed: seq<Value>, record: Record): seq<Value>
    {
      var hid := Get(record, HARVESTID);
      if outputFormat == HBASE_TABLE && Admit(oracles, processIDs, record) == Pass && Truthy(hid) && hid !in listed
      then [hid] else []
    }

    function NewHarvests(listed: seq<Value>, rs: seq<Record>): seq<Value>
    {
      if rs == [] then [] else NewHarvests(listed, rs[..|rs| - 1]) + NewHarvest(listed, rs[|rs| - 1])
    }

    /** No entry's harvest check can raise. */
    predicate AllSafe(entries: seq<WarcEntry>)
    {
      forall i :: 0 <= i < |entries| ==> HarvestSafe(entries[i].record)
    }

    /** What the partitions give, one after another: the rows that survive
        the None filter, and the failures. */
    function AllRows(ps: seq<seq<WarcEntry>>): seq<seq<Value>>
    {
      if ps == [] then [] else AllRows(ps[..|ps| - 1]) + Somes(Results(EligibleRecords(ps[|ps| - 1])))
    }

    function AllFailures(ps: seq<seq<WarcEntry>>): nat
    {
      if ps == [] then 0 else AllFailures(ps[..|ps| - 1]) + Failures(EligibleRecords(ps[|ps| - 1]))
    }

    /** The driver's harvest list after the partitions: one worker list per
        partition, holding the new harvest ids of its records in order. */
    function AllHarvests(listed: seq<Value>, ps: seq<seq<WarcEntry>>): (hs: seq<seq<Value>>)
      ensures |hs| == |ps|
      ensures forall k :: 0 <= k < |ps| ==> hs[k] == NewHarvests(listed, EligibleRecords(ps[k]))
    {
      if ps == [] then []
      else
        var init := ps[..|ps| - 1];
        assert forall k :: 0 <= k < |init| ==> init[k] == ps[k];
        AllHarvests(listed, init) + [NewHarvests(listed, EligibleRecords(ps[|ps| - 1]))]
    }

    /** Every partition's entries can pass the harvest check. */
    predicate PartitionsSafe(ps: seq<seq<WarcEntry>>)
    {
      forall k :: 0 <= k < |ps| ==> AllSafe(ps[k])
    }

    /** The rows and failures of records read one after another are those
        of each part, in order. */
    lemma {:induction false} ResultsAppend(xs: seq<Record>, ys: seq<Record>)
      ensures Results(xs + ys) == Results(xs) + Results(ys)
      ensures Failures(xs + ys) == Failures(xs) + Failures(ys)
      decreases |ys|
    {
      if ys == [] {
        assert xs + ys == xs;
      } else {
        var init, last := ys[..|ys| - 1], ys[|ys| - 1];
        assert xs + ys == (xs + init) + [last];
        ResultsAppend(xs, init);
        ResultsSnoc(xs + init, last, []);
      }
    }

    /** How the WARC files are split into partitions changes neither the
        rows nor the failures: they are those of all the files' eligible
        records read one after another. */
    lemma {:induction false} AllRowsFlat(ps: seq<seq<WarcEntry>>)
      ensures AllRows(ps) == Somes(Results(EligibleRecords(Flatten(ps))))
      ensures AllFailures(ps) == Failures(EligibleRecords(Flatten(ps)))
      decreases |ps|
    {
      if ps != [] {
        var init, last := ps[..|ps| - 1], ps[|ps| - 1];
        AllRowsFlat(init);
        assert ps == init + [last];
        FlattenSnoc(init, last);
        EligibleRecordsAppend(Flatten(init), last);
        ResultsAppend(EligibleRecords(Flatten(init)), EligibleRecords(last));
        SomesAppend(Results(EligibleRecords(Flatten(init))), Results(EligibleRecords(last)));
      }
    }

    /** `_init`: the output format, the process info, the algorithm table
        (every name must be constructible), the allow-list, the storage
        tables when writing to them, and the output column names. */
    constructor(outputHbase: bool, outputTextfile: string, algseq: seq<(string, seq<string>)>,
                processIDs: set<string>, oracles: Oracles, constructible: string -> bool,
                store: HBase.Store, bson: Value -> Option<HBase.Bytes>, json: Value -> Option<string>,
                processId: string, tStarted: int, cmdArgs: string)
      requires GroupsKnown(algseq)
      requires forall a :: a in AllNames(algseq) ==> constructible(a)
      modifies store
      ensures Valid() && cache == map[] && !accumulatorsReady && nProcessed == 0 && nFailed == 0
      ensures this.outputHbase == outputHbase && outputFormat == OutputFormat(outputHbase, outputTextfile)
      ensures this.algseq == algseq && this.processIDs == processIDs && this.oracles == oracles
      ensures this.store == store && this.bson == bson && this.json == json && this.processId == processId
      ensures algorithms.Keys == AllNames(algseq)
      ensures Injective(algorithms)
      ensures processInfo == [("t_started", Int(tStarted)), ("cmd_args", Str(cmdArgs)),
                              ("harvests", List([])), ("application_id", Str(""))]
      ensures outputColNames == OUTPUT_SEPARATE_COLS + ["IF"]
      ensures fresh(taskHarvests) && fresh(harvests) && taskHarvests.value == [] && harvests.value == []
      ensures !outputHbase ==> unchanged(store)
      ensures outputHbase ==> store.faults == old(store.faults)
    {
      var table := InitAlgorithms(algseq, constructible);
      logger := "ArchiveProcessor";
      this.oracles := oracles;
      this.algseq := algseq;
      algorithms := table.value;
      this.processIDs := processIDs;
      this.outputHbase := outputHbase;
      outputFormat := OutputFormat(outputHbase, outputTextfile);
      outputColNames := OUTPUT_SEPARATE_COLS + ["IF"];
      this.processId := processId;
      this.store := store;
      this.bson := bson;
      this.json := json;
      taskHarvests := new ListAccumulator();
      harvests := new ListAccumulator();
      cache := map[];
      processInfo := [("t_started", Int(tStarted)), ("cmd_args", Str(cmdArgs)),
                      ("harvests", List([])), ("application_id", Str(""))];
      accumulatorsReady := false;
      nProcessed := 0;
      nFailed := 0;
      new;
      CheckStorageTables();
    }

    /** The table check at the end of `_init`, only when writing to
        storage. */
    method CheckStorageTables()
      modifies store
      ensures store.faults == old(store.faults)
      ensures !outputHbase ==> unchanged(store)
    {
      if outputHbase {
        var hb := new HBase.Client(HBASE_HOST, HBASE_PORT, store, bson, json);
        hb.CheckTables();
      }
    }

    /** `_get_algseq_for_MIMEtype`: a cached value is answered without
        matching; otherwise the groups are tried in order and the outcome,
        None included, is cached under the MIME value. */
    method GetAlgseqForMime(mime: Value) returns (r: Resolution)
      requires Valid()
      modifies this
      ensures Valid()
      ensures r == Resolve(oracles.mimeMatch, algseq, mime)
      ensures mime in old(cache) ==> cache == old(cache)
      ensures r.Chain? ==> cache == old(cache)[mime := r.algs]
      ensures r.Unresolvable? ==> cache == old(cache)
      ensures processInfo == old(processInfo) && accumulatorsReady == old(accumulatorsReady)
      ensures nProcessed == old(nProcessed) && nFailed == old(nFailed)
    {
      if !Hashable(mime) {
        return Unresolvable;
      }
      if mime in cache {
        return Chain(cache[mime]);
      }
      for i := 0 to |algseq|
        invariant mime.Str? || i == 0
        invariant mime.Str? ==> forall j :: 0 <= j < i ==> !GroupMatches(oracles.mimeMatch, algseq[j].0, mime.s)
      {
        if !mime.Str? {
          return Unresolvable;
        }
        var group := algseq[i].0;
        if oracles.mimeMatch(RECORD_MIME_TYPES[group], mime.s) {
          assert GroupMatches(oracles.mimeMatch, group, mime.s);
          cache := cache[mime := Some(algseq[i].1)];
          return Chain(Some(algseq[i].1));
        }
      }
      cache := cache[mime := None];
      return Chain(None);
    }

    /** The chain loop: each algorithm's `process` gets a copy of the
        current record, and its output is kept only if it validates
        without EXTRA. */
    method ApplyChain(names: seq<string>, record: Record) returns (r: Record)
      ensures r == RunChain(oracles, names, record)
    {
      r := record;
      for i := 0 to |names|
        invariant RunChain(oracles, names[i..], r) == RunChain(oracles, names, record)
      {
        assert names[i..][0] == names[i] && names[i..][1..] == names[i + 1..];
        var newRecord := Process(oracles.run(names[i]), r);
        if oracles.valid(WithoutExtra(newRecord.data)) {
          r := newRecord;
        }
      }
    }

    /** `_drop_unnecessary_fields`: deletes each field that is present. */
    method DropUnnecessaryFields(record: Record) returns (r: Record)
      ensures r == Pruned(record)
    {
      r := record;
      for i := 0 to |UNNECESSARY_FIELDS|
        invariant r.isRevisit == record.isRevisit
        invariant r.data == record.data - Elems(UNNECESSARY_FIELDS[..i])
      {
        assert Elems(UNNECESSARY_FIELDS[..i + 1]) == Elems(UNNECESSARY_FIELDS[..i]) + {UNNECESSARY_FIELDS[i]} by {
          assert UNNECESSARY_FIELDS[..i + 1] == UNNECESSARY_FIELDS[..i] + [UNNECESSARY_FIELDS[i]];
        }
        if UNNECESSARY_FIELDS[i] in r.data {
          r := Record(r.data - {UNNECESSARY_FIELDS[i]}, r.isRevisit);
        }
      }
      assert UNNECESSARY_FIELDS[..|UNNECESSARY_FIELDS|] == UNNECESSARY_FIELDS;
    }

    /** `decompose_record`: the key, then either EXTRA or the popped
        separate fields followed by the rest of the data. None when the
        key or EXTRA cannot be used. */
    method DecomposeRecord(record: Record) returns (cols: Option<seq<Value>>)
      ensures cols == OutputRow(outputFormat == RDD_TEXTFILE_EXTRA, record)
    {
      var key := RecordKey(Get(record, ID));
      if key.None? {
        return None;
      }
      if outputFormat == RDD_TEXTFILE_EXTRA {
        var extra := Get(record, EXTRA);
        if !extra.List? {
          return None;
        }
        return Some([Str(key.value)] + extra.items);
      }
      var sep, rest := SplitSeparateCols(record.data);
      return Some([Str(key.value)] + sep + [Dict(rest)]);
    }

    /** `_update_proc_status`: sets the status, the finishing time for a
        final status, and, when asked and the accumulators exist, the
        counters and the sorted, duplicate-free harvest list; then writes
        the process info to the process table when writing to storage.
        The harvest fold raises (`raised`) when an id is not a string. */
    method UpdateProcStatus(status: string, updateAccumulators: bool, now: int) returns (raised: bool)
      requires Valid()
      modifies this, store
      ensures Valid() && cache == old(cache) && accumulatorsReady == old(accumulatorsReady)
      ensures nProcessed == old(nProcessed) && nFailed == old(nFailed)
      ensures (processInfo, raised) ==
        UpdatedInfo(old(processInfo), status, now, updateAccumulators && accumulatorsReady, nProcessed, nFailed, harvests.value)
      ensures !outputHbase || raised ==> unchanged(store)
      ensures !raised ==> (store.tables, store.faults) == ProcessRowEffect(old(store.tables), old(store.faults), processInfo)
    {
      var next := UpdatedInfo(processInfo, status, now, updateAccumulators && accumulatorsReady, nProcessed, nFailed, harvests.value);
      processInfo, raised := next.0, next.1;
      if !raised {
        PutProcessInfo(processInfo);
      }
    }

    /** The write at the end of `_update_proc_status`: the process info
        goes to the process table under the process id, only when writing
        to storage. */
    method PutProcessInfo(info: ODict)
      modifies store
      ensures !outputHbase ==> unchanged(store)
      ensures (store.tables, store.faults) == ProcessRowEffect(old(store.tables), old(store.faults), info)
    {
      if outputHbase {
        var hb := new HBase.Client(HBASE_HOST, HBASE_PORT, store, bson, json);
        var ok := hb.Put(HBASE_PROC_TABLE, Str(processId), info, PUT_MAX_FAILS, PUT_DICT2BSON);
      }
    }

    /** The storage part of `_check_hbase_harvest_table`: unless the
        harvest table has a row for the id, one is put with the type and
        date parsed from the WARC file name ('' for each when it does not
        parse). `raised` when the row test comes back false and the name
        is not a string. */
    method PutHarvestRow(hid: Value, warc: Value) returns (raised: bool)
      modifies store
      ensures (raised, store.tables, store.faults) == HarvestRowEffect(old(store.tables), old(store.faults), hid, warc)
      ensures raised <==> !HBase.RowFound(old(store.tables), old(store.faults), Utf8Encode(HBASE_HARV_TABLE),
                                          HBase.ToBytes(hid, true, bson, json)) && !warc.Str?
    {
      var hb := new HBase.Client(HBASE_HOST, HBASE_PORT, store, bson, json);
      var has := hb.HasRow(HBASE_HARV_TABLE, hid);
      raised := false;
      if !has {
        if !warc.Str? {
          return true;
        }
        var ok := hb.Put(HBASE_HARV_TABLE, hid, HarvestRowData(warc.s), PUT_MAX_FAILS, PUT_DICT2BSON);
      }
    }

    /** `_check_hbase_harvest_table`: a truthy harvest id not yet listed in
        the process info gets a harvest row (type and date from the WARC
        file name, '' when it does not parse) unless the table has one,
        joins the worker's harvest list, and the running status is written.
        The process info's list is not refreshed here, so only the row
        test keeps a harvest from being written twice. `raised` when the
        file name is not a string. */
    method CheckHbaseHarvestTable(record: Record) returns (raised: bool)
      requires Valid()
      modifies this, store, taskHarvests
      ensures Valid() && cache == old(cache) && accumulatorsReady == old(accumulatorsReady)
      ensures nProcessed == old(nProcessed) && nFailed == old(nFailed)
      ensures var hid := Get(record, HARVESTID);
        !Truthy(hid) || hid in InfoHarvests(old(processInfo)) ==> !raised && unchanged(this, store, taskHarvests)
      ensures raised ==> !Get(record, WARCFILENAME).Str? && taskHarvests.value == old(taskHarvests.value)
      ensures var hid := Get(record, HARVESTID);
        !raised && Truthy(hid) && hid !in InfoHarvests(old(processInfo)) ==>
          && taskHarvests.value == old(taskHarvests.value) + [hid]
          && processInfo == Put(old(processInfo), "operation_status", Str(PROC_STATUS_RUNNING))
      ensures var hid := Get(record, HARVESTID);
        Truthy(hid) && hid !in InfoHarvests(old(processInfo)) ==>
          var h := HarvestRowEffect(old(store.tables), old(store.faults), hid, Get(record, WARCFILENAME));
          && raised == h.0
          && (raised ==> store.tables == h.1 && store.faults == h.2)
          && (!raised ==> (store.tables, store.faults) == ProcessRowEffect(h.1, h.2, processInfo))
      ensures InfoHarvests(processInfo) == InfoHarvests(old(processInfo))
    {
      var hid := Get(record, HARVESTID);
      if !Truthy(hid) || hid in InfoHarvests(processInfo) {
        return false;
      }
      raised := PutHarvestRow(hid, Get(record, WARCFILENAME));
      if raised {
        return;
      }
      taskHarvests.AddInPlace(hid);
      raised := UpdateProcStatus(PROC_STATUS_RUNNING, false, 0);
    }

    /** `process_record`. Turned away at admission, nothing changes; in
        the storage-table mode the harvest check runs before routing. */
    method ProcessRecord(record: Record) returns (res: RecordResult)
      requires Valid()
      modifies this, store, taskHarvests
      ensures Valid() && accumulatorsReady == old(accumulatorsReady)
      ensures nProcessed == old(nProcessed) && nFailed == old(nFailed)
      ensures Admit(oracles, processIDs, record) != Pass ==> res == Expected(record) && unchanged(this, store, taskHarvests)
      ensures HarvestSafe(record) ==> res == Expected(record)
      ensures res == Expected(record) || res == Failed
      ensures outputFormat != HBASE_TABLE ==> unchanged(store, taskHarvests) && processInfo == old(processInfo)
      ensures res.Saved? ==> |res.row| >= 1
      ensures InfoHarvests(processInfo) == InfoHarvests(old(processInfo))
      ensures HarvestSafe(record) ==>
        taskHarvests.value == old(taskHarvests.value) + NewHarvest(InfoHarvests(old(processInfo)), record)
    {
      var allowed := AllowList(processIDs, Get(record, ID));
      if allowed != Pass {
        return if allowed == Skip then Dropped else Failed;
      }
      var filtered := FilterVerdict(oracles.filterMatch, RECORD_FILTERS, record);
      if filtered != Pass {
        return if filtered == Skip then Dropped else Failed;
      }
      if !oracles.valid(WithoutExtra(record.data)) {
        return Dropped;
      }
      res := ProcessChecked(record);
    }

    /** `process_record` once the record is admitted: the harvest check in
        the storage-table mode, then routing. */
    method ProcessChecked(record: Record) returns (res: RecordResult)
      requires Valid() && Admit(oracles, processIDs, record) == Pass
      modifies this, store, taskHarvests
      ensures Valid() && accumulatorsReady == old(accumulatorsReady)
      ensures nProcessed == old(nProcessed) && nFailed == old(nFailed)
      ensures HarvestSafe(record) ==> res == Expected(record)
      ensures res == Expected(record) || res == Failed
      ensures outputFormat != HBASE_TABLE ==> unchanged(store, taskHarvests) && processInfo == old(processInfo)
      ensures res.Saved? ==> |res.row| >= 1
      ensures InfoHarvests(processInfo) == InfoHarvests(old(processInfo))
      ensures HarvestSafe(record) ==>
        taskHarvests.value == old(taskHarvests.value) + NewHarvest(InfoHarvests(old(processInfo)), record)
    {
      if outputFormat == HBASE_TABLE {
        var raised := CheckHbaseHarvestTable(record);
        if raised {
          return Failed;
        }
      }
      res := ProcessAdmitted(record);
    }

    /** The part of `process_record` after admission and the harvest
        check: route by MIME type, run the chain (none for a revisit),
        finish the record. Only the MIME cache changes. */
    method ProcessAdmitted(record: Record) returns (res: RecordResult)
      requires Valid()
      modifies this
      ensures Valid() && res == Processed(oracles, algseq, outputFormat == RDD_TEXTFILE_EXTRA, record)
      ensures processInfo == old(processInfo) && accumulatorsReady == old(accumulatorsReady)
      ensures nProcessed == old(nProcessed) && nFailed == old(nFailed)
      ensures res.Saved? ==> |res.row| >= 1
    {
      var resolution := GetAlgseqForMime(Or(Get(record, MIMETYPE), Str("")));
      if resolution.Unresolvable? {
        return Failed;
      }
      if resolution.algs.None? {
        return Dropped;
      }
      var names := if record.isRevisit then [] else resolution.algs.value;
      var out := ApplyChain(names, record);
      res := FinishRecord(out);
    }

    /** The end of `process_record`: a record without a dict of HTTP
        headers fails; otherwise the unneeded fields go and the row is
        built. */
    method FinishRecord(out: Record) returns (res: RecordResult)
      ensures res == Finish(outputFormat == RDD_TEXTFILE_EXTRA, out)
      ensures res.Saved? ==> |res.row| >= 1
    {
      if !Get(out, RECHEADERS).Dict? {
        return Failed;
      }
      var pruned := DropUnnecessaryFields(out);
      var cols := DecomposeRecord(pruned);
      if cols.None? {
        return Failed;
      }
      RowShapes(outputFormat == RDD_TEXTFILE_EXTRA, pruned);
      return Saved(cols.value);
    }

    /** `_process_record_catch_errors`: an exception counts one failure
        and gives None; a skipped record counts nothing. */
    method ProcessRecordCatchErrors(record: Record) returns (row: Option<seq<Value>>)
      requires Valid()
      modifies this, store, taskHarvests
      ensures Valid() && accumulatorsReady == old(accumulatorsReady) && nProcessed == old(nProcessed)
      ensures HarvestSafe(record) ==> row == RowOf(Expected(record)) && nFailed == old(nFailed) + FailCount(Expected(record))
      ensures nFailed == old(nFailed) || (nFailed == old(nFailed) + 1 && row.None?)
      ensures Admit(oracles, processIDs, record) == Skip ==> nFailed == old(nFailed) && row.None?
      ensures row.Some? ==> |row.value| >= 1
      ensures InfoHarvests(processInfo) == InfoHarvests(old(processInfo))
      ensures HarvestSafe(record) ==>
        taskHarvests.value == old(taskHarvests.value) + NewHarvest(InfoHarvests(old(processInfo)), record)
    {
      var res := ProcessRecord(record);
      if res.Failed? {
        nFailed := nFailed + 1;
        return None;
      }
      row := RowOf(res);
    }

    /** One entry of `process_warc_partition`: `skipped` for another
        WARC-Type or too long a content; otherwise the record gets its
        offset and is processed. */
    method ProcessEntry(e: WarcEntry) returns (skipped: bool, row: Option<seq<Value>>)
      requires Valid()
      modifies this, store, taskHarvests
      ensures Valid() && accumulatorsReady == old(accumulatorsReady) && nProcessed == old(nProcessed)
      ensures skipped <==> !Eligible(e)
      ensures skipped ==> nFailed == old(nFailed)
      ensures nFailed >= old(nFailed) && (row.Some? ==> |row.value| >= 1)
      ensures var record := Set(e.record, WARCOFFSET, Int(e.offset));
        !skipped && HarvestSafe(e.record) ==>
          && row == RowOf(Expected(record)) && nFailed == old(nFailed) + FailCount(Expected(record))
          && taskHarvests.value == old(taskHarvests.value) + NewHarvest(InfoHarvests(old(processInfo)), record)
      ensures skipped ==> taskHarvests.value == old(taskHarvests.value)
      ensures InfoHarvests(processInfo) == InfoHarvests(old(processInfo))
    {
      if e.warcType.None? || e.warcType.value !in RECORD_TYPES || e.length > MAX_ALLOWED_WARC_CONTENT_SIZE {
        return true, None;
      }
      var record := Set(e.record, WARCOFFSET, Int(e.offset));
      assert Get(record, WARCFILENAME) == Get(e.record, WARCFILENAME);
      skipped := false;
      row := ProcessRecordCatchErrors(record);
    }

    /** One more record adds its row and its failure to those before. */
    lemma ResultsSnoc(rs: seq<Record>, record: Record, listed: seq<Value>)
      ensures Results(rs + [record]) == Results(rs) + [RowOf(Expected(record))]
      ensures Failures(rs + [record]) == Failures(rs) + FailCount(Expected(record))
      ensures NewHarvests(listed, rs + [record]) == NewHarvests(listed, rs) + NewHarvest(listed, record)
    {
      assert (rs + [record])[..|rs|] == rs;
    }

    /** The per-record loop of `process_warc_partition`: the eligible
        records are processed in file order. */
    method ProcessWarcPartition(entries: seq<WarcEntry>) returns (yielded: seq<Option<seq<Value>>>)
      requires Valid()
      modifies this, store, taskHarvests
      ensures Valid() && accumulatorsReady == old(accumulatorsReady) && nProcessed == old(nProcessed)
      ensures |yielded| == |EligibleRecords(entries)| && nFailed >= old(nFailed)
      ensures RowsNonEmpty(yielded)
      ensures InfoHarvests(processInfo) == InfoHarvests(old(processInfo))
      ensures AllSafe(entries) ==>
        && yielded == Results(EligibleRecords(entries)) && nFailed == old(nFailed) + Failures(EligibleRecords(entries))
        && taskHarvests.value == old(taskHarvests.value) + NewHarvests(InfoHarvests(old(processInfo)), EligibleRecords(entries))
    {
      ghost var safe := AllSafe(entries);
      ghost var listed := InfoHarvests(processInfo);
      ghost var rs: seq<Record> := [];
      yielded := [];
      for i := 0 to |entries|
        invariant Valid() && accumulatorsReady == old(accumulatorsReady) && nProcessed == old(nProcessed)
        invariant rs == EligibleRecords(entries[..i]) && InfoHarvests(processInfo) == listed
        invariant |yielded| == |rs| && nFailed >= old(nFailed) && RowsNonEmpty(yielded)
        invariant safe ==> yielded == Results(rs) && nFailed == old(nFailed) + Failures(rs)
        invariant safe ==> taskHarvests.value == old(taskHarvests.value) + NewHarvests(listed, rs)
      {
        assert entries[..i + 1] == entries[..i] + [entries[i]];
        yielded, rs := PartitionStep(entries[i], entries[..i], yielded, rs, safe, old(nFailed), listed, old(taskHarvests.value));
      }
      assert entries[..|entries|] == entries;
    }

    /** One entry of the loop of `process_warc_partition`: an eligible
        record adds its row, and, when its harvest check cannot raise,
        the row, the failure count and the harvest id the record gives. */
    method PartitionStep(e: WarcEntry, ghost before: seq<WarcEntry>, yielded: seq<Option<seq<Value>>>,
                         ghost rs: seq<Record>, ghost safe: bool, ghost base: nat,
                         ghost listed: seq<Value>, ghost baseHarvests: seq<Value>)
        returns (yielded': seq<Option<seq<Value>>>, ghost rs': seq<Record>)
      requires Valid() && rs == EligibleRecords(before) && |yielded| == |rs| && RowsNonEmpty(yielded)
      requires nFailed >= base && InfoHarvests(processInfo) == listed
      requires safe ==> HarvestSafe(e.record) && yielded == Results(rs) && nFailed == base + Failures(rs)
      requires safe ==> taskHarvests.value == baseHarvests + NewHarvests(listed, rs)
      modifies this, store, taskHarvests
      ensures Valid() && accumulatorsReady == old(accumulatorsReady) && nProcessed == old(nProcessed)
      ensures rs' == EligibleRecords(before + [e]) && InfoHarvests(processInfo) == listed
      ensures |yielded'| == |rs'| && nFailed >= base && RowsNonEmpty(yielded')
      ensures safe ==> yielded' == Results(rs') && nFailed == base + Failures(rs')
      ensures safe ==> taskHarvests.value == baseHarvests + NewHarvests(listed, rs')
    {
      ghost var record := Set(e.record, WARCOFFSET, Int(e.offset));
      EligibleRecordsSnoc(before, e);
      var skipped, row := ProcessEntry(e);
      if skipped {
        yielded', rs' := yielded, rs;
      } else {
        ResultsSnoc(rs, record, listed);
        yielded', rs' := yielded + [row], rs + [record];
      }
    }

    /** `process_warc_files` without the file system: fresh counters and
        harvest list, one partition after another, each worker's harvest
        list merged into the driver's, and the None results filtered
        out. */
    method ProcessWarcFiles(partitions: seq<seq<WarcEntry>>) returns (rows: seq<seq<Value>>)
      requires Valid()
      modifies this, store, taskHarvests, harvests
      ensures Valid() && accumulatorsReady && nProcessed == 0
      ensures |harvests.value| == |partitions|
      ensures forall r :: r in rows ==> |r| >= 1
      ensures InfoHarvests(processInfo) == InfoHarvests(old(processInfo))
      ensures PartitionsSafe(partitions) ==>
        && rows == AllRows(partitions) && nFailed == AllFailures(partitions)
        && harvests.value == AllHarvests(InfoHarvests(old(processInfo)), partitions)
    {
      ghost var safe := PartitionsSafe(partitions);
      ghost var listed := InfoHarvests(processInfo);
      nProcessed := 0;
      nFailed := 0;
      harvests.value := [];
      accumulatorsReady := true;
      rows := [];
      for k := 0 to |partitions|
        invariant Valid() && accumulatorsReady && nProcessed == 0
        invariant |harvests.value| == k && InfoHarvests(processInfo) == listed
        invariant forall r :: r in rows ==> |r| >= 1
        invariant safe ==> rows == AllRows(partitions[..k]) && nFailed == AllFailures(partitions[..k])
        invariant safe ==> harvests.value == AllHarvests(listed, partitions[..k])
      {
        AllRowsStep(partitions, k, listed);
        var kept := RunPartition(partitions[k]);
        rows := rows + kept;
      }
      assert partitions[..|partitions|] == partitions;
    }

    /** One more partition adds its rows and failures to those before. */
    lemma AllRowsStep(ps: seq<seq<WarcEntry>>, k: nat, listed: seq<Value>)
      requires k < |ps|
      ensures AllRows(ps[..k + 1]) == AllRows(ps[..k]) + Somes(Results(EligibleRecords(ps[k])))
      ensures AllFailures(ps[..k + 1]) == AllFailures(ps[..k]) + Failures(EligibleRecords(ps[k]))
      ensures AllHarvests(listed, ps[..k + 1]) == AllHarvests(listed, ps[..k]) + [NewHarvests(listed, EligibleRecords(ps[k]))]
    {
      assert ps[..k + 1][..k] == ps[..k];
    }

    /** One partition of `process_warc_files`: the worker's harvest list
        starts empty, the partition is processed, the None results are
        dropped and the worker's list joins the driver's. */
    method RunPartition(entries: seq<WarcEntry>) returns (kept: seq<seq<Value>>)
      requires Valid()
      modifies this, store, taskHarvests, harvests
      ensures Valid() && accumulatorsReady == old(accumulatorsReady) && nProcessed == old(nProcessed)
      ensures InfoHarvests(processInfo) == InfoHarvests(old(processInfo))
      ensures harvests.value == old(harvests.value) + [taskHarvests.value]
      ensures forall r :: r in kept ==> |r| >= 1
      ensures AllSafe(entries) ==>
        && kept == Somes(Results(EligibleRecords(entries))) && nFailed == old(nFailed) + Failures(EligibleRecords(entries))
        && taskHarvests.value == NewHarvests(InfoHarvests(old(processInfo)), EligibleRecords(entries))
    {
      taskHarvests.value := [];
      var yielded := ProcessWarcPartition(entries);
      kept := Somes(yielded);
      harvests.AddInPlace(taskHarvests.value);
    }

    /** `_save_partition_happybase`: each row's key is taken off, the rest
        is named by the output columns and put; a successful put counts a
        processed record, a failed one a failure. */
    method SavePartitionHappybase(rows: seq<seq<Value>>) returns (ghost saved: seq<bool>)
      requires Valid()
      requires forall i :: 0 <= i < |rows| ==> |rows[i]| >= 1
      modifies this, store
      ensures Valid() && cache == old(cache) && processInfo == old(processInfo)
      ensures accumulatorsReady == old(accumulatorsReady)
      ensures |saved| == |rows|
      ensures nProcessed == old(nProcessed) + Count(saved, true)
      ensures nFailed == old(nFailed) + Count(saved, false)
      ensures nProcessed + nFailed == old(nProcessed) + old(nFailed) + |rows|
      ensures (saved, store.tables, store.faults) == SaveAll(old(store.tables), old(store.faults), outputColNames, rows, bson, json)
    {
      var hb := new HBase.Client(HBASE_HOST, HBASE_PORT, store, bson, json);
      ghost var t0, f0 := store.tables, store.faults;
      saved := [];
      for i := 0 to |rows|
        invariant hb.Valid() && hb.store == store && hb.bson == bson && hb.json == json
        invariant Valid() && cache == old(cache) && processInfo == old(processInfo)
        invariant accumulatorsReady == old(accumulatorsReady)
        invariant |saved| == i
        invariant nProcessed == old(nProcessed) + Count(saved, true)
        invariant nFailed == old(nFailed) + Count(saved, false)
        invariant (saved, store.tables, store.faults) == SaveAll(t0, f0, outputColNames, rows[..i], bson, json)
      {
        SaveAllStep(t0, f0, outputColNames, rows, i, bson, json);
        var ok := SaveCounted(hb, rows[i]);
        assert (saved + [ok])[..|saved|] == saved;
        saved := saved + [ok];
      }
      CountSplits(saved);
      assert rows[..|rows|] == rows;
    }

    /** One row of `_save_partition_happybase`: the put, then the counter
        it moves. */
    method SaveCounted(hb: HBase.Client, row: seq<Value>) returns (ok: bool)
      requires Valid() && hb.Valid() && hb.store == store && hb.bson == bson && hb.json == json && |row| >= 1
      modifies this, hb, store
      ensures Valid() && hb.Valid() && cache == old(cache) && processInfo == old(processInfo)
      ensures accumulatorsReady == old(accumulatorsReady)
      ensures (ok, store.tables, store.faults) == SaveOne(old(store.tables), old(store.faults), outputColNames, row, bson, json)
      ensures nProcessed == old(nProcessed) + (if ok then 1 else 0) && nFailed == old(nFailed) + (if ok then 0 else 1)
    {
      ok := SaveRow(hb, outputColNames, row);
      if ok {
        nProcessed := nProcessed + 1;
      } else {
        nFailed := nFailed + 1;
      }
    }
  }

  /** The store after one row of `_save_partition_happybase`: whether the
      put into the main table succeeded, then the tables and the failure
      oracle. The key is the row's first value, the data the rest named by
      `names`. */
  function SaveOne(tables: map<HBase.Bytes, HBase.Table>, faults: seq<bool>, names: seq<string>, row: seq<Value>,
                   bson: Value -> Option<HBase.Bytes>, json: Value -> Option<string>)
    : (bool, map<HBase.Bytes, HBase.Table>, seq<bool>)
    requires |row| >= 1
  {
    HBase.PutEffect(tables, faults, Utf8Encode(HBASE_MAIN_TABLE), HBase.ToBytes(row[0], true, bson, json),
                    HBase.EncodeRow(Zip(names, row[1..]), PUT_DICT2BSON, bson, json), PUT_MAX_FAILS)
  }

  /** The store after the rows of a partition are saved in order: which
      puts succeeded, then the tables and the failure oracle. */
  function SaveAll(tables: map<HBase.Bytes, HBase.Table>, faults: seq<bool>, names: seq<string>, rows: seq<seq<Value>>,
                   bson: Value -> Option<HBase.Bytes>, json: Value -> Option<string>)
    : (r: (seq<bool>, map<HBase.Bytes, HBase.Table>, seq<bool>))
    requires forall i :: 0 <= i < |rows| ==> |rows[i]| >= 1
    ensures |r.0| == |rows|
  {
    if rows == [] then ([], tables, faults)
    else
      var before := SaveAll(tables, faults, names, rows[..|rows| - 1], bson, json);
      var last := SaveOne(before.1, before.2, names, rows[|rows| - 1], bson, json);
      (before.0 + [last.0], last.1, last.2)
  }

  /** One more row is saved after those before it. */
  lemma SaveAllStep(tables: map<HBase.Bytes, HBase.Table>, faults: seq<bool>, names: seq<string>, rows: seq<seq<Value>>,
                    i: nat, bson: Value -> Option<HBase.Bytes>, json: Value -> Option<string>)
    requires forall j :: 0 <= j < |rows| ==> |rows[j]| >= 1
    requires i < |rows|
    ensures var before := SaveAll(tables, faults, names, rows[..i], bson, json);
      var last := SaveOne(before.1, before.2, names, rows[i], bson, json);
      SaveAll(tables, faults, names, rows[..i + 1], bson, json) == (before.0 + [last.0], last.1, last.2)
  {
    assert rows[..i + 1][..i] == rows[..i];
  }

  /** Saving a partition touches only the main table. */
  lemma {:induction false} SaveAllOtherTables(tables: map<HBase.Bytes, HBase.Table>, faults: seq<bool>, names: seq<string>,
                                              rows: seq<seq<Value>>, bson: Value -> Option<HBase.Bytes>, json: Value -> Option<string>)
    requires forall i :: 0 <= i < |rows| ==> |rows[i]| >= 1
    ensures var t := SaveAll(tables, faults, names, rows, bson, json).1;
      t.Keys == tables.Keys && forall n :: n in tables && n != Utf8Encode(HBASE_MAIN_TABLE) ==> t[n] == tables[n]
  {
    if rows != [] {
      SaveAllOtherTables(tables, faults, names, rows[..|rows| - 1], bson, json);
    }
  }

  /** Every row whose put succeeded has its key in the main table
      afterwards, whatever the later rows do. */
  lemma {:induction false} SaveAllSavedPresent(tables: map<HBase.Bytes, HBase.Table>, faults: seq<bool>, names: seq<string>,
                                               rows: seq<seq<Value>>, bson: Value -> Option<HBase.Bytes>, json: Value -> Option<string>,
                                               i: nat)
    requires forall j :: 0 <= j < |rows| ==> |rows[j]| >= 1
    requires i < |rows| && SaveAll(tables, faults, names, rows, bson, json).0[i]
    ensures var t := SaveAll(tables, faults, names, rows, bson, json).1;
      Utf8Encode(HBASE_MAIN_TABLE) in t && HBase.ToBytes(rows[i][0], true, bson, json) in t[Utf8Encode(HBASE_MAIN_TABLE)].rows
  {
    var init := rows[..|rows| - 1];
    var before := SaveAll(tables, faults, names, init, bson, json);
    var last := SaveOne(before.1, before.2, names, rows[|rows| - 1], bson, json);
    assert SaveAll(tables, faults, names, rows, bson, json) == (before.0 + [last.0], last.1, last.2);
    SaveOneKeepsRows(before.1, before.2, names, rows[|rows| - 1], bson, json);
    if i < |init| {
      assert before.0[i] && rows[i] == init[i];
      SaveAllSavedPresent(tables, faults, names, init, bson, json, i);
    }
  }

  /** One put keeps every row of the main table and, when it succeeds,
      adds the row's key. */
  lemma SaveOneKeepsRows(tables: map<HBase.Bytes, HBase.Table>, faults: seq<bool>, names: seq<string>, row: seq<Value>,
                         bson: Value -> Option<HBase.Bytes>, json: Value -> Option<string>)
    requires |row| >= 1
    ensures var main, r := Utf8Encode(HBASE_MAIN_TABLE), SaveOne(tables, faults, names, row, bson, json);
      && (main in tables ==> main in r.1 && tables[main].rows.Keys <= r.1[main].rows.Keys)
      && (r.0 ==> main in r.1 && HBase.ToBytes(row[0], true, bson, json) in r.1[main].rows)
  {
  }

  /** On an enabled main table and a store that never fails, every put
      succeeds. */
  lemma {:induction false} SaveAllReliable(tables: map<HBase.Bytes, HBase.Table>, faults: seq<bool>, names: seq<string>,
                                           rows: seq<seq<Value>>, bson: Value -> Option<HBase.Bytes>, json: Value -> Option<string>)
    requires forall i :: 0 <= i < |rows| ==> |rows[i]| >= 1
    requires HBase.Writable(tables, Utf8Encode(HBASE_MAIN_TABLE)) && forall j: nat :: !HBase.FaultAt(faults, j)
    ensures var r := SaveAll(tables, faults, names, rows, bson, json);
      && (forall i :: 0 <= i < |rows| ==> r.0[i])
      && HBase.Writable(r.1, Utf8Encode(HBASE_MAIN_TABLE)) && forall j: nat :: !HBase.FaultAt(r.2, j)
  {
    if rows != [] {
      var init := rows[..|rows| - 1];
      SaveAllReliable(tables, faults, names, init, bson, json);
      var before := SaveAll(tables, faults, names, init, bson, json);
      var row := rows[|rows| - 1];
      HBase.PutEffectSucceeds(before.1, before.2, Utf8Encode(HBASE_MAIN_TABLE), HBase.ToBytes(row[0], true, bson, json),
                              HBase.EncodeRow(Zip(names, row[1..]), PUT_DICT2BSON, bson, json), PUT_MAX_FAILS);
      assert !HBase.FaultAt(before.2, 0);
    }
  }

  /** One row of `_save_partition_happybase`: the first value is the key,
      the rest is named by the output columns and put into the main table. */
  method SaveRow(hb: HBase.Client, names: seq<string>, row: seq<Value>) returns (ok: bool)
    requires hb.Valid() && |row| >= 1
    modifies hb, hb.store
    ensures hb.Valid()
    ensures (ok, hb.store.tables, hb.store.faults) == SaveOne(old(hb.store.tables), old(hb.store.faults), names, row, hb.bson, hb.json)
  {
    ok := hb.Put(HBASE_MAIN_TABLE, row[0], Zip(names, row[1..]), PUT_MAX_FAILS, PUT_DICT2BSON);
  }

  /** Every row a partition yields has at least its key. */
  predicate RowsNonEmpty(ys: seq<Option<seq<Value>>>)
  {
    forall i :: 0 <= i < |ys| && ys[i].Some? ==> |ys[i].value| >= 1
  }

  /** Each entry is counted on exactly one side. */
  lemma {:induction false} CountSplits(bs: seq<bool>)
    ensures Count(bs, true) + Count(bs, false) == |bs|
  {
    if bs != [] {
      CountSplits(bs[..|bs| - 1]);
    }
  }
}
