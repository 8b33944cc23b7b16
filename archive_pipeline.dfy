/** The decision rules of the per-record pipeline, as functions of the
    record: admission (allow-list, metadata filters, schema), routing of a
    MIME type to its algorithm chain, the chain with its rollback, pruning,
    the row key and the two output row shapes, the `group:alg1,alg2`
    argument parser, the partition skip rules and the harvest-list fold. */
module ArchivePipeline {
  import opened Common
  import opened PyStr
  import opened Config
  import opened BaseAlgorithms

  /** The foreign parts the pipeline consults, as uninterpreted functions:
      `filterMatch(p, v)` is `re.match(p, v)` succeeding, `mimeMatch(p, m)`
      is `re.match(p, m, re.I)` succeeding, `valid(d)` is schema validation
      of `d` not raising, and `run(n)` is the `_process` of the algorithm
      class named `n`. */
  datatype Oracles = Oracles(
    filterMatch: (string, string) -> bool,
    mimeMatch: (string, string) -> bool,
    valid: map<string, Value> -> bool,
    run: string -> (Record -> Outcome))

  // ---------------------------------------------------------------------
  // Admission

  /** How a check ends: the record goes on, is skipped (the check returns
      None), or the check raises an exception other than the one it
      handles. */
  datatype Verdict = Pass | Skip | Fail

  /** The record's fields without EXTRA, as handed to the validator. */
  function WithoutExtra(data: map<string, Value>): (d: map<string, Value>)
    ensures d.Keys == data.Keys - {EXTRA}
    ensures forall k :: k in d ==> d[k] == data[k]
  {
    data - {EXTRA}
  }

  /** Whether a value can be a set member or a dict key. */
  predicate Hashable(v: Value)
  {
    !v.List? && !v.Dict?
  }

  /** The allow-list test: an empty list admits every record; otherwise the
      ID must be listed, and an unhashable ID makes the membership test
      raise. */
  function AllowList(processIDs: set<string>, id: Value): (v: Verdict)
    ensures v == Pass <==> processIDs == {} || (id.Str? && id.s in processIDs)
    ensures v == Fail <==> processIDs != {} && !Hashable(id)
  {
    if processIDs == {} then Pass
    else if !Hashable(id) then Fail
    else if id.Str? && id.s in processIDs then Pass
    else Skip
  }

  /** The value a filter looks at: the field, or '' when it is falsy. */
  function FilterValue(record: Record, field: string): Value
  {
    Or(Get(record, field), Str(""))
  }

  /** One metadata filter holds: the value is a string its pattern
      matches. */
  predicate Passes(filterMatch: (string, string) -> bool, filter: (string, string), record: Record)
  {
    FilterValue(record, filter.0).Str? && filterMatch(filter.1, FilterValue(record, filter.0).s)
  }

  /** `_record_check_filters` as seen by its caller: the first filter whose
      value is not a string makes `re.match` raise TypeError, which the
      caller does not handle; the first one that does not match raises the
      ValueError that makes the caller skip the record. */
  function FilterVerdict(filterMatch: (string, string) -> bool, filters: seq<(string, string)>, record: Record): (v: Verdict)
    ensures v == Pass <==> forall i :: 0 <= i < |filters| ==> Passes(filterMatch, filters[i], record)
    ensures v != Pass ==> exists i :: (0 <= i < |filters| && !Passes(filterMatch, filters[i], record)
      && (forall j :: 0 <= j < i ==> Passes(filterMatch, filters[j], record))
      && (v == Fail <==> !FilterValue(record, filters[i].0).Str?))
  {
    if filters == [] then Pass
    else
      var val := FilterValue(record, filters[0].0);
      if !val.Str? then Fail
      else if !filterMatch(filters[0].1, val.s) then Skip
      else
        var v := FilterVerdict(filterMatch, filters[1..], record);
        assert forall i :: 1 <= i < |filters| ==> filters[i] == filters[1..][i - 1];
        if v != Pass then
          var i :| (0 <= i < |filters| - 1 && !Passes(filterMatch, filters[1..][i], record)
            && (forall j :: 0 <= j < i ==> Passes(filterMatch, filters[1..][j], record))
            && (v == Fail <==> !FilterValue(record, filters[1..][i].0).Str?));
          assert !Passes(filterMatch, filters[i + 1], record);
          v
        else v
  }

  /** The three admission checks in order: allow-list, metadata filters,
      then schema validation of the record without EXTRA, whose failure
      only skips the record. */
  function Admit(o: Oracles, processIDs: set<string>, record: Record): Verdict
  {
    var a := AllowList(processIDs, Get(record, ID));
    if a != Pass then a
    else
      var f := FilterVerdict(o.filterMatch, RECORD_FILTERS, record);
      if f != Pass then f
      else if o.valid(WithoutExtra(record.data)) then Pass
      else Skip
  }

  /** A record is admitted exactly when it is allowed, passes every filter
      and validates without EXTRA. */
  lemma AdmitPassIff(o: Oracles, processIDs: set<string>, record: Record)
    ensures Admit(o, processIDs, record) == Pass <==>
      && (processIDs == {} || (Get(record, ID).Str? && Get(record, ID).s in processIDs))
      && (forall i :: 0 <= i < |RECORD_FILTERS| ==> Passes(o.filterMatch, RECORD_FILTERS[i], record))
      && o.valid(WithoutExtra(record.data))
  {
  }

  /** A record that is listed and passes the filters but fails validation
      is skipped, never counted as an error. */
  lemma InvalidRecordIsSkipped(o: Oracles, processIDs: set<string>, record: Record)
    requires AllowList(processIDs, Get(record, ID)) == Pass
    requires FilterVerdict(o.filterMatch, RECORD_FILTERS, record) == Pass
    requires !o.valid(WithoutExtra(record.data))
    ensures Admit(o, processIDs, record) == Skip
  {
  }

  /** An empty allow-list filters nothing: it behaves like a list naming
      the record's own ID. */
  lemma EmptyAllowListFiltersNothing(o: Oracles, record: Record, id: string)
    requires Get(record, ID) == Str(id)
    ensures Admit(o, {}, record) == Admit(o, {id}, record)
  {
  }

  /** With the configured filter, a record whose response code is absent or
      not a string never passes: the former is skipped as '', the latter
      makes the check raise. */
  lemma ResponseCodeFilter(o: Oracles, record: Record)
    ensures !Get(record, RESPONSECODE).Str? && Truthy(Get(record, RESPONSECODE)) ==>
      FilterVerdict(o.filterMatch, RECORD_FILTERS, record) == Fail
    ensures !Truthy(Get(record, RESPONSECODE)) ==>
      FilterVerdict(o.filterMatch, RECORD_FILTERS, record) ==
        (if o.filterMatch(RECORD_FILTERS[0].1, "") then Pass else Skip)
  {
  }

  // ---------------------------------------------------------------------
  // Routing a MIME type to its chain

  /** Every group of the chain list is a configured MIME-type group. */
  predicate GroupsKnown(algseq: seq<(string, seq<string>)>)
  {
    forall i :: 0 <= i < |algseq| ==> algseq[i].0 in RECORD_MIME_TYPES
  }

  /** The group's pattern matches the MIME type, ignoring case. */
  predicate GroupMatches(mimeMatch: (string, string) -> bool, group: string, mime: string)
  {
    group in RECORD_MIME_TYPES && mimeMatch(RECORD_MIME_TYPES[group], mime)
  }

  /** The chain of the first group, in order, whose pattern matches. */
  function FirstChain(mimeMatch: (string, string) -> bool, algseq: seq<(string, seq<string>)>, mime: string): (r: Option<seq<string>>)
    ensures r.None? <==> forall i :: 0 <= i < |algseq| ==> !GroupMatches(mimeMatch, algseq[i].0, mime)
    ensures r.Some? ==> exists i :: (0 <= i < |algseq| && GroupMatches(mimeMatch, algseq[i].0, mime)
      && r.value == algseq[i].1
      && forall j :: 0 <= j < i ==> !GroupMatches(mimeMatch, algseq[j].0, mime))
  {
    if algseq == [] then None
    else if GroupMatches(mimeMatch, algseq[0].0, mime) then Some(algseq[0].1)
    else
      var r := FirstChain(mimeMatch, algseq[1..], mime);
      assert forall i :: 1 <= i < |algseq| ==> algseq[i] == algseq[1..][i - 1];
      if r.Some? then
        var i :| (0 <= i < |algseq| - 1 && GroupMatches(mimeMatch, algseq[1..][i].0, mime)
          && r.value == algseq[1..][i].1
          && forall j :: 0 <= j < i ==> !GroupMatches(mimeMatch, algseq[1..][j].0, mime));
        assert GroupMatches(mimeMatch, algseq[i + 1].0, mime);
        r
      else r
  }

  /** What looking a MIME value up yields: an exception (an unhashable
      value cannot be a cache key; a non-string one makes `re.match` raise
      once there is a group to try), or the chain, None meaning the type is
      not processed. */
  datatype Resolution = Unresolvable | Chain(algs: Option<seq<string>>)

  function Resolve(mimeMatch: (string, string) -> bool, algseq: seq<(string, seq<string>)>, mime: Value): (r: Resolution)
    ensures r.Unresolvable? <==> !Hashable(mime) || (!mime.Str? && algseq != [])
    ensures mime.Str? ==> r == Chain(FirstChain(mimeMatch, algseq, mime.s))
  {
    if !Hashable(mime) then Unresolvable
    else if mime.Str? then Chain(FirstChain(mimeMatch, algseq, mime.s))
    else if algseq == [] then Chain(None)
    else Unresolvable
  }

  /** With no chain configured, no MIME type is processed. */
  lemma NoChainsNoProcessing(mimeMatch: (string, string) -> bool, mime: Value)
    requires Hashable(mime)
    ensures Resolve(mimeMatch, [], mime) == Chain(None)
  {
  }

  /** Only the first matching group counts: groups after it are never
      consulted. */
  lemma FirstGroupWins(mimeMatch: (string, string) -> bool, algseq: seq<(string, seq<string>)>,
                       more: seq<(string, seq<string>)>, mime: string)
    requires FirstChain(mimeMatch, algseq, mime).Some?
    ensures FirstChain(mimeMatch, algseq + more, mime) == FirstChain(mimeMatch, algseq, mime)
    decreases |algseq|
  {
    if !GroupMatches(mimeMatch, algseq[0].0, mime) {
      assert (algseq + more)[1..] == algseq[1..] + more;
      FirstGroupWins(mimeMatch, algseq[1..], more, mime);
    }
  }

  // ---------------------------------------------------------------------
  // The chain

  /** One algorithm on a copy of the record: its output (what it returned,
      or its half-changed copy when it raised) replaces the record only if
      it validates without EXTRA. */
  function Step(o: Oracles, name: string, record: Record): Record
  {
    var out := Process(o.run(name), record);
    if o.valid(WithoutExtra(out.data)) then out else record
  }

  /** The chain loop: each algorithm works on what its predecessors left. */
  function RunChain(o: Oracles, names: seq<string>, record: Record): Record
    decreases |names|
  {
    if names == [] then record else RunChain(o, names[1..], Step(o, names[0], record))
  }

  /** An output that fails validation is ignored: the next algorithm gets
      the record as it was before. */
  lemma StepRollsBack(o: Oracles, name: string, record: Record)
    requires !o.valid(WithoutExtra(Process(o.run(name), record).data))
    ensures Step(o, name, record) == record
  {
  }

  /** An algorithm that raises after changing its copy still hands the
      changed copy on, and that copy is accepted when it validates. */
  lemma RaisedCopyIsValidated(o: Oracles, name: string, record: Record, partial: Record)
    requires o.run(name)(record) == Raised(partial)
    ensures o.valid(WithoutExtra(partial.data)) ==> Step(o, name, record) == partial
    ensures !o.valid(WithoutExtra(partial.data)) ==> Step(o, name, record) == record
  {
  }

  /** The chain never leaves a valid record invalid. */
  lemma {:induction false} ChainKeepsValid(o: Oracles, names: seq<string>, record: Record)
    requires o.valid(WithoutExtra(record.data))
    ensures o.valid(WithoutExtra(RunChain(o, names, record).data))
    decreases |names|
  {
    if names != [] {
      ChainKeepsValid(o, names[1..], Step(o, names[0], record));
    }
  }

  /** Running two chains one after the other is running their
      concatenation. */
  lemma {:induction false} ChainAppend(o: Oracles, a: seq<string>, b: seq<string>, record: Record)
    ensures RunChain(o, a + b, record) == RunChain(o, b, RunChain(o, a, record))
    decreases |a|
  {
    if a != [] {
      assert (a + b)[0] == a[0] && (a + b)[1..] == a[1..] + b;
      var next := Step(o, a[0], record);
      assert RunChain(o, a + b, record) == RunChain(o, a[1..] + b, next);
      assert RunChain(o, a, record) == RunChain(o, a[1..], next);
      ChainAppend(o, a[1..], b, next);
    } else {
      assert a + b == b;
    }
  }

  /** A chain whose every output is invalid changes nothing. */
  lemma {:induction false} RejectedChainChangesNothing(o: Oracles, names: seq<string>, record: Record)
    requires forall i :: 0 <= i < |names| ==> !o.valid(WithoutExtra(Process(o.run(names[i]), record).data))
    ensures RunChain(o, names, record) == record
    decreases |names|
  {
    if names != [] {
      assert names[0] == names[0];
      assert forall i :: 1 <= i < |names| ==> names[1..][i - 1] == names[i];
      RejectedChainChangesNothing(o, names[1..], record);
    }
  }

  // ---------------------------------------------------------------------
  // Pruning, the key and the output row

  /** The record without the fields never saved. */
  function Pruned(record: Record): (r: Record)
    ensures r.isRevisit == record.isRevisit
    ensures r.data.Keys == record.data.Keys - Elems(UNNECESSARY_FIELDS)
    ensures forall k :: k in r.data ==> r.data[k] == record.data[k]
  {
    Record(record.data - Elems(UNNECESSARY_FIELDS), record.isRevisit)
  }

  const UUID_PREFIX := "urn:uuid:"

  /** The row key: the ID with one leading 'urn:uuid:' removed. A
      non-string ID makes `re.sub` raise. */
  function RecordKey(id: Value): (k: Option<string>)
    ensures k.Some? <==> id.Str?
  {
    if !id.Str? then None
    else if UUID_PREFIX <= id.s then Some(id.s[|UUID_PREFIX|..])
    else Some(id.s)
  }

  /** The prefix is removed once, and what follows it is kept whole. */
  lemma KeyStripsPrefix(k: string)
    ensures RecordKey(Str(UUID_PREFIX + k)) == Some(k)
    ensures RecordKey(Str(UUID_PREFIX + UUID_PREFIX + k)) == Some(UUID_PREFIX + k)
  {
    assert UUID_PREFIX <= UUID_PREFIX + k;
    assert UUID_PREFIX <= UUID_PREFIX + UUID_PREFIX + k;
    assert (UUID_PREFIX + UUID_PREFIX + k)[|UUID_PREFIX|..] == UUID_PREFIX + k;
  }

  /** An ID without the prefix is its own key. */
  lemma KeyOfPlainId(s: string)
    requires !(UUID_PREFIX <= s)
    ensures RecordKey(Str(s)) == Some(s)
  {
  }

  /** The values of the separately saved fields, '' for each one absent. */
  function SeparateCols(data: map<string, Value>): seq<Value>
  {
    seq(|OUTPUT_SEPARATE_COLS|, i requires 0 <= i < |OUTPUT_SEPARATE_COLS| =>
      if OUTPUT_SEPARATE_COLS[i] in data then data[OUTPUT_SEPARATE_COLS[i]] else Str(""))
  }

  /** The output columns: [key] + EXTRA in extra-textfile mode (EXTRA must
      be a list), otherwise [key] + the separate columns + the rest of the
      data. None when building them raises. */
  function OutputRow(extraMode: bool, record: Record): Option<seq<Value>>
  {
    var key := RecordKey(Get(record, ID));
    if key.None? then None
    else if extraMode then
      (match Get(record, EXTRA)
       case List(items) => Some([Str(key.value)] + items)
       case _ => None)
    else Some([Str(key.value)] + SeparateCols(record.data) + [Dict(record.data - Elems(OUTPUT_SEPARATE_COLS))])
  }

  /** The saved fields are distinct, so popping them one by one takes each
      field's own value. */
  lemma SeparateColsDistinct()
    ensures forall i, j :: 0 <= i < j < |OUTPUT_SEPARATE_COLS| ==> OUTPUT_SEPARATE_COLS[i] != OUTPUT_SEPARATE_COLS[j]
  {
  }

  /** The two row shapes. Both start with the key; the standard one has a
      column per saved field and ends with the data that holds none of the
      saved fields, and none of the pruned ones once the record is
      pruned. */
  lemma RowShapes(extraMode: bool, record: Record)
    requires OutputRow(extraMode, record).Some?
    ensures var row := OutputRow(extraMode, record).value;
      && Get(record, ID).Str? && row[0] == Str(RecordKey(Get(record, ID)).value)
      && (extraMode ==> Get(record, EXTRA).List? && row[1..] == Get(record, EXTRA).items)
      && (!extraMode ==> (
        && |row| == |OUTPUT_SEPARATE_COLS| + 2
        && (forall i :: 0 <= i < |OUTPUT_SEPARATE_COLS| ==>
              row[i + 1] == if OUTPUT_SEPARATE_COLS[i] in record.data then record.data[OUTPUT_SEPARATE_COLS[i]] else Str(""))
        && row[|row| - 1].Dict?
        && row[|row| - 1].entries.Keys == record.data.Keys - Elems(OUTPUT_SEPARATE_COLS)
        && (forall k :: k in row[|row| - 1].entries ==> row[|row| - 1].entries[k] == record.data[k])))
  {
  }

  /** The rest of a pruned record's data holds no pruned field. */
  lemma PrunedRowHasNoUnnecessaryField(record: Record)
    requires OutputRow(false, Pruned(record)).Some?
    ensures var row := OutputRow(false, Pruned(record)).value;
      forall f :: f in UNNECESSARY_FIELDS ==> f !in row[|row| - 1].entries
  {
    RowShapes(false, Pruned(record));
  }

  // ---------------------------------------------------------------------
  // The whole record

  /** What `process_record` gives its caller: None, a row, or an
      exception. */
  datatype RecordResult = Dropped | Saved(row: seq<Value>) | Failed

  /** The end of the pipeline: the WARC-Type lookup needs the record
      headers to be a dict; then pruning and decomposition. */
  function Finish(extraMode: bool, record: Record): RecordResult
  {
    if !Get(record, RECHEADERS).Dict? then Failed
    else
      match OutputRow(extraMode, Pruned(record))
      case None => Failed
      case Some(row) => Saved(row)
  }

  /** The pipeline after admission: route by MIME type ('' when absent),
      run the chain (none for a revisit), finish. */
  function Processed(o: Oracles, algseq: seq<(string, seq<string>)>, extraMode: bool, record: Record): RecordResult
  {
    match Resolve(o.mimeMatch, algseq, Or(Get(record, MIMETYPE), Str("")))
    case Unresolvable => Failed
    case Chain(None) => Dropped
    case Chain(Some(names)) => Finish(extraMode, RunChain(o, if record.isRevisit then [] else names, record))
  }

  /** `process_record`, leaving out the harvest-table side effect. */
  function Pipeline(o: Oracles, processIDs: set<string>, algseq: seq<(string, seq<string>)>, extraMode: bool, record: Record): RecordResult
  {
    match Admit(o, processIDs, record)
    case Pass => Processed(o, algseq, extraMode, record)
    case Skip => Dropped
    case Fail => Failed
  }

  /** A record turned away at admission never reaches an algorithm: the
      result is the same whatever the algorithms do. */
  lemma RejectedBeforeAnyAlgorithm(o: Oracles, run: string -> (Record -> Outcome), processIDs: set<string>,
                                   algseq: seq<(string, seq<string>)>, extraMode: bool, record: Record)
    requires Admit(o, processIDs, record) != Pass
    ensures Pipeline(o, processIDs, algseq, extraMode, record) == Pipeline(o.(run := run), processIDs, algseq, extraMode, record)
    ensures !Pipeline(o, processIDs, algseq, extraMode, record).Saved?
  {
  }

  /** An unmapped MIME type drops the record, revisit or not. */
  lemma UnmappedMimeDrops(o: Oracles, algseq: seq<(string, seq<string>)>, extraMode: bool, record: Record)
    requires Resolve(o.mimeMatch, algseq, Or(Get(record, MIMETYPE), Str(""))) == Chain(None)
    ensures Processed(o, algseq, extraMode, record) == Dropped
    ensures Processed(o, algseq, extraMode, record.(isRevisit := !record.isRevisit)) == Dropped
  {
  }

  /** A revisit with a mapped MIME type runs no algorithm: its row is made
      from the record as it came. */
  lemma RevisitRunsNoAlgorithm(o: Oracles, algseq: seq<(string, seq<string>)>, extraMode: bool, record: Record)
    requires record.isRevisit
    requires Resolve(o.mimeMatch, algseq, Or(Get(record, MIMETYPE), Str(""))).Chain?
    requires Resolve(o.mimeMatch, algseq, Or(Get(record, MIMETYPE), Str(""))).algs.Some?
    ensures Processed(o, algseq, extraMode, record) == Finish(extraMode, record)
  {
  }

  // ---------------------------------------------------------------------
  // The argument parser

  datatype ArgResult = Parsed(group: string, algs: seq<string>) | ArgumentTypeError

  /** `seq_alg`: split at the first ':' only; the group must be configured;
      an empty algorithm part is the empty chain. */
  function SeqAlg(s: string): ArgResult
  {
    var i := Find(s, ':');
    if i == |s| || s[..i] !in RECORD_MIME_TYPES then ArgumentTypeError
    else Parsed(s[..i], if s[i + 1..] == [] then [] else SplitSep(s[i + 1..], ','))
  }

  /** The argument is accepted exactly when it has a ':' and the part
      before the first one is a configured group. */
  lemma SeqAlgAccepts(s: string)
    ensures SeqAlg(s).Parsed? <==> ':' in s && s[..Find(s, ':')] in RECORD_MIME_TYPES
    ensures SeqAlg(s).Parsed? ==> forall a :: a in SeqAlg(s).algs ==> ',' !in a
  {
    var i := Find(s, ':');
    if i < |s| {
      assert ':' in s;
    } else {
      assert ':' !in s;
    }
    if SeqAlg(s).Parsed? && s[i + 1..] != [] {
      var parts := SplitSep(s[i + 1..], ',');
      forall a | a in parts ensures ',' !in a {
        var k :| 0 <= k < |parts| && parts[k] == a;
        assert forall j :: 0 <= j < |parts[k]| ==> parts[k][j] != ',';
      }
    }
  }

  /** The group is the text before the first ':', and joining the chain
      with ',' gives back everything after it, further ':' included. */
  lemma SeqAlgSplitsAtFirstColon(group: string, rest: string)
    requires ':' !in group && group in RECORD_MIME_TYPES
    ensures SeqAlg(group + ":" + rest).Parsed?
    ensures SeqAlg(group + ":" + rest).group == group
    ensures Join(SeqAlg(group + ":" + rest).algs, ",") == rest
    ensures rest == "" <==> SeqAlg(group + ":" + rest).algs == []
  {
    var s := group + ":" + rest;
    assert Find(s, ':') == |group| by {
      assert s[|group|] == ':';
      assert forall j :: 0 <= j < |group| ==> s[j] == group[j];
      FindFirst(s, ':', |group|);
    }
    assert s[..|group|] == group;
    assert s[|group| + 1..] == rest;
    if rest != [] {
      JoinSplitSep(rest, ',');
    }
  }

  /** `Find` stops at the first occurrence. */
  lemma FindFirst(s: string, c: char, i: nat)
    requires i < |s| && s[i] == c
    requires forall j :: 0 <= j < i ==> s[j] != c
    ensures Find(s, c) == i
  {
  }

  /** An argument without ':' is refused. */
  lemma SeqAlgNeedsColon(s: string)
    requires ':' !in s
    ensures SeqAlg(s) == ArgumentTypeError
  {
    assert Find(s, ':') == |s|;
  }

  // ---------------------------------------------------------------------
  // Partitions and the harvest list

  /** One record read from a WARC file: its WARC-Type header (None when
      absent), its Content-Length, the record, and its offset in the
      file. */
  datatype WarcEntry = WarcEntry(warcType: Option<string>, length: int, record: Record, offset: int)

  /** The records that are processed: a processed WARC-Type and a content
      no longer than the limit. */
  predicate Eligible(e: WarcEntry)
  {
    e.warcType.Some? && e.warcType.value in RECORD_TYPES && e.length <= MAX_ALLOWED_WARC_CONTENT_SIZE
  }

  /** The eligible records, in file order, each with its offset set. */
  function EligibleRecords(entries: seq<WarcEntry>): (rs: seq<Record>)
    ensures |rs| <= |entries|
  {
    if entries == [] then []
    else
      var rest := EligibleRecords(entries[1..]);
      if Eligible(entries[0]) then [Set(entries[0].record, WARCOFFSET, Int(entries[0].offset))] + rest else rest
  }

  /** Skipping distributes over the file: the eligible records of a longer
      file are those of its start followed by those of the new entry. */
  lemma {:induction false} EligibleRecordsSnoc(entries: seq<WarcEntry>, e: WarcEntry)
    ensures EligibleRecords(entries + [e]) ==
      EligibleRecords(entries) + (if Eligible(e) then [Set(e.record, WARCOFFSET, Int(e.offset))] else [])
    decreases |entries|
  {
    if entries != [] {
      assert (entries + [e])[1..] == entries[1..] + [e];
      EligibleRecordsSnoc(entries[1..], e);
    } else {
      assert [e][1..] == [];
    }
  }

  /** Skipping works entry by entry, so the eligible records of two files
      read one after the other are those of each, in order. */
  lemma {:induction false} EligibleRecordsAppend(xs: seq<WarcEntry>, ys: seq<WarcEntry>)
    ensures EligibleRecords(xs + ys) == EligibleRecords(xs) + EligibleRecords(ys)
    decreases |xs|
  {
    if xs != [] {
      assert (xs + ys)[1..] == xs[1..] + ys;
      EligibleRecordsAppend(xs[1..], ys);
    } else {
      assert xs + ys == ys;
    }
  }

  /** No record is dropped except by the skip rules, and none of the
      skipped ones is processed. */
  lemma {:induction false} EligibleRecordsCount(entries: seq<WarcEntry>)
    ensures (forall i :: 0 <= i < |entries| ==> Eligible(entries[i])) ==> |EligibleRecords(entries)| == |entries|
    ensures (forall i :: 0 <= i < |entries| ==> !Eligible(entries[i])) ==> EligibleRecords(entries) == []
    decreases |entries|
  {
    if entries != [] {
      assert forall i :: 1 <= i < |entries| ==> entries[1..][i - 1] == entries[i];
      EligibleRecordsCount(entries[1..]);
    }
  }

  /** The items of the per-worker lists, one list after another. */
  function Flatten<T>(subs: seq<seq<T>>): (xs: seq<T>)
  {
    if subs == [] then [] else subs[0] + Flatten(subs[1..])
  }

  /** One more list adds its items at the end. */
  lemma {:induction false} FlattenSnoc<T>(subs: seq<seq<T>>, last: seq<T>)
    ensures Flatten(subs + [last]) == Flatten(subs) + last
    decreases |subs|
  {
    if subs != [] {
      assert (subs + [last])[1..] == subs[1..] + [last];
      FlattenSnoc(subs[1..], last);
    } else {
      assert [last][1..] == [];
    }
  }

  lemma {:induction false} FlattenMembers<T>(subs: seq<seq<T>>)
    ensures forall x :: x in Flatten(subs) <==> exists k :: 0 <= k < |subs| && x in subs[k]
    decreases |subs|
  {
    if subs != [] {
      FlattenMembers(subs[1..]);
      assert forall k :: 1 <= k < |subs| ==> subs[k] == subs[1..][k - 1];
      forall x | exists k :: 0 <= k < |subs| && x in subs[k]
        ensures x in Flatten(subs)
      {
        var k :| 0 <= k < |subs| && x in subs[k];
        if k > 0 {
          assert x in subs[1..][k - 1];
        }
      }
    }
  }

  /** Every harvest id is a string (the sort then compares strings). */
  predicate AllStr(xs: seq<Value>)
  {
    forall i :: 0 <= i < |xs| ==> xs[i].Str?
  }

  function Strs(xs: seq<Value>): (ss: seq<string>)
    requires AllStr(xs)
    ensures |ss| == |xs| && forall i :: 0 <= i < |xs| ==> xs[i] == Str(ss[i])
  {
    seq(|xs|, i requires 0 <= i < |xs| => xs[i].s)
  }

  /** The reported harvest list: the sorted, duplicate-free union of the
      per-worker lists. */
  function HarvestList(subs: seq<seq<Value>>): (r: seq<string>)
    requires AllStr(Flatten(subs))
    ensures StrictlySorted(r)
    ensures forall h :: h in r <==> exists k :: 0 <= k < |subs| && Str(h) in subs[k]
  {
    var xs := Flatten(subs);
    var r := SortedSet(Strs(xs));
    assert forall h :: h in r <==> h in Elems(Strs(xs));
    FlattenMembers(subs);
    assert forall h :: h in Strs(xs) <==> Str(h) in xs by {
      forall h ensures h in Strs(xs) <==> Str(h) in xs {
        if Str(h) in xs {
          var i :| 0 <= i < |xs| && xs[i] == Str(h);
          assert Strs(xs)[i] == h;
        }
      }
    }
    r
  }

  /** The harvest list does not depend on how the ids were spread over the
      workers, nor on repetitions. */
  lemma HarvestListIgnoresGrouping(subs: seq<seq<Value>>, subs': seq<seq<Value>>)
    requires AllStr(Flatten(subs)) && AllStr(Flatten(subs'))
    requires forall v :: v in Flatten(subs) <==> v in Flatten(subs')
    ensures HarvestList(subs) == HarvestList(subs')
  {
    var a, b := HarvestList(subs), HarvestList(subs');
    FlattenMembers(subs);
    FlattenMembers(subs');
    forall h ensures h in a <==> h in b {
      assert h in a <==> Str(h) in Flatten(subs);
      assert h in b <==> Str(h) in Flatten(subs');
    }
    SortedUnique(a, b);
  }

  /** Two strictly sorted lists with the same members are equal. */
  lemma {:induction false} SortedUnique(a: seq<string>, b: seq<string>)
    requires StrictlySorted(a) && StrictlySorted(b)
    requires forall h :: h in a <==> h in b
    ensures a == b
    decreases |a|
  {
    assert a != [] ==> a[0] in b;
    assert b != [] ==> b[0] in a;
    if a != [] && b != [] {
      assert a[0] == b[0] by {
        if a[0] != b[0] {
          assert b[0] in a;
          var i :| 0 <= i < |a| && a[i] == b[0];
          assert a[0] in b;
          var j :| 0 <= j < |b| && b[j] == a[0];
          assert i > 0 && j > 0;
          assert LexLess(a[0], a[i]) && LexLess(b[0], b[j]);
          LexLessTransitive(a[0], b[0], a[0]);
          LexLessIrreflexive(a[0]);
        }
      }
      forall h ensures h in a[1..] <==> h in b[1..] {
        if h in a[1..] {
          var i :| 1 <= i < |a| && a[i] == h;
          LexLessIrreflexive(h);
          assert h != a[0];
          assert h in b;
          var j :| 0 <= j < |b| && b[j] == h;
          assert j != 0;
        }
        if h in b[1..] {
          var j :| 1 <= j < |b| && b[j] == h;
          LexLessIrreflexive(h);
          assert h != b[0];
          assert h in a;
          var i :| 0 <= i < |a| && a[i] == h;
          assert i != 0;
        }
      }
      SortedUnique(a[1..], b[1..]);
      assert a == [a[0]] + a[1..] && b == [b[0]] + b[1..];
    }
  }
}
