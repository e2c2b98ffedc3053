/** The per-table body of `main()` in data_loader/main.py, lifted out of
    the database and thread-pool calls: skip the table or build its
    mapping, resolve the incremental column, filter the processed rows
    against the stored watermark while tracking the new one, shape the
    output rows, write the watermark back, and hand header and rows to the
    loader.

    Every comparison is Python's plain string order. */
module Orchestrator {
  import opened Base
  import opened Text
  import opened ViewMapping
  import opened Records
  import opened Loader

  /** The mapping of a table: XML tables get `(tag, alias)` pairs, delimited
      ones `(position, alias, kind)` triples. */
  datatype Mapping = XmlMapping(xml: seq<XmlEntry>) | DelimMapping(delim: seq<DelimEntry>)

  function MappingSize(m: Mapping): (r: nat) {
    match m
    case XmlMapping(es) => |es|
    case DelimMapping(ds) => |ds|
  }

  function AliasAt(m: Mapping, j: nat): (r: string)
    requires j < MappingSize(m)
  {
    match m
    case XmlMapping(es) => es[j].alias
    case DelimMapping(ds) => ds[j].alias
  }

  /** The mapping the table's kind calls for. */
  function MappingOf(nonxml: bool, viewDef: string): (r: Mapping) {
    if nonxml then DelimMapping(DelimitedMapping(viewDef)) else XmlMapping(ParseViewMappingXml(viewDef))
  }

  /** One table's entry in the configuration. Only the watermark is ever
      written back. A missing `incremental_column` or `incremental_value`
      key reads as the empty string. */
  class TableConfig {
    const table: string
    const view: string
    const targetTable: string
    const enabled: bool
    const nonxml: bool
    const incrementalColumn: string
    var incrementalValue: string

    constructor(table: string, view: string, targetTable: string, enabled: bool, nonxml: bool,
                incrementalColumn: string, incrementalValue: string)
      ensures this.table == table && this.view == view && this.targetTable == targetTable
      ensures this.enabled == enabled && this.nonxml == nonxml
      ensures this.incrementalColumn == incrementalColumn && this.incrementalValue == incrementalValue
    {
      this.table := table;
      this.view := view;
      this.targetTable := targetTable;
      this.enabled := enabled;
      this.nonxml := nonxml;
      this.incrementalColumn := incrementalColumn;
      this.incrementalValue := incrementalValue;
    }
  }

  // ---------------------------------------------------------------------
  // The incremental column

  /** The tag of the first entry whose alias equals `alias` ignoring case. */
  function FirstTagWithAlias(es: seq<XmlEntry>, alias: string): (r: Option<string>)
    decreases |es|
  {
    if es == [] then None
    else if FoldEqStr(es[0].alias, alias) then Some(es[0].tag)
    else FirstTagWithAlias(es[1..], alias)
  }

  /** The column filtering reads, if any: a blank configured column turns
      filtering off; a delimited table filters on its RECID; an XML table
      on the tag whose alias matches, when one does. */
  function IncrementalColumn(column: string, m: Mapping): (r: Option<string>) {
    var alias := Strip(column);
    if alias == [] then None
    else match m
      case DelimMapping(_) => Some("RECID")
      case XmlMapping(es) => FirstTagWithAlias(es, alias)
  }

  /** The alias search of `main()`: a loop over the mapping that stops at
      the first alias equal to the configured one, ignoring case. */
  method ResolveIncrementalColumn(column: string, m: Mapping) returns (col: Option<string>)
    ensures col == IncrementalColumn(column, m)
  {
    col := None;
    var alias := Strip(column);
    if alias != [] {
      if m.XmlMapping? {
        var es := m.xml;
        for i := 0 to |es|
          invariant col == None
          invariant FirstTagWithAlias(es[i..], alias) == FirstTagWithAlias(es, alias)
        {
          assert es[i..][1..] == es[i + 1..];
          if LowerStr(es[i].alias) == LowerStr(alias) {
            col := Some(es[i].tag);
            break;
          }
        }
      } else {
        col := Some("RECID");
      }
    }
  }

  /** The first matching entry is found: the result names the tag of an
      entry whose alias matches and no earlier alias matches; there is no
      result exactly when no alias matches. */
  lemma {:induction false} FirstTagWithAliasIsFirst(es: seq<XmlEntry>, alias: string) returns (k: int)
    ensures FirstTagWithAlias(es, alias).None? <==> k == -1
    ensures k == -1 ==> forall j :: 0 <= j < |es| ==> !FoldEqStr(es[j].alias, alias)
    ensures k != -1 ==> (0 <= k < |es| && FirstTagWithAlias(es, alias) == Some(es[k].tag)
      && FoldEqStr(es[k].alias, alias) && forall j :: 0 <= j < k ==> !FoldEqStr(es[j].alias, alias))
    decreases |es|
  {
    if es == [] {
      k := -1;
    } else if FoldEqStr(es[0].alias, alias) {
      k := 0;
    } else {
      var k0 := FirstTagWithAliasIsFirst(es[1..], alias);
      k := if k0 == -1 then -1 else k0 + 1;
      forall j | 0 <= j < |es| && (k == -1 || j < k) ensures !FoldEqStr(es[j].alias, alias) {
        if j > 0 {
          assert es[j] == es[1..][j - 1];
        }
      }
    }
  }

  // ---------------------------------------------------------------------
  // Filtering and the running maximum

  /** The records `process_rows` builds for a table of this kind: a tag
      map for XML tables, two non-empty field lists for delimited ones. */
  predicate RecordFits(nonxml: bool, r: Record) {
    if nonxml then r.DelimFields? && r.taf != [] && r.ext != [] else r.XmlFields?
  }

  predicate RowsFit(nonxml: bool, rows: seq<ProcessedRow>) {
    forall k :: 0 <= k < |rows| ==> RecordFits(nonxml, rows[k].record)
  }

  /** The value a row is filtered on: the resolved tag's text in an XML
      record (`None` when the record lacks it), the RECID in a delimited
      table, and `None` when filtering is off. */
  function CurrentValue(col: Option<string>, nonxml: bool, row: ProcessedRow): (r: Option<string>) {
    if !Truthy(col) then None
    else if nonxml then Some(row.recid)
    else match row.record
      case XmlFields(f) => if col.value in f then Some(f[col.value]) else None
      case DelimFields(_, _) => None
  }

  /** A row is dropped only when filtering is on, its value and the stored
      watermark are both non-empty, and its value sorts strictly below the
      watermark. */
  predicate Kept(col: Option<string>, nonxml: bool, last: string, row: ProcessedRow) {
    var cur := CurrentValue(col, nonxml, row);
    !(Truthy(col) && Truthy(cur) && last != [] && StrLess(cur.value, last))
  }

  function KeepFilter(col: Option<string>, nonxml: bool, last: string): (r: ProcessedRow -> bool) {
    row => Kept(col, nonxml, last, row)
  }

  /** The rows that survive filtering, in their original order. */
  function KeptRows(col: Option<string>, nonxml: bool, last: string, rows: seq<ProcessedRow>): (r: seq<ProcessedRow>) {
    Filter(rows, KeepFilter(col, nonxml, last))
  }

  /** Whether a row contributes to the new watermark, and with what value. */
  predicate Raises(col: Option<string>, nonxml: bool, last: string, row: ProcessedRow) {
    Kept(col, nonxml, last, row) && Truthy(CurrentValue(col, nonxml, row))
  }

  /** The non-empty values of the kept rows, in row order. */
  function KeptValues(col: Option<string>, nonxml: bool, last: string, rows: seq<ProcessedRow>): (r: seq<string>)
    decreases |rows|
  {
    if rows == [] then []
    else
      var row := rows[|rows| - 1];
      KeptValues(col, nonxml, last, rows[..|rows| - 1])
        + (if Raises(col, nonxml, last, row) then [CurrentValue(col, nonxml, row).value] else [])
  }

  /** The filter loop of `main()`: keep or drop each row, appending the
      kept ones, and raise the running maximum to each kept non-empty value
      that is not below it. The kept rows are the filter of the input by
      the drop rule; the final maximum is the largest of the stored
      watermark and every kept non-empty value. */
  method FilterRows(col: Option<string>, nonxml: bool, last: string, rows: seq<ProcessedRow>)
    returns (filtered: seq<ProcessedRow>, newMax: string)
    ensures filtered == KeptRows(col, nonxml, last, rows)
    ensures newMax == MaxOf(last, KeptValues(col, nonxml, last, rows))
  {
    filtered := [];
    newMax := last;
    for i := 0 to |rows|
      invariant filtered == KeptRows(col, nonxml, last, rows[..i])
      invariant newMax == MaxOf(last, KeptValues(col, nonxml, last, rows[..i]))
    {
      var row := rows[i];
      FilterStep(col, nonxml, last, rows, i);
      ghost var vals := KeptValues(col, nonxml, last, rows[..i]);
      var cur := CurrentValue(col, nonxml, row);
      if Truthy(col) && Truthy(cur) {
        if last != [] && StrLess(cur.value, last) {
          assert !Raises(col, nonxml, last, row);
          assert KeptValues(col, nonxml, last, rows[..i + 1]) == vals;
          continue;
        }
        assert Raises(col, nonxml, last, row);
        assert KeptValues(col, nonxml, last, rows[..i + 1]) == vals + [cur.value];
        MaxOfSnoc(last, vals, cur.value);
        RunningMaxStep(newMax, cur.value);
        if newMax == [] || !StrLess(cur.value, newMax) {
          newMax := cur.value;
        }
      } else {
        assert !Raises(col, nonxml, last, row);
        assert KeptValues(col, nonxml, last, rows[..i + 1]) == vals;
      }
      filtered := filtered + [row];
    }
    assert rows[..|rows|] == rows;
  }

  /** One more row extends the kept rows and the kept values by that row's
      contribution alone. */
  lemma FilterStep(col: Option<string>, nonxml: bool, last: string, rows: seq<ProcessedRow>, i: nat)
    requires i < |rows|
    ensures KeptRows(col, nonxml, last, rows[..i + 1])
      == KeptRows(col, nonxml, last, rows[..i]) + (if Kept(col, nonxml, last, rows[i]) then [rows[i]] else [])
    ensures KeptValues(col, nonxml, last, rows[..i + 1])
      == KeptValues(col, nonxml, last, rows[..i])
         + (if Raises(col, nonxml, last, rows[i]) then [CurrentValue(col, nonxml, rows[i]).value] else [])
  {
    assert rows[..i + 1][..i] == rows[..i] && rows[..i + 1][i] == rows[i];
  }

  /** The update `if new_max == "" or cur >= new_max: new_max = cur` is the
      larger of the two. */
  lemma RunningMaxStep(m: string, cur: string)
    requires cur != []
    ensures (if m == [] || !StrLess(cur, m) then cur else m) == StrMax(m, cur)
  {
    StrLessIrreflexive(m);
    if m == [] {
      EmptyIsLeast(cur);
    } else if !StrLess(cur, m) && cur != m {
      StrLessTotal(cur, m);
    } else if StrLess(cur, m) {
      StrLessAsymmetric(cur, m);
    }
  }

  /** With no incremental column every row is kept, in order, and the
      watermark stays as it was. */
  lemma NoIncrementalColumnKeepsAll(col: Option<string>, nonxml: bool, last: string, rows: seq<ProcessedRow>)
    requires !Truthy(col)
    ensures KeptRows(col, nonxml, last, rows) == rows
    ensures MaxOf(last, KeptValues(col, nonxml, last, rows)) == last
  {
    FilterAll(rows, KeepFilter(col, nonxml, last));
    NothingRaises(col, nonxml, last, rows);
  }

  lemma {:induction false} NothingRaises(col: Option<string>, nonxml: bool, last: string, rows: seq<ProcessedRow>)
    requires !Truthy(col)
    ensures KeptValues(col, nonxml, last, rows) == []
    decreases |rows|
  {
    if rows != [] {
      NothingRaises(col, nonxml, last, rows[..|rows| - 1]);
    }
  }

  /** The drop rule read row by row: a row without a value is kept, a row
      whose value equals the watermark is kept, and a kept row's value is
      never below a non-empty watermark. */
  lemma KeepRule(col: Option<string>, nonxml: bool, last: string, row: ProcessedRow)
    ensures !Truthy(CurrentValue(col, nonxml, row)) ==> Kept(col, nonxml, last, row)
    ensures CurrentValue(col, nonxml, row) == Some(last) ==> Kept(col, nonxml, last, row)
    ensures Kept(col, nonxml, last, row) && Truthy(CurrentValue(col, nonxml, row)) && last != []
      ==> !StrLess(CurrentValue(col, nonxml, row).value, last)
  {
    StrLessIrreflexive(last);
  }

  /** The row is kept and raises the watermark to `v`. */
  predicate RaisesTo(col: Option<string>, nonxml: bool, last: string, row: ProcessedRow, v: string) {
    Raises(col, nonxml, last, row) && CurrentValue(col, nonxml, row) == Some(v)
  }

  /** A value is among the kept values exactly when some row raises the
      watermark to it. */
  lemma {:induction false} KeptValuesMembers(col: Option<string>, nonxml: bool, last: string, rows: seq<ProcessedRow>, v: string)
    ensures v in KeptValues(col, nonxml, last, rows)
      <==> exists k :: 0 <= k < |rows| && RaisesTo(col, nonxml, last, rows[k], v)
    decreases |rows|
  {
    if rows != [] {
      var n := |rows| - 1;
      var init := rows[..n];
      KeptValuesMembers(col, nonxml, last, init, v);
      if v in KeptValues(col, nonxml, last, rows) {
        if v in KeptValues(col, nonxml, last, init) {
          var k :| 0 <= k < |init| && RaisesTo(col, nonxml, last, init[k], v);
          assert rows[k] == init[k];
        } else {
          assert RaisesTo(col, nonxml, last, rows[n], v);
        }
      } else {
        forall k | 0 <= k < |rows| ensures !RaisesTo(col, nonxml, last, rows[k], v) {
          if k < n {
            assert rows[k] == init[k];
          }
        }
      }
    }
  }

  /** The new watermark is never below the stored one, is at least every
      kept non-empty value, and is either the stored watermark or the value
      of a kept row. */
  lemma NewWatermark(col: Option<string>, nonxml: bool, last: string, rows: seq<ProcessedRow>)
    ensures var m := MaxOf(last, KeptValues(col, nonxml, last, rows));
      !StrLess(m, last)
      && (forall k :: 0 <= k < |rows| && Raises(col, nonxml, last, rows[k]) ==> !StrLess(m, CurrentValue(col, nonxml, rows[k]).value))
      && (m == last || exists k :: 0 <= k < |rows| && RaisesTo(col, nonxml, last, rows[k], m))
  {
    var m := MaxOf(last, KeptValues(col, nonxml, last, rows));
    forall k | 0 <= k < |rows| && Raises(col, nonxml, last, rows[k])
      ensures !StrLess(m, CurrentValue(col, nonxml, rows[k]).value)
    {
      KeptValuesMembers(col, nonxml, last, rows, CurrentValue(col, nonxml, rows[k]).value);
    }
    if m != last {
      KeptValuesMembers(col, nonxml, last, rows, m);
    }
  }

  /** `process_rows` hands rows over in completion order. Whatever that
      order, the same rows are kept, each as often, and the new watermark
      is the same. */
  lemma CompletionOrderIrrelevant(col: Option<string>, nonxml: bool, last: string, rows: seq<ProcessedRow>, other: seq<ProcessedRow>)
    requires multiset(rows) == multiset(other)
    ensures multiset(KeptRows(col, nonxml, last, rows)) == multiset(KeptRows(col, nonxml, last, other))
    ensures MaxOf(last, KeptValues(col, nonxml, last, rows)) == MaxOf(last, KeptValues(col, nonxml, last, other))
  {
    FilterPermutation(rows, other, KeepFilter(col, nonxml, last));
    var a := KeptValues(col, nonxml, last, rows);
    var b := KeptValues(col, nonxml, last, other);
    forall v ensures v in a <==> v in b {
      KeptValuesMembers(col, nonxml, last, rows, v);
      KeptValuesMembers(col, nonxml, last, other, v);
      SameRaisingRows(col, nonxml, last, rows, other, v);
    }
    var x, y := MaxOf(last, a), MaxOf(last, b);
    var cands := {last} + set v | v in a;
    MaxUnique(x, y, cands);
  }

  lemma SameRaisingRows(col: Option<string>, nonxml: bool, last: string, rows: seq<ProcessedRow>, other: seq<ProcessedRow>, v: string)
    requires multiset(rows) == multiset(other)
    ensures (exists k :: 0 <= k < |rows| && RaisesTo(col, nonxml, last, rows[k], v))
      <==> (exists k :: 0 <= k < |other| && RaisesTo(col, nonxml, last, other[k], v))
  {
    if exists k :: 0 <= k < |rows| && RaisesTo(col, nonxml, last, rows[k], v) {
      var k :| 0 <= k < |rows| && RaisesTo(col, nonxml, last, rows[k], v);
      assert rows[k] in multiset(other);
      var j :| 0 <= j < |other| && other[j] == rows[k];
    }
    if exists k :: 0 <= k < |other| && RaisesTo(col, nonxml, last, other[k], v) {
      var k :| 0 <= k < |other| && RaisesTo(col, nonxml, last, other[k], v);
      assert other[k] in multiset(rows);
      var j :| 0 <= j < |rows| && rows[j] == other[k];
    }
  }

  /** The watermark is written back only when filtering is on and the new
      maximum is non-empty and differs from the stored one. */
  predicate WriteBack(col: Option<string>, newMax: string, last: string) {
    Truthy(col) && newMax != [] && newMax != last
  }

  /** A watermark that is written back is strictly above the stored one:
      watermarks only move forward. */
  lemma WatermarkAdvances(col: Option<string>, nonxml: bool, last: string, rows: seq<ProcessedRow>)
    requires WriteBack(col, MaxOf(last, KeptValues(col, nonxml, last, rows)), last)
    ensures StrLess(last, MaxOf(last, KeptValues(col, nonxml, last, rows)))
  {
    var m := MaxOf(last, KeptValues(col, nonxml, last, rows));
    StrLessTotal(m, last);
  }

  // ---------------------------------------------------------------------
  // Header and rows

  /** `["RECID"]`, the aliases in mapping order, then `"TotalRecords"`. */
  function Header(m: Mapping): (h: seq<string>)
    ensures |h| == MappingSize(m) + 2
  {
    ["RECID"] + seq(MappingSize(m), j requires 0 <= j < MappingSize(m) => AliasAt(m, j)) + ["TotalRecords"]
  }

  /** Python's `fields[pos - 1] if pos - 1 < len(fields) else ""`: a
      position past the end gives the empty string, and position 0 reads
      index -1, the last field. */
  function FieldAt(fields: seq<string>, pos: nat): (r: string)
    requires pos >= 1 || fields != []
  {
    var index := pos - 1;
    if index < |fields| then (if index >= 0 then fields[index] else fields[|fields| + index]) else []
  }

  /** Which field a position selects. */
  lemma FieldAtPosition(fields: seq<string>, pos: nat)
    requires pos >= 1 || fields != []
    ensures 1 <= pos <= |fields| ==> FieldAt(fields, pos) == fields[pos - 1]
    ensures pos > |fields| ==> FieldAt(fields, pos) == []
    ensures pos == 0 ==> FieldAt(fields, pos) == fields[|fields| - 1]
  {
  }

  /** The value of mapping entry `j` in a record: the tag's text or `""`
      in XML mode; the selected field of the RECID or the XMLRECORD fields
      in delimited mode. */
  function Value(m: Mapping, j: nat, r: Record): (v: string)
    requires j < MappingSize(m) && RecordFits(m.DelimMapping?, r)
  {
    match m
    case XmlMapping(es) => if es[j].tag in r.fields then r.fields[es[j].tag] else []
    case DelimMapping(ds) =>
      match ds[j].kind
      case TafjField => FieldAt(r.taf, ds[j].position)
      case ExtractValueJs => FieldAt(r.ext, ds[j].position)
  }

  datatype Cell = StrCell(s: string) | IntCell(n: nat)

  /** An output row: the RECID, the value of each mapping entry in mapping
      order, then the row count. */
  predicate ShapedRow(m: Mapping, p: ProcessedRow, total: nat, row: seq<Cell>)
    requires RecordFits(m.DelimMapping?, p.record)
  {
    |row| == MappingSize(m) + 2
    && row[0] == StrCell(p.recid)
    && row[|row| - 1] == IntCell(total)
    && forall j :: 1 <= j <= MappingSize(m) ==> row[j] == StrCell(Value(m, j - 1, p.record))
  }

  /** The row loop of `main()` and the `TotalRecords` append that follows. */
  method ShapeRows(m: Mapping, kept: seq<ProcessedRow>) returns (rows: seq<seq<Cell>>)
    requires RowsFit(m.DelimMapping?, kept)
    ensures |rows| == |kept|
    ensures forall k :: 0 <= k < |rows| ==> ShapedRow(m, kept[k], |kept|, rows[k])
  {
    var shaped: seq<seq<Cell>> := [];
    for k := 0 to |kept|
      invariant |shaped| == k
      invariant forall i :: 0 <= i < k ==> |shaped[i]| == MappingSize(m) + 1 && shaped[i][0] == StrCell(kept[i].recid)
      invariant forall i, j :: 0 <= i < k && 1 <= j <= MappingSize(m) ==> shaped[i][j] == StrCell(Value(m, j - 1, kept[i].record))
    {
      var p := kept[k];
      var row := [StrCell(p.recid)];
      for j := 0 to MappingSize(m)
        invariant |row| == j + 1 && row[0] == StrCell(p.recid)
        invariant forall i :: 1 <= i <= j ==> row[i] == StrCell(Value(m, i - 1, p.record))
      {
        row := row + [StrCell(Value(m, j, p.record))];
      }
      shaped := shaped + [row];
    }
    var total := |shaped|;
    rows := seq(|shaped|, i requires 0 <= i < |shaped| => shaped[i] + [IntCell(total)]);
  }

  /** Header and rows line up: every row is as long as the header, and the
      cell under each alias is the value of the mapping entry that alias
      came from. */
  lemma ColumnsLineUp(m: Mapping, p: ProcessedRow, total: nat, row: seq<Cell>, j: nat)
    requires RecordFits(m.DelimMapping?, p.record) && ShapedRow(m, p, total, row)
    requires 1 <= j <= MappingSize(m)
    ensures |row| == |Header(m)|
    ensures Header(m)[j] == AliasAt(m, j - 1) && row[j] == StrCell(Value(m, j - 1, p.record))
    ensures Header(m)[0] == "RECID" && row[0] == StrCell(p.recid)
    ensures Header(m)[|row| - 1] == "TotalRecords" && row[|row| - 1] == IntCell(total)
  {
  }

  // ---------------------------------------------------------------------
  // One table

  datatype Skip = Disabled | NoViewDefinition | NoMapping

  datatype TableOutcome =
    | Skipped(reason: Skip)
    | Loaded(header: seq<string>, rows: seq<seq<Cell>>, created: seq<Statement>, loaded: Result<Load<seq<Cell>>, string>)

  /** The body of `main()`'s loop for one table. `viewDef` is what the
      view-definition query returned, `processed` what `process_rows`
      returned, and `accepts` whether the target database accepts each
      chunk's insert.

      A disabled table, a missing view definition or an empty mapping skip
      the table before any filtering, loading or configuration change.
      Otherwise the table is loaded as `LoadMapped` says. */
  method RunTable(tbl: TableConfig, viewDef: Option<string>, processed: seq<ProcessedRow>,
                  schema: string, batchSize: int, accepts: nat -> bool)
    returns (outcome: TableOutcome)
    requires RowsFit(tbl.nonxml, processed)
    modifies tbl
    ensures !tbl.enabled ==> outcome == Skipped(Disabled)
    ensures tbl.enabled && viewDef.None? ==> outcome == Skipped(NoViewDefinition)
    ensures tbl.enabled && viewDef.Some? && MappingSize(MappingOf(tbl.nonxml, viewDef.value)) == 0
      ==> outcome == Skipped(NoMapping)
    ensures outcome.Skipped? ==> tbl.incrementalValue == old(tbl.incrementalValue)
    ensures tbl.enabled && viewDef.Some? && MappingSize(MappingOf(tbl.nonxml, viewDef.value)) > 0
      ==> outcome.Loaded? && TableLoaded(tbl, MappingOf(tbl.nonxml, viewDef.value), processed, old(tbl.incrementalValue),
                                         schema, batchSize, accepts, outcome, tbl.incrementalValue)
  {
    if !tbl.enabled {
      return Skipped(Disabled);
    }
    if viewDef.None? {
      return Skipped(NoViewDefinition);
    }
    var m: Mapping;
    if tbl.nonxml {
      var ds := ParseViewMappingNonXml(viewDef.value);
      m := DelimMapping(ds);
    } else {
      m := XmlMapping(ParseViewMappingXml(viewDef.value));
    }
    if MappingSize(m) == 0 {
      return Skipped(NoMapping);
    }
    outcome := LoadMapped(tbl, m, processed, schema, batchSize, accepts);
  }

  /** A table with a non-empty mapping: resolve the incremental column,
      filter and shape the rows, write the watermark back exactly when the
      decision rule says so, drop and create the target table, and load the
      rows in chunks of `batchSize`. */
  method LoadMapped(tbl: TableConfig, m: Mapping, processed: seq<ProcessedRow>,
                    schema: string, batchSize: int, accepts: nat -> bool)
    returns (outcome: TableOutcome)
    requires MappingSize(m) > 0 && m.DelimMapping? == tbl.nonxml && RowsFit(tbl.nonxml, processed)
    modifies tbl
    ensures outcome.Loaded?
    ensures TableLoaded(tbl, m, processed, old(tbl.incrementalValue), schema, batchSize, accepts, outcome, tbl.incrementalValue)
  {
    var last := Strip(tbl.incrementalValue);
    var col := ResolveIncrementalColumn(tbl.incrementalColumn, m);
    var kept, newMax := FilterRows(col, tbl.nonxml, last, processed);
    KeptRowsFit(col, tbl.nonxml, last, processed);
    var header := Header(m);
    var rows := ShapeRows(m, kept);
    if WriteBack(col, newMax, last) {
      tbl.incrementalValue := newMax;
    }
    var conn := new TargetConnection();
    conn.CreateTargetTable(schema, tbl.targetTable, header);
    var loaded := LoadDataToTargetMulti(schema, tbl.targetTable, header, rows, batchSize, accepts);
    outcome := Loaded(header, rows, conn.sent, loaded);
  }

  /** What a loaded table's outcome and new watermark are. */
  predicate TableLoaded(tbl: TableConfig, m: Mapping, processed: seq<ProcessedRow>, stored: string,
                        schema: string, batchSize: int, accepts: nat -> bool, outcome: TableOutcome, watermark: string)
    requires outcome.Loaded? && m.DelimMapping? == tbl.nonxml && RowsFit(tbl.nonxml, processed)
  {
    var last := Strip(stored);
    var col := IncrementalColumn(tbl.incrementalColumn, m);
    var kept := KeptRows(col, tbl.nonxml, last, processed);
    var newMax := MaxOf(last, KeptValues(col, tbl.nonxml, last, processed));
    var full := TableFullName(schema, tbl.targetTable);
    RowsFit(tbl.nonxml, kept)
    && outcome.header == Header(m)
    && |outcome.rows| == |kept|
    && (forall k :: 0 <= k < |kept| ==> ShapedRow(m, kept[k], |kept|, outcome.rows[k]))
    && outcome.created == [Execute(DropQuery(full)), Execute(CreateQuery(full, Header(m))), Commit]
    && outcome.loaded == LoadDataToTargetMulti(schema, tbl.targetTable, Header(m), outcome.rows, batchSize, accepts)
    && watermark == (if WriteBack(col, newMax, last) then newMax else stored)
  }

  /** Filtering keeps the records in the shape `process_rows` made them. */
  lemma KeptRowsFit(col: Option<string>, nonxml: bool, last: string, rows: seq<ProcessedRow>)
    requires RowsFit(nonxml, rows)
    ensures RowsFit(nonxml, KeptRows(col, nonxml, last, rows))
  {
    var kept := KeptRows(col, nonxml, last, rows);
    forall k | 0 <= k < |kept| ensures RecordFits(nonxml, kept[k].record) {
      assert kept[k] in kept;
    }
  }

  /** The reconstructors produce records that fit their table kind. */
  lemma ReconstructedRowsFit(recid: string, recidText: string, payloadText: string, fields: map<string, string>)
    ensures RecordFits(true, ParseDelimitedRecord(recid, recidText, payloadText).record)
    ensures RecordFits(false, XmlFields(fields))
  {
  }
}
