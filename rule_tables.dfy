/**
 * rule-tables/R6/convert_rule_tables.php: each rule table's raw CSV files are read line by
 * line (CRLF, CR or LF), the first row is dropped as the header, and every other row whose
 * code cell is non-blank becomes one JSON record saved as `<category>/<code>.json`.
 * Reading and decoding the file, str_getcsv and json_encode are not modelled: the file
 * content arrives already decoded, and the row parser is a parameter.
 */
module RuleTables {
  import opened Wrappers
  import opened PhpStrings
  import opened RuleJson
  import KeyedWrites

  // ===========================================================================
  // The $tables configuration
  // ===========================================================================

  /** A table: its category, its raw CSV files in order and the column holding the code. */
  datatype TableConfig = TableConfig(category: Category, files: seq<string>, codeIndex: nat)

  const Tables: seq<TableConfig> := [
    TableConfig(Supplemental, ["01補助マスターテーブル.csv"], 1),
    TableConfig(Inclusive, ["02包括テーブル.csv"], 2),
    TableConfig(Exclusive, ["03-1背反テーブル1.csv", "03-2背反テーブル2.csv",
                            "03-3背反テーブル3.csv", "03-4背反テーブル4.csv"], 1),
    TableConfig(InpatientBase, ["04入院基本料テーブル.csv"], 2),
    TableConfig(CountLimits, ["05算定回数テーブル.csv"], 1)
  ]

  // ===========================================================================
  // csv_to_array_sjis
  // ===========================================================================

  /** The rows of the non-empty lines, each parsed by `parse` (str_getcsv), in order. */
  function ParsedRows(lines: seq<string>, parse: string -> seq<string>): (rows: seq<seq<string>>)
    ensures |rows| <= |lines|
  {
    if lines == [] then []
    else
      var last := lines[|lines| - 1];
      ParsedRows(lines[..|lines| - 1], parse) + (if last == "" then [] else [parse(last)])
  }

  /** The lines of the trimmed content, cut at CRLF, CR or LF. */
  function ContentLines(content: string): seq<string> {
    Split(Trim(content), AnyEol)
  }

  /** What csv_to_array_sjis returns for a file's content. */
  function CsvRows(content: string, parse: string -> seq<string>): seq<seq<string>> {
    ParsedRows(ContentLines(content), parse)
  }

  method CsvToArraySjis(content: string, parse: string -> seq<string>) returns (rows: seq<seq<string>>)
    ensures rows == CsvRows(content, parse)
  {
    var lines := Split(Trim(content), AnyEol);
    rows := [];
    for i := 0 to |lines|
      invariant rows == ParsedRows(lines[..i], parse)
    {
      assert lines[..i + 1][..i] == lines[..i];
      if lines[i] != "" {
        rows := rows + [parse(lines[i])];
      }
    }
    assert lines[..|lines|] == lines;
  }

  /** Lines yield no row exactly when every one of them is empty. */
  lemma {:induction false} NoRowsAllEmpty(lines: seq<string>, parse: string -> seq<string>)
    ensures ParsedRows(lines, parse) == [] <==> forall j :: 0 <= j < |lines| ==> lines[j] == ""
  {
    if lines != [] {
      var init := lines[..|lines| - 1];
      NoRowsAllEmpty(init, parse);
      assert forall j :: 0 <= j < |init| ==> init[j] == lines[j];
    }
  }

  /** A file yields no row (the "no rows" warning) exactly when its content is blank once
      trimmed; a file with any text has at least its header row. */
  lemma NoRowsIffBlank(content: string, parse: string -> seq<string>)
    ensures CsvRows(content, parse) == [] <==> Trim(content) == ""
  {
    var t := Trim(content);
    var lines := ContentLines(content);
    NoRowsAllEmpty(lines, parse);
    if t == "" {
      assert FirstBreak(t, AnyEol, 0) == 0;
      assert lines == [""];
    } else {
      assert !IsBreak(AnyEol, t[0]);
      assert FirstBreak(t, AnyEol, 0) == FirstBreak(t, AnyEol, 1);
      assert lines[0] == t[..FirstBreak(t, AnyEol, 0)];
      assert lines[0] != "";
    }
  }

  /** The data rows: everything after the header row. */
  function DataRows(rows: seq<seq<string>>): seq<seq<string>> {
    if rows == [] then [] else rows[1..]
  }

  // ===========================================================================
  // From a row to a record
  // ===========================================================================

  /** The code of a row: its code cell trimmed, "" when the row is too short. */
  function RowCode(t: TableConfig, cols: seq<string>): string {
    Trim(Cell(cols, t.codeIndex))
  }

  /** The inclusive step at column `i`: the cell trimmed, unless that leaves it blank. */
  function IncludeAt(cols: seq<string>, i: nat): Option<string> {
    var c := Trim(Cell(cols, i));
    if c == "" then None else Some(c)
  }

  /** The exclusive step at column `i`: a non-blank target, typed by the next cell, trimmed,
      or "same_day" when there is no next cell. */
  function ExclusiveAt(cols: seq<string>, i: nat): Option<ExclusivePair> {
    var target := Trim(Cell(cols, i));
    if target == "" then None
    else Some(ExclusivePair(target, Trim(CellOr(cols, i + 1, SameDay))))
  }

  /** The conflict kind assumed when a target has no kind cell. */
  const SameDay: string := "same_day"

  /** The default kind passes through trim() unchanged. */
  lemma SameDayTrimmed()
    ensures Trim(SameDay) == SameDay
  {
    TrimOfTrimmed(SameDay);
  }

  /** The count-limits step at column `i`: a non-blank unit, with intval of the next cell as
      its maximum, or 0 when there is no next cell. */
  function CountLimitAt(cols: seq<string>, i: nat): Option<CountLimit> {
    var unit := Trim(Cell(cols, i));
    if unit == "" then None
    else Some(CountLimit(unit, if i + 1 < |cols| then IntVal(cols[i + 1]) else 0))
  }

  /** The fields of a record for its category. */
  function BodyFor(t: TableConfig, cols: seq<string>): Body {
    var ci := t.codeIndex;
    match t.category
    case Supplemental =>
      SupplementalBody(Attributes(Cell(cols, 3), Cell(cols, 4), Flag(cols, 5), Flag(cols, 6),
                                  Flag(cols, 7), Flag(cols, 8), Flag(cols, 9)))
    case Inclusive => InclusiveBody(Walk(cols, ci + 1, 1, IncludeAt), None)
    case Exclusive => ExclusiveBody(Walk(cols, ci + 1, 2, ExclusiveAt))
    case InpatientBase =>
      InpatientBody(Cell(cols, ci + 1),
                    Conditions(Cell(cols, ci + 2), Flag(cols, ci + 3), Cell(cols, ci + 4), Cell(cols, ci + 5)),
                    None)
    case CountLimits => CountLimitsBody(Walk(cols, ci + 1, 2, CountLimitAt))
  }

  /** The record a data row yields: none when its code is blank, otherwise one under the
      trimmed code with its category's fields. */
  function RecordOf(t: TableConfig, cols: seq<string>): (r: Option<Record>)
    ensures r.None? <==> RowCode(t, cols) == ""
    ensures r.Some? ==> r.value.code == RowCode(t, cols) && BodyOf(t.category, r.value.body)
  {
    var code := RowCode(t, cols);
    if code == "" then None else Some(Record(code, BodyFor(t, cols)))
  }

  // --- What the records hold ---

  /** Each supplemental flag is set exactly when its column (5 to 9) holds "1"; a missing
      column reads as "" and clears the flag. */
  lemma SupplementalFlags(cols: seq<string>)
    requires RecordOf(Tables[0], cols).Some?
    ensures var a := RecordOf(Tables[0], cols).value.body.attributes;
      (a.drugRelated <==> 5 < |cols| && cols[5] == "1") &&
      (a.surgeryRelated <==> 6 < |cols| && cols[6] == "1") &&
      (a.radiologyRelated <==> 7 < |cols| && cols[7] == "1") &&
      (a.requiresComment <==> 8 < |cols| && cols[8] == "1") &&
      (a.requiresModifier <==> 9 < |cols| && cols[9] == "1") &&
      a.category == (if 3 < |cols| then cols[3] else "") &&
      a.subCategory == (if 4 < |cols| then cols[4] else "")
  {
    assert Tables[0].category == Supplemental;
  }

  /** The includes are exactly the non-blank cells from column `from` on, trimmed. */
  lemma IncludesExactly(cols: seq<string>, from: nat, x: string)
    ensures x in Walk(cols, from, 1, IncludeAt) <==> x != "" && exists j :: from <= j < |cols| && Trim(cols[j]) == x
  {
    WalkExactly(cols, from, 1, IncludeAt, x);
    if x != "" && exists j :: from <= j < |cols| && Trim(cols[j]) == x {
      var j :| from <= j < |cols| && Trim(cols[j]) == x;
      assert VisitAt(from, 1, j - from) == j;
    }
  }

  /** Every include is non-blank and already trimmed. */
  lemma IncludesTrimmed(cols: seq<string>, from: nat)
    ensures forall x :: x in Walk(cols, from, 1, IncludeAt) ==> x != "" && Trim(x) == x
  {
    forall x | x in Walk(cols, from, 1, IncludeAt)
      ensures x != "" && Trim(x) == x
    {
      WalkExactly(cols, from, 1, IncludeAt, x);
      var m: nat :| VisitAt(from, 1, m) < |cols| && IncludeAt(cols, VisitAt(from, 1, m)) == Some(x);
      TrimIdempotent(cols[VisitAt(from, 1, m)]);
    }
  }

  /** Column `j` of the row holds a non-blank target whose entry is `e`: the target trimmed,
      typed by the next cell trimmed, or by "same_day" when the row ends there. */
  predicate ExclusiveCells(cols: seq<string>, j: nat, e: ExclusivePair) {
    j < |cols| && Trim(cols[j]) != "" &&
    e == ExclusivePair(Trim(cols[j]), if j + 1 < |cols| then Trim(cols[j + 1]) else SameDay)
  }

  /** What one visit of the exclusive loop yields, cell by cell. */
  lemma ExclusiveAtCells(cols: seq<string>, j: nat, e: ExclusivePair)
    requires j < |cols|
    ensures ExclusiveAt(cols, j) == Some(e) <==> ExclusiveCells(cols, j, e)
  {
    SameDayTrimmed();
  }

  /** The exclusive entries are exactly those of the non-blank targets at every other column
      from `from` on. */
  lemma ExclusiveEntries(cols: seq<string>, from: nat, e: ExclusivePair)
    ensures e in Walk(cols, from, 2, ExclusiveAt) <==> exists m: nat :: ExclusiveCells(cols, VisitAt(from, 2, m), e)
  {
    WalkExactly(cols, from, 2, ExclusiveAt, e);
    if e in Walk(cols, from, 2, ExclusiveAt) {
      var m: nat :| VisitAt(from, 2, m) < |cols| && ExclusiveAt(cols, VisitAt(from, 2, m)) == Some(e);
      ExclusiveAtCells(cols, VisitAt(from, 2, m), e);
    }
    if exists m: nat :: ExclusiveCells(cols, VisitAt(from, 2, m), e) {
      var m: nat :| ExclusiveCells(cols, VisitAt(from, 2, m), e);
      ExclusiveAtCells(cols, VisitAt(from, 2, m), e);
    }
  }

  /** Column `j` of the row holds a non-blank unit whose entry is `c`: the unit trimmed, with
      intval of the next cell as its maximum, or 0 when the row ends there. */
  predicate CountLimitCells(cols: seq<string>, j: nat, c: CountLimit) {
    j < |cols| && Trim(cols[j]) != "" &&
    c == CountLimit(Trim(cols[j]), if j + 1 < |cols| then IntVal(cols[j + 1]) else 0)
  }

  /** The count limits are exactly those of the non-blank units at every other column from
      `from` on. */
  lemma CountLimitEntries(cols: seq<string>, from: nat, c: CountLimit)
    ensures c in Walk(cols, from, 2, CountLimitAt) <==> exists m: nat :: CountLimitCells(cols, VisitAt(from, 2, m), c)
  {
    WalkExactly(cols, from, 2, CountLimitAt, c);
    if c in Walk(cols, from, 2, CountLimitAt) {
      var m: nat :| VisitAt(from, 2, m) < |cols| && CountLimitAt(cols, VisitAt(from, 2, m)) == Some(c);
      assert CountLimitCells(cols, VisitAt(from, 2, m), c);
    }
    if exists m: nat :: CountLimitCells(cols, VisitAt(from, 2, m), c) {
      var m: nat :| CountLimitCells(cols, VisitAt(from, 2, m), c);
      assert CountLimitAt(cols, VisitAt(from, 2, m)) == Some(c);
    }
  }

  /** The inpatient-base fields are the five columns after the code column (3 to 7), a
      missing one reading as "", and the doctor is present exactly when column 5 is "1". */
  lemma InpatientFields(cols: seq<string>)
    requires RecordOf(Tables[3], cols).Some?
    ensures var b := RecordOf(Tables[3], cols).value.body;
      b.wardType == Cell(cols, 3) && b.conditions.nurseRatio == Cell(cols, 4) &&
      (b.conditions.doctorPresence <==> 5 < |cols| && cols[5] == "1") &&
      b.conditions.age == Cell(cols, 6) && b.conditions.severityLevel == Cell(cols, 7) &&
      b.exclusions.None?
  {
    assert Tables[3].category == InpatientBase && Tables[3].codeIndex == 2;
  }

  /** The body of the per-row loop: the code check, then the category's fields. */
  method BuildRecord(t: TableConfig, cols: seq<string>) returns (r: Option<Record>)
    ensures r == RecordOf(t, cols)
  {
    var code := Trim(Cell(cols, t.codeIndex));
    if code == "" {
      return None;
    }
    var body: Body;
    match t.category {
      case Supplemental =>
        body := SupplementalBody(Attributes(Cell(cols, 3), Cell(cols, 4), Flag(cols, 5), Flag(cols, 6),
                                            Flag(cols, 7), Flag(cols, 8), Flag(cols, 9)));
      case Inclusive =>
        var includes := CollectWalk(cols, t.codeIndex + 1, 1, IncludeAt);
        body := InclusiveBody(includes, None);
      case Exclusive =>
        var entries := CollectWalk(cols, t.codeIndex + 1, 2, ExclusiveAt);
        body := ExclusiveBody(entries);
      case InpatientBase =>
        var ci := t.codeIndex;
        body := InpatientBody(Cell(cols, ci + 1),
                              Conditions(Cell(cols, ci + 2), Flag(cols, ci + 3), Cell(cols, ci + 4), Cell(cols, ci + 5)),
                              None);
      case CountLimits =>
        var limits := CollectWalk(cols, t.codeIndex + 1, 2, CountLimitAt);
        body := CountLimitsBody(limits);
    }
    return Some(Record(code, body));
  }

  // ===========================================================================
  // Saving the records
  // ===========================================================================

  /** The save one data row causes: its record under its code, or none. */
  function RowWrite(t: TableConfig, cols: seq<string>): seq<(Key, Record)> {
    match RecordOf(t, cols)
    case Some(r) => [((t.category, r.code), r)]
    case None => []
  }

  /** The saves the data rows cause, in order. */
  function RowWrites(t: TableConfig, rows: seq<seq<string>>): seq<(Key, Record)> {
    if rows == [] then []
    else RowWrites(t, rows[..|rows| - 1]) + RowWrite(t, rows[|rows| - 1])
  }

  /** One more row adds its own save after the others. */
  lemma RowWritesSnoc(t: TableConfig, rows: seq<seq<string>>, i: nat)
    requires i < |rows|
    ensures RowWrites(t, rows[..i + 1]) == RowWrites(t, rows[..i]) + RowWrite(t, rows[i])
  {
    assert rows[..i + 1][..i] == rows[..i];
  }

  /** The record of the last data row carrying a code is the one left in that code's file:
      a later row with the same code replaces an earlier one. */
  lemma {:induction false} LastRowWins(t: TableConfig, rows: seq<seq<string>>, m: map<Key, Record>, k: nat)
    requires k < |rows| && RecordOf(t, rows[k]).Some?
    requires forall j :: k < j < |rows| ==> RowCode(t, rows[j]) != RowCode(t, rows[k])
    ensures var key := (t.category, RowCode(t, rows[k]));
      key in KeyedWrites.Apply(m, RowWrites(t, rows)) &&
      KeyedWrites.Apply(m, RowWrites(t, rows))[key] == RecordOf(t, rows[k]).value
  {
    var init := rows[..|rows| - 1];
    var last := rows[|rows| - 1];
    var key := (t.category, RowCode(t, rows[k]));
    if k == |rows| - 1 {
      var r := RecordOf(t, last).value;
      KeyedWrites.ApplySnoc(m, RowWrites(t, init), (key, r));
    } else {
      assert forall j :: k < j < |init| ==> init[j] == rows[j];
      LastRowWins(t, init, m, k);
      assert init[k] == rows[k];
      match RecordOf(t, last)
      case None =>
        assert RowWrites(t, rows) == RowWrites(t, init);
      case Some(r) =>
        KeyedWrites.ApplySnoc(m, RowWrites(t, init), ((t.category, r.code), r));
    }
  }

  /** A code no data row carries is not saved: in particular the header row's code cell
      never makes a file. */
  lemma {:induction false} UncarriedCodeNotSaved(t: TableConfig, rows: seq<seq<string>>,
                                                 m: map<Key, Record>, code: string)
    requires forall j :: 0 <= j < |rows| ==> RowCode(t, rows[j]) != code
    ensures (t.category, code) in KeyedWrites.Apply(m, RowWrites(t, rows)) <==> (t.category, code) in m
  {
    if rows != [] {
      var init := rows[..|rows| - 1];
      assert forall j :: 0 <= j < |init| ==> init[j] == rows[j];
      UncarriedCodeNotSaved(t, init, m, code);
      match RecordOf(t, rows[|rows| - 1])
      case None =>
        assert RowWrites(t, rows) == RowWrites(t, init);
      case Some(r) =>
        KeyedWrites.ApplySnoc(m, RowWrites(t, init), ((t.category, r.code), r));
    }
  }

  /** The per-row loop: build each data row's record and save it under its code. */
  method ConvertRows(store: RecordStore, t: TableConfig, rows: seq<seq<string>>)
    modifies store
    ensures store.records == KeyedWrites.Apply(old(store.records), RowWrites(t, rows))
  {
    for i := 0 to |rows|
      invariant store.records == KeyedWrites.Apply(old(store.records), RowWrites(t, rows[..i]))
    {
      RowWritesSnoc(t, rows, i);
      var r := BuildRecord(t, rows[i]);
      if r.Some? {
        var w := ((t.category, r.value.code), r.value);
        assert RowWrite(t, rows[i]) == [w];
        KeyedWrites.ApplySnoc(old(store.records), RowWrites(t, rows[..i]), w);
        store.Save(t.category, r.value);
        assert store.records == KeyedWrites.Apply(old(store.records), RowWrites(t, rows[..i]) + [w]);
      } else {
        assert RowWrite(t, rows[i]) == [];
        assert RowWrites(t, rows[..i + 1]) == RowWrites(t, rows[..i]);
      }
    }
    assert rows[..|rows|] == rows;
  }

  // ===========================================================================
  // One raw file, and the whole run
  // ===========================================================================

  /** What happened to one raw file of a table. */
  datatype FileOutcome = RawMissing | NoRows | Converted

  /** The saves one raw file causes: none when it is missing or has no rows, otherwise those
      of its data rows. */
  function FileWrites(t: TableConfig, content: Option<string>, parse: string -> seq<string>): seq<(Key, Record)> {
    match content
    case None => []
    case Some(c) => RowWrites(t, DataRows(CsvRows(c, parse)))
  }

  method ConvertFile(store: RecordStore, t: TableConfig, content: Option<string>,
                     parse: string -> seq<string>) returns (outcome: FileOutcome)
    modifies store
    ensures outcome == (if content.None? then RawMissing
                        else if CsvRows(content.value, parse) == [] then NoRows else Converted)
    ensures store.records == KeyedWrites.Apply(old(store.records), FileWrites(t, content, parse))
  {
    if content.None? {
      return RawMissing;
    }
    var rows := CsvToArraySjis(content.value, parse);
    if |rows| == 0 {
      return NoRows;
    }
    ConvertRows(store, t, rows[1..]);
    return Converted;
  }

  /** The saves of a table's files, in their configured order. */
  function TableWrites(t: TableConfig, files: seq<string>, raw: string -> Option<string>,
                       parse: string -> seq<string>): seq<(Key, Record)>
  {
    if files == [] then []
    else TableWrites(t, files[..|files| - 1], raw, parse) + FileWrites(t, raw(files[|files| - 1]), parse)
  }

  /** The saves of the tables `ts` in order, a table without a schema file skipped. */
  function RunWrites(ts: seq<TableConfig>, hasSchema: Category -> bool, raw: string -> Option<string>,
                     parse: string -> seq<string>): seq<(Key, Record)>
  {
    if ts == [] then []
    else
      var t := ts[|ts| - 1];
      RunWrites(ts[..|ts| - 1], hasSchema, raw, parse) +
      (if hasSchema(t.category) then TableWrites(t, t.files, raw, parse) else [])
  }

  /** One table: every one of its raw files in order. `raw` gives a raw file's decoded
      content, None when it is missing. */
  method ConvertTable(store: RecordStore, t: TableConfig, raw: string -> Option<string>,
                      parse: string -> seq<string>)
    modifies store
    ensures store.records == KeyedWrites.Apply(old(store.records), TableWrites(t, t.files, raw, parse))
  {
    for f := 0 to |t.files|
      invariant store.records == KeyedWrites.Apply(old(store.records), TableWrites(t, t.files[..f], raw, parse))
    {
      assert t.files[..f + 1][..f] == t.files[..f];
      assert TableWrites(t, t.files[..f + 1], raw, parse) ==
             TableWrites(t, t.files[..f], raw, parse) + FileWrites(t, raw(t.files[f]), parse);
      KeyedWrites.ApplyAppend(old(store.records), TableWrites(t, t.files[..f], raw, parse),
                              FileWrites(t, raw(t.files[f]), parse));
      var _ := ConvertFile(store, t, raw(t.files[f]), parse);
    }
    assert t.files[..|t.files|] == t.files;
  }

  /** The tables in order, those whose schema file is missing skipped (`hasSchema` tells
      whether a category's schema file exists). */
  method ConvertTables(store: RecordStore, ts: seq<TableConfig>, hasSchema: Category -> bool,
                       raw: string -> Option<string>, parse: string -> seq<string>)
    modifies store
    ensures store.records == KeyedWrites.Apply(old(store.records), RunWrites(ts, hasSchema, raw, parse))
  {
    for n := 0 to |ts|
      invariant store.records == KeyedWrites.Apply(old(store.records), RunWrites(ts[..n], hasSchema, raw, parse))
    {
      assert ts[..n + 1][..n] == ts[..n];
      var t := ts[n];
      if hasSchema(t.category) {
        assert RunWrites(ts[..n + 1], hasSchema, raw, parse) ==
               RunWrites(ts[..n], hasSchema, raw, parse) + TableWrites(t, t.files, raw, parse);
        KeyedWrites.ApplyAppend(old(store.records), RunWrites(ts[..n], hasSchema, raw, parse),
                                TableWrites(t, t.files, raw, parse));
        ConvertTable(store, t, raw, parse);
      } else {
        assert RunWrites(ts[..n + 1], hasSchema, raw, parse) == RunWrites(ts[..n], hasSchema, raw, parse) + [];
        assert RunWrites(ts[..n + 1], hasSchema, raw, parse) == RunWrites(ts[..n], hasSchema, raw, parse);
      }
    }
    assert ts[..|ts|] == ts;
  }

  /** The script: every configured table, every one of its files. */
  method ConvertRuleTables(store: RecordStore, hasSchema: Category -> bool,
                           raw: string -> Option<string>, parse: string -> seq<string>)
    modifies store
    ensures store.records == KeyedWrites.Apply(old(store.records), RunWrites(Tables, hasSchema, raw, parse))
  {
    ConvertTables(store, Tables, hasSchema, raw, parse);
  }
}
