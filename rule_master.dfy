/**
 * rule-tables/R6/convert_master.php: the earlier converter of the same five rule tables.
 * Each raw file's trimmed content is cut at LF, empty lines are dropped, the first row is
 * dropped as the header, and every other row whose first cell is non-empty becomes one JSON
 * record saved as `<category>/<code>.json`. Unlike convert_rule_tables.php the code is column
 * 0 and is not trimmed, the list cells are comma-separated, and cells are checked with PHP's
 * `empty()`, for which "0" is empty too. Reading and decoding the file, str_getcsv and
 * json_encode are not modelled: the content arrives already decoded, and the row parser is
 * a parameter.
 */
module RuleMaster {
  import opened Wrappers
  import opened PhpStrings
  import opened RuleJson
  import KeyedWrites
  import RuleTables

  // ===========================================================================
  // The $tables configuration
  // ===========================================================================

  /** A table: its category and its raw CSV files in order. */
  datatype MasterTable = MasterTable(category: Category, files: seq<string>)

  const MasterTables: seq<MasterTable> := [
    MasterTable(Supplemental, ["01補助マスターテーブル.csv"]),
    MasterTable(Inclusive, ["02包括テーブル.csv"]),
    MasterTable(Exclusive, ["03-1背反テーブル1.csv", "03-2背反テーブル2.csv",
                            "03-3背反テーブル3.csv", "03-4背反テーブル4.csv"]),
    MasterTable(InpatientBase, ["04入院基本料テーブル.csv"]),
    MasterTable(CountLimits, ["05算定回数テーブル.csv"])
  ]

  // ===========================================================================
  // csv_to_array
  // ===========================================================================

  /** The lines of the trimmed content, cut at LF only (a CR stays in its line). */
  function MasterLines(content: string): seq<string> {
    Split(Trim(content), Char('\n'))
  }

  /** What csv_to_array returns for a file's content: the non-empty lines, parsed. */
  function MasterRows(content: string, parse: string -> seq<string>): seq<seq<string>> {
    RuleTables.ParsedRows(MasterLines(content), parse)
  }

  method CsvToArray(content: string, parse: string -> seq<string>) returns (rows: seq<seq<string>>)
    ensures rows == MasterRows(content, parse)
  {
    var lines := Split(Trim(content), Char('\n'));
    rows := [];
    for i := 0 to |lines|
      invariant rows == RuleTables.ParsedRows(lines[..i], parse)
    {
      assert lines[..i + 1][..i] == lines[..i];
      if lines[i] != "" {
        rows := rows + [parse(lines[i])];
      }
    }
    assert lines[..|lines|] == lines;
  }

  /** The lines hold no LF and, joined with LF again, give back the trimmed content. */
  lemma MasterLinesJoin(content: string)
    ensures forall k :: 0 <= k < |MasterLines(content)| ==> '\n' !in MasterLines(content)[k]
    ensures Join(MasterLines(content), "\n") == Trim(content)
  {
    var lines := MasterLines(content);
    SplitNoBreak(Trim(content), Char('\n'));
    JoinSplit(Trim(content), '\n');
    forall k | 0 <= k < |lines|
      ensures '\n' !in lines[k]
    {
      assert NoBreak(Char('\n'), lines[k]);
    }
  }

  /** A file yields no row exactly when its content is blank once trimmed. */
  lemma MasterNoRowsIffBlank(content: string, parse: string -> seq<string>)
    ensures MasterRows(content, parse) == [] <==> Trim(content) == ""
  {
    var t := Trim(content);
    var lines := MasterLines(content);
    RuleTables.NoRowsAllEmpty(lines, parse);
    if t == "" {
      assert FirstBreak(t, Char('\n'), 0) == 0;
      assert lines == [""];
    } else {
      TrimEnds(content);
      assert !IsBreak(Char('\n'), t[0]);
      assert FirstBreak(t, Char('\n'), 0) == FirstBreak(t, Char('\n'), 1);
      assert lines[0] == t[..FirstBreak(t, Char('\n'), 0)];
      assert lines[0] != "";
    }
  }

  // ===========================================================================
  // From a row to a record
  // ===========================================================================

  /** The code of a row: its first cell as it stands, "" when the row has none (PHP reads
      the missing cell as null, which is skipped the same way). */
  function MasterCode(cols: seq<string>): string {
    Cell(cols, 0)
  }

  /** array_filter(explode(',', $cell)): the comma-separated items that are not empty(). */
  function CommaList(cell: string): seq<string> {
    FilterTruthy(Split(cell, Char(',')))
  }

  /** The exclusive step at column `i`: a target that is not empty(), kept as it stands and
      typed by the next cell, or "same_day" when there is no next cell. */
  function ExclusiveStep(cols: seq<string>, i: nat): Option<ExclusivePair> {
    var target := Cell(cols, i);
    if IsEmptyString(target) then None
    else Some(ExclusivePair(target, CellOr(cols, i + 1, RuleTables.SameDay)))
  }

  /** The count-limits step at column `i`: a unit that is not empty(), with intval of the next
      cell as its maximum, or 0 when there is no next cell. */
  function CountLimitStep(cols: seq<string>, i: nat): Option<CountLimit> {
    var unit := Cell(cols, i);
    if IsEmptyString(unit) then None
    else Some(CountLimit(unit, if i + 1 < |cols| then IntVal(cols[i + 1]) else 0))
  }

  /** "included_in" is set only when column 2 exists and is not empty(). */
  function IncludedIn(cols: seq<string>): Option<string> {
    if 2 < |cols| && !IsEmptyString(cols[2]) then Some(cols[2]) else None
  }

  /** The fields of a record for its category. */
  function MasterBody(c: Category, cols: seq<string>): Body {
    match c
    case Supplemental =>
      SupplementalBody(Attributes(Cell(cols, 1), Cell(cols, 2), Flag(cols, 3), Flag(cols, 4),
                                  Flag(cols, 5), Flag(cols, 6), Flag(cols, 7)))
    case Inclusive => InclusiveBody(CommaList(Cell(cols, 1)), IncludedIn(cols))
    case Exclusive => ExclusiveBody(Walk(cols, 1, 2, ExclusiveStep))
    case InpatientBase =>
      InpatientBody(Cell(cols, 1), Conditions(Cell(cols, 2), Flag(cols, 3), Cell(cols, 4), Cell(cols, 5)),
                    Some(CommaList(Cell(cols, 6))))
    case CountLimits => CountLimitsBody(Walk(cols, 1, 2, CountLimitStep))
  }

  /** The record a data row yields: none when its code is empty, otherwise one under the
      code exactly as it stands in column 0. */
  function MasterRecord(c: Category, cols: seq<string>): (r: Option<Record>)
    ensures r.None? <==> |cols| == 0 || cols[0] == ""
    ensures r.Some? ==> r.value.code == cols[0] && BodyOf(c, r.value.body)
  {
    var code := MasterCode(cols);
    if code == "" then None else Some(Record(code, MasterBody(c, cols)))
  }

  // --- What the records hold ---

  /** Each supplemental flag is set exactly when its column (3 to 7) holds "1"; the category
      and sub-category are columns 1 and 2, a missing one reading as "". */
  lemma MasterSupplementalFields(cols: seq<string>)
    requires MasterRecord(Supplemental, cols).Some?
    ensures var a := MasterRecord(Supplemental, cols).value.body.attributes;
      (a.drugRelated <==> 3 < |cols| && cols[3] == "1") &&
      (a.surgeryRelated <==> 4 < |cols| && cols[4] == "1") &&
      (a.radiologyRelated <==> 5 < |cols| && cols[5] == "1") &&
      (a.requiresComment <==> 6 < |cols| && cols[6] == "1") &&
      (a.requiresModifier <==> 7 < |cols| && cols[7] == "1") &&
      a.category == (if 1 < |cols| then cols[1] else "") &&
      a.subCategory == (if 2 < |cols| then cols[2] else "")
  {
  }

  /** A comma list holds exactly the comma-separated items of the cell that are neither ""
      nor "0", and none of them holds a comma. */
  lemma CommaListExactly(cell: string, x: string)
    ensures x in CommaList(cell) <==> x in Split(cell, Char(',')) && x != "" && x != "0"
    ensures x in CommaList(cell) ==> ',' !in x
  {
    FilterTruthyExactly(Split(cell, Char(',')), x);
    if x in CommaList(cell) {
      SplitNoBreak(cell, Char(','));
      var k :| 0 <= k < |Split(cell, Char(','))| && Split(cell, Char(','))[k] == x;
      assert NoBreak(Char(','), Split(cell, Char(','))[k]);
    }
  }

  /** The inclusive fields: the includes are the comma list of column 1, and "included_in"
      is column 2 exactly when that column exists and is neither "" nor "0". */
  lemma MasterInclusiveFields(cols: seq<string>)
    requires MasterRecord(Inclusive, cols).Some?
    ensures var b := MasterRecord(Inclusive, cols).value.body;
      b.includes == CommaList(Cell(cols, 1)) &&
      (b.includedIn.Some? <==> 2 < |cols| && cols[2] != "" && cols[2] != "0") &&
      (b.includedIn.Some? ==> b.includedIn.value == cols[2])
  {
  }

  /** Column `j` of the row holds a target that is not empty() and whose entry is `e`: the
      target as it stands, typed by the next cell, or by "same_day" when the row ends there. */
  predicate MasterExclusiveCells(cols: seq<string>, j: nat, e: ExclusivePair) {
    j < |cols| && cols[j] != "" && cols[j] != "0" &&
    e == ExclusivePair(cols[j], if j + 1 < |cols| then cols[j + 1] else RuleTables.SameDay)
  }

  /** The exclusive entries are exactly those of the non-empty targets in the odd columns. */
  lemma MasterExclusiveEntries(cols: seq<string>, e: ExclusivePair)
    ensures e in Walk(cols, 1, 2, ExclusiveStep) <==> exists m: nat :: MasterExclusiveCells(cols, VisitAt(1, 2, m), e)
  {
    WalkExactly(cols, 1, 2, ExclusiveStep, e);
    if e in Walk(cols, 1, 2, ExclusiveStep) {
      var m: nat :| VisitAt(1, 2, m) < |cols| && ExclusiveStep(cols, VisitAt(1, 2, m)) == Some(e);
      assert MasterExclusiveCells(cols, VisitAt(1, 2, m), e);
    }
    if exists m: nat :: MasterExclusiveCells(cols, VisitAt(1, 2, m), e) {
      var m: nat :| MasterExclusiveCells(cols, VisitAt(1, 2, m), e);
      assert ExclusiveStep(cols, VisitAt(1, 2, m)) == Some(e);
    }
  }

  /** Column `j` of the row holds a unit that is not empty() and whose entry is `c`: the unit
      as it stands, with intval of the next cell as its maximum, or 0 when the row ends there. */
  predicate MasterCountLimitCells(cols: seq<string>, j: nat, c: CountLimit) {
    j < |cols| && cols[j] != "" && cols[j] != "0" &&
    c == CountLimit(cols[j], if j + 1 < |cols| then IntVal(cols[j + 1]) else 0)
  }

  /** The count limits are exactly those of the non-empty units in the odd columns. */
  lemma MasterCountLimitEntries(cols: seq<string>, c: CountLimit)
    ensures c in Walk(cols, 1, 2, CountLimitStep) <==> exists m: nat :: MasterCountLimitCells(cols, VisitAt(1, 2, m), c)
  {
    WalkExactly(cols, 1, 2, CountLimitStep, c);
    if c in Walk(cols, 1, 2, CountLimitStep) {
      var m: nat :| VisitAt(1, 2, m) < |cols| && CountLimitStep(cols, VisitAt(1, 2, m)) == Some(c);
      assert MasterCountLimitCells(cols, VisitAt(1, 2, m), c);
    }
    if exists m: nat :: MasterCountLimitCells(cols, VisitAt(1, 2, m), c) {
      var m: nat :| MasterCountLimitCells(cols, VisitAt(1, 2, m), c);
      assert CountLimitStep(cols, VisitAt(1, 2, m)) == Some(c);
    }
  }

  /** The inpatient-base fields are columns 1 to 5, a missing one reading as "", the doctor
      is present exactly when column 3 is "1", and the exclusions are the comma list of
      column 6. */
  lemma MasterInpatientFields(cols: seq<string>)
    requires MasterRecord(InpatientBase, cols).Some?
    ensures var b := MasterRecord(InpatientBase, cols).value.body;
      b.wardType == Cell(cols, 1) && b.conditions.nurseRatio == Cell(cols, 2) &&
      (b.conditions.doctorPresence <==> 3 < |cols| && cols[3] == "1") &&
      b.conditions.age == Cell(cols, 4) && b.conditions.severityLevel == Cell(cols, 5) &&
      b.exclusions == Some(CommaList(Cell(cols, 6)))
  {
  }

  /** The body of the per-row loop: the code check, then the category's fields. */
  method BuildMasterRecord(c: Category, cols: seq<string>) returns (r: Option<Record>)
    ensures r == MasterRecord(c, cols)
  {
    if |cols| == 0 || cols[0] == "" {
      return None;
    }
    var code := cols[0];
    var body: Body;
    match c {
      case Supplemental =>
        body := SupplementalBody(Attributes(Cell(cols, 1), Cell(cols, 2), Flag(cols, 3), Flag(cols, 4),
                                            Flag(cols, 5), Flag(cols, 6), Flag(cols, 7)));
      case Inclusive =>
        body := InclusiveBody(FilterTruthy(Split(Cell(cols, 1), Char(','))), IncludedIn(cols));
      case Exclusive =>
        var entries := CollectWalk(cols, 1, 2, ExclusiveStep);
        body := ExclusiveBody(entries);
      case InpatientBase =>
        body := InpatientBody(Cell(cols, 1),
                              Conditions(Cell(cols, 2), Flag(cols, 3), Cell(cols, 4), Cell(cols, 5)),
                              Some(FilterTruthy(Split(Cell(cols, 6), Char(',')))));
      case CountLimits =>
        var limits := CollectWalk(cols, 1, 2, CountLimitStep);
        body := CountLimitsBody(limits);
    }
    return Some(Record(code, body));
  }

  // ===========================================================================
  // Saving the records
  // ===========================================================================

  /** The save one data row causes: its record under its code, or none. */
  function MasterRowWrite(c: Category, cols: seq<string>): seq<(Key, Record)> {
    match MasterRecord(c, cols)
    case Some(r) => [((c, r.code), r)]
    case None => []
  }

  /** The saves the data rows cause, in order. */
  function MasterRowWrites(c: Category, rows: seq<seq<string>>): seq<(Key, Record)> {
    if rows == [] then []
    else MasterRowWrites(c, rows[..|rows| - 1]) + MasterRowWrite(c, rows[|rows| - 1])
  }

  /** One more row adds its own save after the others. */
  lemma MasterRowWritesSnoc(c: Category, rows: seq<seq<string>>, i: nat)
    requires i < |rows|
    ensures MasterRowWrites(c, rows[..i + 1]) == MasterRowWrites(c, rows[..i]) + MasterRowWrite(c, rows[i])
  {
    assert rows[..i + 1][..i] == rows[..i];
  }

  /** The record of the last data row carrying a code is the one left in that code's file. */
  lemma {:induction false} MasterLastRowWins(c: Category, rows: seq<seq<string>>, m: map<Key, Record>, k: nat)
    requires k < |rows| && MasterRecord(c, rows[k]).Some?
    requires forall j :: k < j < |rows| ==> MasterCode(rows[j]) != MasterCode(rows[k])
    ensures var key := (c, MasterCode(rows[k]));
      key in KeyedWrites.Apply(m, MasterRowWrites(c, rows)) &&
      KeyedWrites.Apply(m, MasterRowWrites(c, rows))[key] == MasterRecord(c, rows[k]).value
  {
    var init := rows[..|rows| - 1];
    var last := rows[|rows| - 1];
    var key := (c, MasterCode(rows[k]));
    var before := MasterRowWrites(c, init);
    assert MasterRowWrites(c, rows) == before + MasterRowWrite(c, last);
    if k == |rows| - 1 {
      var r := MasterRecord(c, last).value;
      assert MasterRowWrite(c, last) == [(key, r)];
      KeyedWrites.ApplySnoc(m, before, (key, r));
    } else {
      assert forall j :: k < j < |init| ==> init[j] == rows[j];
      assert init[k] == rows[k];
      MasterLastRowWins(c, init, m, k);
      match MasterRecord(c, last)
      case None =>
        assert before + [] == before;
      case Some(r) =>
        assert MasterRowWrite(c, last) == [((c, r.code), r)];
        KeyedWrites.ApplySnoc(m, before, ((c, r.code), r));
    }
  }

  /** A code no data row carries is not saved: in particular the header row's first cell
      never makes a file. */
  lemma {:induction false} MasterUncarriedCodeNotSaved(c: Category, rows: seq<seq<string>>,
                                                       m: map<Key, Record>, code: string)
    requires forall j :: 0 <= j < |rows| ==> MasterCode(rows[j]) != code
    ensures (c, code) in KeyedWrites.Apply(m, MasterRowWrites(c, rows)) <==> (c, code) in m
  {
    if rows != [] {
      var init := rows[..|rows| - 1];
      assert forall j :: 0 <= j < |init| ==> init[j] == rows[j];
      MasterUncarriedCodeNotSaved(c, init, m, code);
      match MasterRecord(c, rows[|rows| - 1])
      case None =>
        assert MasterRowWrites(c, rows) == MasterRowWrites(c, init);
      case Some(r) =>
        KeyedWrites.ApplySnoc(m, MasterRowWrites(c, init), ((c, r.code), r));
    }
  }

  /** The per-row loop: build each data row's record and save it under its code. */
  method ConvertMasterRows(store: RecordStore, c: Category, rows: seq<seq<string>>)
    modifies store
    ensures store.records == KeyedWrites.Apply(old(store.records), MasterRowWrites(c, rows))
  {
    for i := 0 to |rows|
      invariant store.records == KeyedWrites.Apply(old(store.records), MasterRowWrites(c, rows[..i]))
    {
      MasterRowWritesSnoc(c, rows, i);
      var r := BuildMasterRecord(c, rows[i]);
      if r.Some? {
        var w := ((c, r.value.code), r.value);
        assert MasterRowWrite(c, rows[i]) == [w];
        KeyedWrites.ApplySnoc(old(store.records), MasterRowWrites(c, rows[..i]), w);
        store.Save(c, r.value);
        assert store.records == KeyedWrites.Apply(old(store.records), MasterRowWrites(c, rows[..i]) + [w]);
      } else {
        assert MasterRowWrite(c, rows[i]) == [];
        assert MasterRowWrites(c, rows[..i + 1]) == MasterRowWrites(c, rows[..i]);
      }
    }
    assert rows[..|rows|] == rows;
  }

  // ===========================================================================
  // One raw file, and the whole run
  // ===========================================================================

  /** The saves one raw file causes: none when it is missing, otherwise those of its rows
      after the first (a file without rows has no header and no data rows). */
  function MasterFileWrites(c: Category, content: Option<string>, parse: string -> seq<string>): seq<(Key, Record)> {
    match content
    case None => []
    case Some(text) => MasterRowWrites(c, RuleTables.DataRows(MasterRows(text, parse)))
  }

  /** One raw file; `loaded` is false for the "raw file missing" warning. */
  method ConvertMasterFile(store: RecordStore, c: Category, content: Option<string>,
                           parse: string -> seq<string>) returns (loaded: bool)
    modifies store
    ensures loaded <==> content.Some?
    ensures store.records == KeyedWrites.Apply(old(store.records), MasterFileWrites(c, content, parse))
  {
    if content.None? {
      return false;
    }
    var rows := CsvToArray(content.value, parse);
    if |rows| > 0 {
      rows := rows[1..];
    }
    ConvertMasterRows(store, c, rows);
    return true;
  }

  /** The saves of a table's files, in their configured order. */
  function MasterTableWrites(c: Category, files: seq<string>, raw: string -> Option<string>,
                             parse: string -> seq<string>): seq<(Key, Record)>
  {
    if files == [] then []
    else MasterTableWrites(c, files[..|files| - 1], raw, parse) + MasterFileWrites(c, raw(files[|files| - 1]), parse)
  }

  /** One more file adds its own saves after the others. */
  lemma MasterTableWritesSnoc(c: Category, files: seq<string>, f: nat, raw: string -> Option<string>,
                              parse: string -> seq<string>)
    requires f < |files|
    ensures MasterTableWrites(c, files[..f + 1], raw, parse) ==
            MasterTableWrites(c, files[..f], raw, parse) + MasterFileWrites(c, raw(files[f]), parse)
  {
    assert files[..f + 1][..f] == files[..f];
  }

  /** The saves of the tables `ts` in order, a table without a schema file skipped. */
  function MasterRunWrites(ts: seq<MasterTable>, hasSchema: Category -> bool, raw: string -> Option<string>,
                           parse: string -> seq<string>): seq<(Key, Record)>
  {
    if ts == [] then []
    else
      var t := ts[|ts| - 1];
      MasterRunWrites(ts[..|ts| - 1], hasSchema, raw, parse) +
      (if hasSchema(t.category) then MasterTableWrites(t.category, t.files, raw, parse) else [])
  }

  /** One table: every one of its raw files in order. `raw` gives a raw file's decoded
      content, None when it is missing. */
  method ConvertMasterTable(store: RecordStore, t: MasterTable, raw: string -> Option<string>,
                            parse: string -> seq<string>)
    modifies store
    ensures store.records == KeyedWrites.Apply(old(store.records), MasterTableWrites(t.category, t.files, raw, parse))
  {
    for f := 0 to |t.files|
      invariant store.records == KeyedWrites.Apply(old(store.records), MasterTableWrites(t.category, t.files[..f], raw, parse))
    {
      MasterTableWritesSnoc(t.category, t.files, f, raw, parse);
      KeyedWrites.ApplyAppend(old(store.records), MasterTableWrites(t.category, t.files[..f], raw, parse),
                              MasterFileWrites(t.category, raw(t.files[f]), parse));
      var _ := ConvertMasterFile(store, t.category, raw(t.files[f]), parse);
    }
    assert t.files[..|t.files|] == t.files;
  }

  /** The tables in order, those whose schema file is missing skipped. */
  method ConvertMasterTables(store: RecordStore, ts: seq<MasterTable>, hasSchema: Category -> bool,
                             raw: string -> Option<string>, parse: string -> seq<string>)
    modifies store
    ensures store.records == KeyedWrites.Apply(old(store.records), MasterRunWrites(ts, hasSchema, raw, parse))
  {
    for n := 0 to |ts|
      invariant store.records == KeyedWrites.Apply(old(store.records), MasterRunWrites(ts[..n], hasSchema, raw, parse))
    {
      assert ts[..n + 1][..n] == ts[..n];
      var t := ts[n];
      if hasSchema(t.category) {
        assert MasterRunWrites(ts[..n + 1], hasSchema, raw, parse) ==
               MasterRunWrites(ts[..n], hasSchema, raw, parse) + MasterTableWrites(t.category, t.files, raw, parse);
        KeyedWrites.ApplyAppend(old(store.records), MasterRunWrites(ts[..n], hasSchema, raw, parse),
                                MasterTableWrites(t.category, t.files, raw, parse));
        ConvertMasterTable(store, t, raw, parse);
      } else {
        assert MasterRunWrites(ts[..n + 1], hasSchema, raw, parse) == MasterRunWrites(ts[..n], hasSchema, raw, parse) + [];
        assert MasterRunWrites(ts[..n + 1], hasSchema, raw, parse) == MasterRunWrites(ts[..n], hasSchema, raw, parse);
      }
    }
    assert ts[..|ts|] == ts;
  }

  /** The script: every configured table, every one of its files. */
  method ConvertMaster(store: RecordStore, hasSchema: Category -> bool,
                       raw: string -> Option<string>, parse: string -> seq<string>)
    modifies store
    ensures store.records == KeyedWrites.Apply(old(store.records), MasterRunWrites(MasterTables, hasSchema, raw, parse))
  {
    ConvertMasterTables(store, MasterTables, hasSchema, raw, parse);
  }
}
